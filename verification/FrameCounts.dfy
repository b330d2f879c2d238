/**
 What the frame and packet counters of a run say: how the frames were sorted, how often the master
 channel counter jumped, and how many packets were handed on.
 */
module FrameCounts {
  import opened Octets
  import opened Channels
  import opened Deframing
  import opened VirtualChannels
  import Randomizer
  import Reassembly
  import SpacePackets
  import TmFrame

  // The frames of the configured spacecraft, on any channel.
  function Own(cfg: Config, frames: seq<TmFrame.Frame>): (r: seq<TmFrame.Frame>)
    ensures |r| <= |frames|
  {
    if frames == [] then []
    else
      var f := frames[|frames| - 1];
      Own(cfg, frames[..|frames| - 1]) + if IsOurs(cfg, f) then [f] else []
  }

  // Those of them on channels that are not filtered out.
  function Taken(cfg: Config, frames: seq<TmFrame.Frame>): (r: seq<TmFrame.Frame>)
    ensures |r| <= |Own(cfg, frames)|
  {
    if frames == [] then []
    else
      var f := frames[|frames| - 1];
      Taken(cfg, frames[..|frames| - 1]) + if Admitted(cfg, f) then [f] else []
  }

  /** Neighbours whose master channel counts do not follow on. */
  function Jumps(frames: seq<TmFrame.Frame>): nat {
    if |frames| < 2 then 0
    else
      var n := |frames| - 1;
      Jumps(frames[..n]) + if frames[n].header.mcCount == Next(frames[n - 1].header.mcCount) then 0 else 1
  }

  function LastCount(frames: seq<TmFrame.Frame>): Option<bv8> {
    if frames == [] then None else Some(frames[|frames| - 1].header.mcCount)
  }

  lemma JumpsOneMore(frames: seq<TmFrame.Frame>, f: TmFrame.Frame)
    ensures LastCount(frames + [f]) == Some(f.header.mcCount)
    ensures Jumps(frames + [f]) == Jumps(frames) + match LastCount(frames)
                                                   case None => 0
                                                   case Some(c) => if f.header.mcCount == Next(c) then 0 else 1
  {
    hide Next;
    assert (frames + [f])[..|frames|] == frames;
  }

  lemma EmittedLength(vcid: nat, spacecraftId: bv16, packets: seq<Octets>)
    ensures |Emitted(vcid, spacecraftId, packets)| == |Emitted(0, 0, packets)|
  {
  }

  // One frame.
  lemma OneFrame(cfg: Config, c: Core, f: TmFrame.Frame)
    requires |c.vcs| == CHANNELS && f.header.vcid < CHANNELS
    ensures var a := Accept(cfg, c, f);
            var s, t := c.stats, a.0.stats;
            var ours, taken := IsOurs(cfg, f), Admitted(cfg, f);
            && t.framesOtherSpacecraft == s.framesOtherSpacecraft + (if ours then 0 else 1)
            && t.framesVcFiltered == s.framesVcFiltered + (if ours && !taken then 1 else 0)
            && t.framesOk == s.framesOk + (if taken then 1 else 0)
            && t.mcFrameGaps == s.mcFrameGaps + (if ours && IsMcGap(c, f.header) then 1 else 0)
            && a.0.lastMc == (if ours then Some(f.header.mcCount) else c.lastMc)
            && t.packetsExtracted == s.packetsExtracted + |a.1|
            && t.framesIdle == s.framesIdle + (if taken && f.header.firstHeaderPointer == 0x7FE then 1 else 0)
  {
    hide Reassembly.Receive, Emitted, IdleCount, IsMcGap;
    var o := Reassembly.Receive(c.vcs[f.header.vcid], PartOf(f));
    EmittedLength(f.header.vcid, f.header.spacecraftId, o.packets);
    IdleIsThePointer(c.vcs[f.header.vcid], PartOf(f));
  }

  lemma IdleIsThePointer(vc: Reassembly.Vc, part: Reassembly.Part)
    ensures Reassembly.Receive(vc, part).idleFrames == if part.pointer == 0x7FE then 1 else 0
  {
    hide Reassembly.Cut;
  }

  /** Frames with the pointer of an idle frame. */
  function IdleOnes(frames: seq<TmFrame.Frame>): nat {
    if frames == [] then 0
    else
      var n := |frames| - 1;
      IdleOnes(frames[..n]) + if frames[n].header.firstHeaderPointer == 0x7FE then 1 else 0
  }

  lemma IdleOnesOneMore(frames: seq<TmFrame.Frame>, f: TmFrame.Frame)
    ensures IdleOnes(frames + [f]) == IdleOnes(frames) + if f.header.firstHeaderPointer == 0x7FE then 1 else 0
  {
    assert (frames + [f])[..|frames|] == frames;
  }

  // What an accepted frame hands on: its own channel and spacecraft on every packet.
  lemma {:induction false} PacketsAreLabelled(vcid: nat, spacecraftId: bv16, packets: seq<Octets>)
    ensures forall p :: p in Emitted(vcid, spacecraftId, packets) ==> p.vcid == vcid && p.spacecraftId == spacecraftId
  {
    hide SpacePackets.IsIdle;
    if packets != [] {
      PacketsAreLabelled(vcid, spacecraftId, packets[1..]);
    }
  }

  /**
   What becomes of the octets of one frame, and which counters say so: a wrong length or a frame that
   does not parse raises exactly one of two counters; another spacecraft's frame leaves everything else
   as it was; a frame on a channel that is not taken leaves every channel as it was.
   */
  lemma FrameIsHandled(cfg: Config, c: Core, raw: Octets)
    requires |c.vcs| == 8
    ensures var h, s := HandleFrame(cfg, c, raw), c.stats;
            var t := h.core.stats;
            if |raw| < 8 || |raw| > 2048 || (cfg.frameLength.Some? && cfg.frameLength.value != |raw|) then
              !h.ok && h.packets == [] && h.core == c.(stats := s.(framesInvalid := s.framesInvalid + 1))
            else
              match TmFrame.ParseFrame(if cfg.derandomize then Randomizer.Randomize(raw) else raw, cfg.fecf)
              case Err(FecfMismatch(_, _)) =>
                !h.ok && h.packets == [] && h.core == c.(stats := s.(framesCrcError := s.framesCrcError + 1))
              case Err(_) =>
                !h.ok && h.packets == [] && h.core == c.(stats := s.(framesInvalid := s.framesInvalid + 1))
              case Ok(f) =>
                && h.ok && t.framesCrcError == s.framesCrcError && t.framesInvalid == s.framesInvalid
                && (cfg.spacecraftId.Some? && cfg.spacecraftId.value != f.header.spacecraftId ==>
                      && h.packets == []
                      && h.core == c.(stats := s.(framesOtherSpacecraft := s.framesOtherSpacecraft + 1)))
                && (cfg.virtualChannels.Some? && f.header.vcid !in cfg.virtualChannels.value ==>
                      h.packets == [] && h.core.vcs == c.vcs)
                && (forall v :: 0 <= v < 8 && v != f.header.vcid ==> h.core.vcs[v] == c.vcs[v])
                && forall p :: p in h.packets ==> p.vcid == f.header.vcid && p.spacecraftId == f.header.spacecraftId
  {
    hide TmFrame.ParseFrame, Randomizer.Randomize, Accept;
    match Decode(cfg, raw)
    case Ok(f) => FrameIsAccepted(cfg, c, f);
    case Err(_) =>
  }

  lemma FrameIsAccepted(cfg: Config, c: Core, f: TmFrame.Frame)
    requires |c.vcs| == 8 && f.header.vcid < 8
    ensures var a, s := Accept(cfg, c, f), c.stats;
            && a.0.stats.framesCrcError == s.framesCrcError && a.0.stats.framesInvalid == s.framesInvalid
            && (cfg.spacecraftId.Some? && cfg.spacecraftId.value != f.header.spacecraftId ==>
                  a == (c.(stats := s.(framesOtherSpacecraft := s.framesOtherSpacecraft + 1)), []))
            && (cfg.virtualChannels.Some? && f.header.vcid !in cfg.virtualChannels.value ==>
                  a.1 == [] && a.0.vcs == c.vcs)
            && (forall v :: 0 <= v < 8 && v != f.header.vcid ==> a.0.vcs[v] == c.vcs[v])
            && forall p :: p in a.1 ==> p.vcid == f.header.vcid && p.spacecraftId == f.header.spacecraftId
  {
    hide Reassembly.Receive, Emitted, IdleCount, IsMcGap;
    var o := Reassembly.Receive(c.vcs[f.header.vcid], PartOf(f));
    PacketsAreLabelled(f.header.vcid, f.header.spacecraftId, o.packets);
  }

  /**
   Every frame that decodes is counted in exactly one of three ways; the master channel counter is
   compared from each frame of the spacecraft to the next, filtered channels included; and as many
   packets are counted as are handed on.
   */
  lemma {:induction false} CountersSayWhatHappened(cfg: Config, c: Core, frames: seq<TmFrame.Frame>)
    requires FreshCore(c) && ValidFrames(frames)
    ensures var s := c.stats;
            var run := TakeIn(cfg, c, frames);
            var t := run.0.stats;
            && t.framesOtherSpacecraft == s.framesOtherSpacecraft + |frames| - |Own(cfg, frames)|
            && t.framesVcFiltered == s.framesVcFiltered + |Own(cfg, frames)| - |Taken(cfg, frames)|
            && t.framesOk == s.framesOk + |Taken(cfg, frames)|
            && t.mcFrameGaps == s.mcFrameGaps + Jumps(Own(cfg, frames))
            && run.0.lastMc == LastCount(Own(cfg, frames))
            && t.packetsExtracted == s.packetsExtracted + |run.1|
            && t.framesIdle == s.framesIdle + IdleOnes(Taken(cfg, frames))
    decreases |frames|
  {
    hide Accept, IsOtherSpacecraft, IsFiltered, Jumps, LastCount, IsOurs, IdleOnes, Next;
    if frames == [] {
      NoFrames();
    } else {
      var n := |frames| - 1;
      CountersSayWhatHappened(cfg, c, frames[..n]);
      OneFrame(cfg, TakeIn(cfg, c, frames[..n]).0, frames[n]);
      GapIsJump(TakeIn(cfg, c, frames[..n]).0, Own(cfg, frames[..n]), frames[n]);
      JumpsOneMore(Own(cfg, frames[..n]), frames[n]);
      IdleOnesOneMore(Taken(cfg, frames[..n]), frames[n]);
      assert Own(cfg, frames[..n]) + [] == Own(cfg, frames[..n]);
      assert Taken(cfg, frames[..n]) + [] == Taken(cfg, frames[..n]);
    }
  }

  lemma NoFrames()
    ensures Jumps([]) == 0 && LastCount([]) == None && IdleOnes([]) == 0
  {
  }

  lemma GapIsJump(c: Core, frames: seq<TmFrame.Frame>, f: TmFrame.Frame)
    requires c.lastMc == LastCount(frames)
    ensures Jumps(frames + [f]) == Jumps(frames) + if IsMcGap(c, f.header) then 1 else 0
  {
    hide Next, Jumps;
    JumpsOneMore(frames, f);
  }

  /** The same for a whole run of datagrams from a fresh deframer. */
  lemma CountersOfARun(cfg: Config, st: State, datagrams: seq<Octets>)
    requires ValidConfig(cfg) && IsFresh(st)
    ensures var frames := FramesIn(cfg, datagrams);
            var run := PushAll(cfg, st, datagrams);
            var s, t := st.core.stats, run.0.core.stats;
            && t.framesOk + t.framesVcFiltered + t.framesOtherSpacecraft
               == s.framesOk + s.framesVcFiltered + s.framesOtherSpacecraft + |frames|
            && t.framesOk == s.framesOk + |Taken(cfg, frames)|
            && t.mcFrameGaps == s.mcFrameGaps + Jumps(Own(cfg, frames))
            && t.packetsExtracted == s.packetsExtracted + |run.1|
            && t.framesIdle == s.framesIdle + IdleOnes(Taken(cfg, frames))
  {
    hide PushAll, FramesIn, TakeIn, Own, Taken, Jumps, IdleOnes, ValidFrames;
    PushAllTakesIn(cfg, st, datagrams);
    CountersSayWhatHappened(cfg, Plain(st.core), FramesIn(cfg, datagrams));
  }

  // ---------------------------------------------------------------------------------------
  // Losses on one channel
  // ---------------------------------------------------------------------------------------

  /** Frames of a channel whose count does not follow that of the frame before. */
  function Skips(parts: seq<Reassembly.Part>): nat {
    if |parts| < 2 then 0
    else
      var n := |parts| - 1;
      Skips(parts[..n]) + if parts[n].count == parts[n - 1].count + 1 then 0 else 1
  }

  lemma GapIsASkip(vc: Reassembly.Vc, part: Reassembly.Part)
    ensures Reassembly.Receive(vc, part).vc.lastCount == Some(part.count)
    ensures Reassembly.Receive(vc, part).gaps
         == if vc.lastCount.Some? && part.count != vc.lastCount.value + 1 then 1 else 0
  {
    hide Reassembly.Cut;
  }

  /** The gaps counted on a channel are the frames whose count does not follow, modulo 256. */
  lemma {:induction false} GapsAreSkips(parts: seq<Reassembly.Part>)
    ensures Reassembly.Run(parts).gaps == Skips(parts)
    ensures Reassembly.Run(parts).vc.lastCount == if parts == [] then None else Some(parts[|parts| - 1].count)
  {
    hide Reassembly.Receive;
    if parts != [] {
      var n := |parts| - 1;
      GapsAreSkips(parts[..n]);
      GapIsASkip(Reassembly.Run(parts[..n]).vc, parts[n]);
    }
  }

  /** What cutting leaves of a channel in sync, with the count of the frame. */
  predicate IsLeft(c: Reassembly.Cutting, count: bv8, vc: Reassembly.Vc) {
    vc == if c.lost then Reassembly.Vc([], false, Some(count)) else Reassembly.Vc(c.rest, true, Some(count))
  }

  /**
   One frame on its channel, by its pointer: which packets come off, what is left, and which packets in
   progress are counted as lost: one that a skipped count interrupts; one that a pointer past the data
   interrupts; one that the frame's pointer does not end on; and one whose next packet has a wrong version.
   */
  lemma FrameOnAChannel(vc: Reassembly.Vc, part: Reassembly.Part)
    requires Reassembly.ValidVc(vc)
    ensures var o := Reassembly.Receive(vc, part);
            var skips := vc.lastCount.Some? && part.count as nat != (vc.lastCount.value as nat + 1) % 256;
            var held := if skips then [] else vc.pending;
            var inSync := vc.inSync && !skips;
            var n := (if skips && vc.pending != [] then 1 else 0);
            if part.pointer == 2046 then
              o.packets == [] && o.dropped == n && o.vc == Reassembly.Vc(held, inSync, Some(part.count))
            else if part.pointer == 2047 then
              var c := Reassembly.Cut(held + part.data);
              if inSync then
                o.packets == c.packets && IsLeft(c, part.count, o.vc) && o.dropped == n + (if c.lost then 1 else 0)
              else o.packets == [] && o.dropped == n && o.vc == Reassembly.Vc([], false, Some(part.count))
            else if part.pointer >= |part.data| then
              && o.packets == [] && o.dropped == n + (if held != [] then 1 else 0)
              && o.vc == Reassembly.Vc([], false, Some(part.count))
            else
              var before := Reassembly.Cut(held + part.data[..part.pointer]);
              var c := Reassembly.Cut(part.data[part.pointer..]);
              && o.packets == (if inSync then before.packets else []) + c.packets && IsLeft(c, part.count, o.vc)
              && o.dropped == n
                 + (if inSync && (before.lost || before.rest != []) then 1 else 0) + (if c.lost then 1 else 0)
  {
    hide Reassembly.Cut, Reassembly.Incomplete, Next;
    SkipIsModulo(vc, part);
    assert [] + part.data[(if part.pointer <= |part.data| then part.pointer else 0)..]
        == part.data[(if part.pointer <= |part.data| then part.pointer else 0)..];
    if part.pointer < |part.data| {
      Reassembly.CutPartitions(vc.pending + part.data[..part.pointer]);
    }
  }

  lemma SkipIsModulo(vc: Reassembly.Vc, part: Reassembly.Part)
    ensures Reassembly.IsGap(vc, part) <==>
              vc.lastCount.Some? && part.count as nat != (vc.lastCount.value as nat + 1) % 256
  {
    hide Next;
    if vc.lastCount.Some? {
      IncrementModulo256(vc.lastCount.value);
      if part.count as nat == Next(vc.lastCount.value) as nat {
        OctetIdentity(part.count, Next(vc.lastCount.value));
      }
    }
  }

  // ---------------------------------------------------------------------------------------
  // Datagrams
  // ---------------------------------------------------------------------------------------

  /** A datagram that is not a whole number of frames is one invalid frame, and leaves all else as it was. */
  lemma MalformedDatagram(cfg: Config, st: State, datagram: Octets)
    requires ValidState(st) && ValidConfig(cfg) && !cfg.asm && cfg.frameLength.Some?
    requires datagram == [] || |datagram| % cfg.frameLength.value != 0
    ensures var s := st.core.stats;
            Push(cfg, st, datagram)
            == (st.(core := st.core.(stats := s.(datagrams := s.datagrams + 1, framesInvalid := s.framesInvalid + 1))),
                [])
  {
  }

  /** After a reset nothing is buffered, no count is remembered, and the counters stand. */
  lemma ResetIs(st: State)
    ensures Reset(st).core.stats == st.core.stats && Reset(st).core.lastMc == None && Reset(st).stream == []
    ensures |Reset(st).core.vcs| == 8
    ensures forall v :: 0 <= v < 8 ==> Reset(st).core.vcs[v] == Reassembly.Vc([], false, None)
  {
  }
}
