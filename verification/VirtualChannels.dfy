/**
 Virtual channels do not disturb each other: what a deframer emits on one channel, and what it
 counts as lost, is the sum of independent runs of `Reassembly.Run` on each channel's own frames.
 */
module VirtualChannels {
  import opened Octets
  import opened Channels
  import opened Deframing
  import opened Provenance
  import opened Reassembly
  import Layouts
  import SpacePackets
  import TmFrame

  /** The frame names the spacecraft that is configured, if one is. */
  predicate IsOurs(cfg: Config, f: TmFrame.Frame) {
    cfg.spacecraftId == None || cfg.spacecraftId == Some(f.header.spacecraftId)
  }

  /** And a channel that is configured, if any are. */
  predicate Admitted(cfg: Config, f: TmFrame.Frame) {
    IsOurs(cfg, f) && (cfg.virtualChannels == None || f.header.vcid in cfg.virtualChannels.value)
  }

  /** The admitted frames of channel `v`, in order. */
  function PartsOn(cfg: Config, frames: seq<TmFrame.Frame>, v: nat): seq<Part> {
    if frames == [] then []
    else
      var f := frames[|frames| - 1];
      PartsOn(cfg, frames[..|frames| - 1], v) + (if Admitted(cfg, f) && f.header.vcid == v then [PartOf(f)] else [])
  }

  predicate IsFiller(p: Octets) {
    |p| >= SpacePackets.PACKET_HEADER_LEN && SpacePackets.IsIdle(p)
  }

  /** The packets that are not filler. */
  function NonIdle(packets: seq<Octets>): seq<Octets> {
    if packets == [] then [] else (if IsFiller(packets[0]) then [] else [packets[0]]) + NonIdle(packets[1..])
  }

  /** The octets of the packets emitted on channel `v`. */
  function OnChannel(packets: seq<Packet>, v: nat): seq<Octets> {
    if packets == [] then [] else (if packets[0].vcid == v then [packets[0].bytes] else []) + OnChannel(packets[1..], v)
  }

  /** Filler is what has the idle application identifier, 2047. */
  lemma FillerIs(p: Octets)
    ensures NonIdle([p]) == if |p| >= 6 && p[0] as nat % 8 * 256 + p[1] as nat == 2047 then [] else [p]
  {
    hide SpacePackets.IsIdle;
    if |p| >= 6 {
      Layouts.PacketHeaderFields(p);
    }
    assert [p][1..] == [];
  }

  lemma {:induction false} NonIdleSplit(a: seq<Octets>, b: seq<Octets>)
    ensures NonIdle(a + b) == NonIdle(a) + NonIdle(b)
    decreases |a|
  {
    hide IsFiller;
    if a == [] {
      assert a + b == b;
    } else {
      assert (a + b)[1..] == a[1..] + b;
      NonIdleSplit(a[1..], b);
    }
  }

  lemma {:induction false} OnChannelSplit(a: seq<Packet>, b: seq<Packet>, v: nat)
    ensures OnChannel(a + b, v) == OnChannel(a, v) + OnChannel(b, v)
    decreases |a|
  {
    if a == [] {
      assert a + b == b;
    } else {
      assert (a + b)[1..] == a[1..] + b;
      OnChannelSplit(a[1..], b, v);
    }
  }

  lemma {:induction false} OnChannelOfEmitted(vcid: nat, spacecraftId: bv16, packets: seq<Octets>, v: nat)
    ensures OnChannel(Emitted(vcid, spacecraftId, packets), v) == if vcid == v then NonIdle(packets) else []
    decreases |packets|
  {
    hide SpacePackets.IsIdle;
    if packets != [] {
      var p := packets[0];
      var more := Emitted(vcid, spacecraftId, packets[1..]);
      OnChannelOfEmitted(vcid, spacecraftId, packets[1..], v);
      if !IsFiller(p) {
        assert ([Packet(vcid, spacecraftId, p)] + more)[1..] == more;
      } else {
        assert [] + more == more;
      }
    }
  }

  // A deframer with fresh channels.
  predicate FreshCore(c: Core) {
    c.vcs == FreshVcs() && c.lastMc == None
  }

  // One accepted frame, as channel `v` sees it.
  lemma AcceptOnChannel(cfg: Config, c: Core, f: TmFrame.Frame, v: nat)
    requires |c.vcs| == CHANNELS && f.header.vcid < CHANNELS && v < CHANNELS
    ensures var a := Accept(cfg, c, f);
            if Admitted(cfg, f) && f.header.vcid == v then
              var o := Receive(c.vcs[v], PartOf(f));
              a.0.vcs[v] == o.vc && OnChannel(a.1, v) == NonIdle(o.packets)
            else a.0.vcs[v] == c.vcs[v] && OnChannel(a.1, v) == []
  {
    hide Receive, Tally, NonIdle, Emitted;
    if Admitted(cfg, f) {
      OnChannelOfEmitted(f.header.vcid, f.header.spacecraftId, Receive(c.vcs[f.header.vcid], PartOf(f)).packets, v);
    }
  }

  /** Each channel's state and output are those of a run on its own frames. */
  lemma {:induction false} ChannelRunsAlone(cfg: Config, c: Core, frames: seq<TmFrame.Frame>, v: nat)
    requires FreshCore(c) && ValidFrames(frames) && v < CHANNELS
    ensures var t, run := TakeIn(cfg, c, frames), Run(PartsOn(cfg, frames, v));
            t.0.vcs[v] == run.vc && OnChannel(t.1, v) == NonIdle(run.packets)
    decreases |frames|
  {
    hide Receive, NonIdle, Accept, Admitted;
    if frames == [] {
      NonIdleOfNone();
    } else {
      var n := |frames| - 1;
      var f := frames[n];
      var t := TakeIn(cfg, c, frames[..n]);
      ChannelRunsAlone(cfg, c, frames[..n], v);
      AcceptOnChannel(cfg, t.0, f, v);
      OnChannelSplit(t.1, Accept(cfg, t.0, f).1, v);
      var before := PartsOn(cfg, frames[..n], v);
      if Admitted(cfg, f) && f.header.vcid == v {
        RunOneMore(before, PartOf(f));
        NonIdleSplit(Run(before).packets, Receive(Run(before).vc, PartOf(f)).packets);
      } else {
        assert before + [] == before;
      }
    }
  }

  lemma NonIdleOfNone()
    ensures NonIdle([]) == []
  {
  }

  lemma RunOneMore(parts: seq<Part>, part: Part)
    ensures var o, r := Run(parts), Receive(Run(parts).vc, part);
            Run(parts + [part]) ==
            Outcome(r.vc, o.packets + r.packets, o.gaps + r.gaps, o.idleFrames + r.idleFrames, o.dropped + r.dropped)
  {
    hide Receive;
    assert (parts + [part])[..|parts + [part]| - 1] == parts;
  }

  // ---------------------------------------------------------------------------------------
  // Counters
  // ---------------------------------------------------------------------------------------

  /** Counter gaps on the channels below `v`, added up. */
  function GapsBelow(cfg: Config, frames: seq<TmFrame.Frame>, v: nat): nat {
    if v == 0 then 0 else GapsBelow(cfg, frames, v - 1) + Run(PartsOn(cfg, frames, v - 1)).gaps
  }

  /** Partial packets abandoned on the channels below `v`, added up. */
  function DroppedBelow(cfg: Config, frames: seq<TmFrame.Frame>, v: nat): nat {
    if v == 0 then 0 else DroppedBelow(cfg, frames, v - 1) + Run(PartsOn(cfg, frames, v - 1)).dropped
  }

  /** Idle packets cut out on the channels below `v`, added up. */
  function FillersBelow(cfg: Config, frames: seq<TmFrame.Frame>, v: nat): int {
    if v == 0 then 0
    else
      var packets := Run(PartsOn(cfg, frames, v - 1)).packets;
      FillersBelow(cfg, frames, v - 1) + |packets| - |NonIdle(packets)|
  }

  lemma {:induction false} FillersAreTheRest(packets: seq<Octets>)
    ensures IdleCount(packets) == |packets| - |NonIdle(packets)|
  {
    hide SpacePackets.IsIdle;
    if packets != [] {
      FillersAreTheRest(packets[1..]);
    }
  }

  lemma PartsOneMore(cfg: Config, frames: seq<TmFrame.Frame>, f: TmFrame.Frame, v: nat)
    ensures PartsOn(cfg, frames + [f], v)
         == if Admitted(cfg, f) && f.header.vcid == v then PartsOn(cfg, frames, v) + [PartOf(f)]
            else PartsOn(cfg, frames, v)
  {
    hide Admitted;
    assert (frames + [f])[..|frames + [f]| - 1] == frames;
    assert PartsOn(cfg, frames, v) + [] == PartsOn(cfg, frames, v);
  }

  // What one more frame adds to the sums.
  lemma {:induction false} SumsGrow(cfg: Config, frames: seq<TmFrame.Frame>, f: TmFrame.Frame, v: nat)
    ensures var o := Receive(Run(PartsOn(cfg, frames, f.header.vcid)).vc, PartOf(f));
            var counts := Admitted(cfg, f) && f.header.vcid < v;
            && FillersBelow(cfg, frames + [f], v)
               == FillersBelow(cfg, frames, v) + (if counts then |o.packets| - |NonIdle(o.packets)| else 0)
            && GapsBelow(cfg, frames + [f], v) == GapsBelow(cfg, frames, v) + (if counts then o.gaps else 0)
            && DroppedBelow(cfg, frames + [f], v) == DroppedBelow(cfg, frames, v) + (if counts then o.dropped else 0)
    decreases v
  {
    hide Receive, Run, Admitted, NonIdle, PartsOn;
    if v > 0 {
      var u := v - 1;
      SumsGrow(cfg, frames, f, u);
      PartsOneMore(cfg, frames, f, u);
      var before := PartsOn(cfg, frames, u);
      if Admitted(cfg, f) && f.header.vcid == u {
        RunOneMore(before, PartOf(f));
        NonIdleSplit(Run(before).packets, Receive(Run(before).vc, PartOf(f)).packets);
      }
    }
  }

  lemma {:induction false} SumsOfNone(cfg: Config, v: nat)
    ensures GapsBelow(cfg, [], v) == 0 && DroppedBelow(cfg, [], v) == 0 && FillersBelow(cfg, [], v) == 0
    decreases v
  {
    if v > 0 {
      SumsOfNone(cfg, v - 1);
    }
  }

  /** The counters of losses and of idle packets are the sums of the channels' own. */
  lemma {:induction false} LossesAddUp(cfg: Config, c: Core, frames: seq<TmFrame.Frame>)
    requires FreshCore(c) && ValidFrames(frames)
    ensures var s, t := c.stats, TakeIn(cfg, c, frames).0.stats;
            && t.vcFrameGaps == s.vcFrameGaps + GapsBelow(cfg, frames, CHANNELS)
            && t.packetsDropped == s.packetsDropped + DroppedBelow(cfg, frames, CHANNELS)
            && t.packetsIdle == s.packetsIdle + FillersBelow(cfg, frames, CHANNELS)
    decreases |frames|
  {
    hide Receive, Accept, Admitted, GapsBelow, DroppedBelow, FillersBelow, NonIdle;
    if frames == [] {
      SumsOfNone(cfg, CHANNELS);
    } else {
      var n := |frames| - 1;
      var f, t := frames[n], TakeIn(cfg, c, frames[..n]);
      LossesAddUp(cfg, c, frames[..n]);
      ChannelRunsAlone(cfg, c, frames[..n], f.header.vcid);
      AcceptCounts(cfg, t.0, f);
      SumsGrow(cfg, frames[..n], f, CHANNELS);
      assert frames == frames[..n] + [f];
    }
  }

  lemma AcceptCounts(cfg: Config, c: Core, f: TmFrame.Frame)
    requires |c.vcs| == CHANNELS && f.header.vcid < CHANNELS
    ensures var s, t, o := c.stats, Accept(cfg, c, f).0.stats, Receive(c.vcs[f.header.vcid], PartOf(f));
            && t.vcFrameGaps == s.vcFrameGaps + (if Admitted(cfg, f) then o.gaps else 0)
            && t.packetsDropped == s.packetsDropped + (if Admitted(cfg, f) then o.dropped else 0)
            && t.packetsIdle == s.packetsIdle + (if Admitted(cfg, f) then |o.packets| - |NonIdle(o.packets)| else 0)
  {
    hide Receive, Emitted, IdleCount, NonIdle;
    FillersAreTheRest(Receive(c.vcs[f.header.vcid], PartOf(f)).packets);
  }

  // ---------------------------------------------------------------------------------------
  // No mixing, for the deframer
  // ---------------------------------------------------------------------------------------

  lemma {:induction false} NonIdleSpans(
      g: Octets, spans: seq<Span>, packets: seq<Octets>, lo: int, hi: int) returns (kept: seq<Span>)
    requires Located(g, spans, packets, lo, hi)
    ensures Located(g, kept, NonIdle(packets), lo, hi)
    ensures forall s :: s in kept ==> s in spans
    decreases |packets|
  {
    hide IsFiller;
    if packets == [] {
      kept := [];
    } else {
      var s := spans[0];
      FirstSpan(g, spans, packets, lo, hi);
      var rest := NonIdleSpans(g, spans[1..], packets[1..], s.hi, hi);
      if IsFiller(packets[0]) {
        LocatedWiden(g, rest, NonIdle(packets[1..]), s.hi, hi, lo, hi);
        kept := rest;
      } else {
        LocatedJoin(g, [s], [packets[0]], rest, NonIdle(packets[1..]), lo, s.hi, s.hi, hi);
        kept := [s] + rest;
      }
    }
  }

  lemma FirstSpan(g: Octets, spans: seq<Span>, packets: seq<Octets>, lo: int, hi: int)
    requires Located(g, spans, packets, lo, hi) && packets != []
    ensures Located(g, [spans[0]], [packets[0]], lo, spans[0].hi)
    ensures Located(g, spans[1..], packets[1..], spans[0].hi, hi)
  {
    forall j | 0 <= j < |spans[1..]|
      ensures spans[0].hi <= spans[1..][j].lo && g[spans[1..][j].lo..spans[1..][j].hi] == packets[1..][j]
    {
      assert spans[1..][j] == spans[j + 1];
    }
  }

  /**
   No mixing: in any run of datagrams from a fresh deframer, the packets emitted on a channel are
   disjoint stretches, in order, of the octets that channel received, and none of them reaches
   across a counter gap, a first header pointer or an inconsistent frame.
   */
  lemma EmittedAreStretches(cfg: Config, st: State, datagrams: seq<Octets>, v: nat) returns (spans: seq<Span>)
    requires ValidConfig(cfg) && IsFresh(st) && v < CHANNELS
    ensures var parts := PartsOn(cfg, FramesIn(cfg, datagrams), v);
            var g := Received(parts);
            && Located(g, spans, OnChannel(PushAll(cfg, st, datagrams).1, v), 0, |g|)
            && forall x: nat :: Barrier(parts, x) ==> Clear(spans, x)
  {
    hide Located, PushAll, FramesIn, TakeIn, Run, Barrier, Received, NonIdle, ValidFrames, IsSuffix;
    var frames := FramesIn(cfg, datagrams);
    var parts := PartsOn(cfg, frames, v);
    var g := Received(parts);
    PushAllTakesIn(cfg, st, datagrams);
    ChannelRunsAlone(cfg, Plain(st.core), frames, v);
    var all := PacketsAreStretches(parts);
    LocatedEnd(g, all, Run(parts).packets, 0, |g| - |Run(parts).vc.pending|);
    spans := NonIdleSpans(g, all, Run(parts).packets, 0, |g|);
    forall x: nat | Barrier(parts, x) ensures Clear(spans, x) {
      KeptClear(all, spans, x);
    }
  }

  lemma KeptClear(all: seq<Span>, kept: seq<Span>, x: nat)
    requires Clear(all, x) && forall s :: s in kept ==> s in all
    ensures Clear(kept, x)
  {
    forall j | 0 <= j < |kept| ensures !(kept[j].lo < x < kept[j].hi) {
      assert kept[j] in all;
    }
  }
}
