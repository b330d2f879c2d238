/**
 The deframer as the gateway runs it: objects updated in place, loops over buffers, counters bumped
 one by one.  Each method is proved to do what the function of the same step in `Deframing` and
 `Reassembly` says, so everything proved about those holds of the running deframer.
 */
module DeframerObjects {
  import opened Deframing
  import opened Octets
  import Randomizer
  import Reassembly
  import SpacePackets
  import TmFrame

  /** `FramingStats` */
  class FramingStats {
    var datagrams: nat
    var framesOk: nat
    var framesCrcError: nat
    var framesInvalid: nat
    var framesOtherSpacecraft: nat
    var framesVcFiltered: nat
    var framesIdle: nat
    var vcFrameGaps: nat
    var mcFrameGaps: nat
    var packetsExtracted: nat
    var packetsIdle: nat
    var packetsDropped: nat
    var bytesDiscarded: nat

    /** `FramingStats::snapshot` */
    function Snapshot(): Stats
      reads this
    {
      Stats(datagrams, framesOk, framesCrcError, framesInvalid, framesOtherSpacecraft, framesVcFiltered, framesIdle,
            vcFrameGaps, mcFrameGaps, packetsExtracted, packetsIdle, packetsDropped, bytesDiscarded)
    }

    constructor ()
      ensures Snapshot() == NO_STATS
    {
      datagrams, framesOk, framesCrcError, framesInvalid := 0, 0, 0, 0;
      framesOtherSpacecraft, framesVcFiltered, framesIdle, vcFrameGaps, mcFrameGaps := 0, 0, 0, 0, 0;
      packetsExtracted, packetsIdle, packetsDropped, bytesDiscarded := 0, 0, 0, 0;
    }
  }

  /** Reassembly state of one virtual channel. */
  class VcState {
    var pending: Octets
    var inSync: bool
    var lastCount: Option<bv8>

    function Value(): Reassembly.Vc
      reads this
    {
      Reassembly.Vc(pending, inSync, lastCount)
    }

    constructor ()
      ensures Value() == Reassembly.FRESH
    {
      pending, inSync, lastCount := [], false, None;
    }

    /** Back to the state of a channel never heard of. */
    method Clear()
      modifies this
      ensures Value() == Reassembly.FRESH
    {
      pending, inSync, lastCount := [], false, None;
    }

    /** `lose_sync` */
    method LoseSync(stats: FramingStats)
      modifies this, stats
      ensures Value() == Reassembly.LoseSync(old(Value()))
      ensures stats.Snapshot() == Dropped(old(stats.Snapshot()), Reassembly.Partial(old(Value())))
    {
      if pending != [] {
        stats.packetsDropped := stats.packetsDropped + 1;
      }
      pending := [];
      inSync := false;
    }
  }

  function Dropped(s: Stats, n: nat): Stats {
    s.(packetsDropped := s.packetsDropped + n)
  }

  function Gapped(s: Stats): Stats {
    s.(vcFrameGaps := s.vcFrameGaps + 1)
  }

  // The counters after `packets` have come off a buffer.
  function CameOff(s: Stats, packets: seq<Octets>): Stats {
    s.(packetsExtracted := s.packetsExtracted + |Emitted(0, 0, packets)|,
       packetsIdle := s.packetsIdle + IdleCount(packets))
  }

  lemma {:induction false} EmittedSplit(vcid: nat, spacecraftId: bv16, a: seq<Octets>, b: seq<Octets>)
    ensures Emitted(vcid, spacecraftId, a + b) == Emitted(vcid, spacecraftId, a) + Emitted(vcid, spacecraftId, b)
    decreases |a|
  {
    hide SpacePackets.IsIdle;
    if a == [] {
      assert a + b == b;
    } else {
      assert (a + b)[1..] == a[1..] + b;
      EmittedSplit(vcid, spacecraftId, a[1..], b);
    }
  }

  lemma {:induction false} IdleCountSplit(a: seq<Octets>, b: seq<Octets>)
    ensures IdleCount(a + b) == IdleCount(a) + IdleCount(b)
    decreases |a|
  {
    hide SpacePackets.IsIdle;
    if a == [] {
      assert a + b == b;
    } else {
      assert (a + b)[1..] == a[1..] + b;
      IdleCountSplit(a[1..], b);
    }
  }

  lemma EmittedOne(vcid: nat, spacecraftId: bv16, p: Octets)
    requires |p| >= SpacePackets.PACKET_HEADER_LEN
    ensures Emitted(vcid, spacecraftId, [p]) == if SpacePackets.IsIdle(p) then [] else [Packet(vcid, spacecraftId, p)]
    ensures IdleCount([p]) == if SpacePackets.IsIdle(p) then 1 else 0
  {
    hide SpacePackets.IsIdle;
    assert [p][1..] == [];
  }

  // One packet more has come off.
  lemma CameOffOneMore(s: Stats, packets: seq<Octets>, p: Octets)
    requires |p| >= SpacePackets.PACKET_HEADER_LEN
    ensures var t := CameOff(s, packets);
            CameOff(s, packets + [p]) ==
            if SpacePackets.IsIdle(p) then t.(packetsIdle := t.packetsIdle + 1)
            else t.(packetsExtracted := t.packetsExtracted + 1)
  {
    hide SpacePackets.IsIdle;
    EmittedSplit(0, 0, packets, [p]);
    IdleCountSplit(packets, [p]);
    EmittedOne(0, 0, p);
  }

  /** `drain_packets`; the packets handed to `emit` are returned in order. */
  method DrainPackets(vc: VcState, stats: FramingStats, vcid: nat, spacecraftId: bv16) returns (out: seq<Packet>)
    modifies vc, stats
    ensures var c := Reassembly.Cut(old(vc.pending));
            && vc.Value() == Reassembly.Vc(c.rest, old(vc.inSync) && !c.lost, old(vc.lastCount))
            && out == Emitted(vcid, spacecraftId, c.packets)
            && stats.Snapshot() == Dropped(CameOff(old(stats.Snapshot()), c.packets), if c.lost then 1 else 0)
  {
    hide SpacePackets.HasVersion0, SpacePackets.DeclaredLength, SpacePackets.IsIdle, Emitted, CameOff, Reassembly.Cut;
    out := [];
    ghost var done: seq<Octets> := [];
    ghost var c, s := Reassembly.Cut(vc.pending), stats.Snapshot();
    NoneCameOff(s, vcid, spacecraftId);
    while |vc.pending| >= SpacePackets.PACKET_HEADER_LEN
      invariant var r := Reassembly.Cut(vc.pending); c == Reassembly.Cutting(done + r.packets, r.rest, r.lost)
      invariant vc.inSync == old(vc.inSync) && vc.lastCount == old(vc.lastCount)
      invariant out == Emitted(vcid, spacecraftId, done) && stats.Snapshot() == CameOff(s, done)
      decreases |vc.pending|
    {
      CutCases(vc.pending);
      if !SpacePackets.HasVersion0(vc.pending) {
        vc.LoseSync(stats);
        assert c.packets == done + [] == done;
        return;
      }
      var len := SpacePackets.DeclaredLength(vc.pending);
      if |vc.pending| < len {
        assert c.packets == done + [] == done;
        return;
      }
      var p := vc.pending[..len];
      FrontHeader(vc.pending, p);
      CameOffOneMore(s, done, p);
      EmittedSplit(vcid, spacecraftId, done, [p]);
      EmittedOne(vcid, spacecraftId, p);
      if SpacePackets.IsIdle(vc.pending) {
        stats.packetsIdle := stats.packetsIdle + 1;
      } else {
        stats.packetsExtracted := stats.packetsExtracted + 1;
        out := out + [Packet(vcid, spacecraftId, p)];
      }
      vc.pending := vc.pending[len..];
      ghost var r := Reassembly.Cut(vc.pending);
      assert done + ([p] + r.packets) == done + [p] + r.packets;
      done := done + [p];
    }
    CutShort(vc.pending);
    assert c.packets == done + [] == done;
  }

  // The three ways `accept` ends.
  lemma AcceptCases(cfg: Config, c: Core, f: TmFrame.Frame)
    requires |c.vcs| == CHANNELS && f.header.vcid < CHANNELS
    ensures var h := f.header;
            var s := c.stats.(mcFrameGaps := c.stats.mcFrameGaps + if IsMcGap(c, h) then 1 else 0);
            var o := Reassembly.Receive(c.vcs[h.vcid], PartOf(f));
            Deframing.Accept(cfg, c, f) ==
              if IsOtherSpacecraft(cfg, h) then
                (c.(stats := c.stats.(framesOtherSpacecraft := c.stats.framesOtherSpacecraft + 1)), [])
              else if IsFiltered(cfg, h) then (Core(c.vcs, Some(h.mcCount),
                  s.(framesVcFiltered := s.framesVcFiltered + 1)), [])
              else (Core(c.vcs[h.vcid := o.vc], Some(h.mcCount), Tally(s.(framesOk := s.framesOk + 1), o)),
                    Emitted(h.vcid, h.spacecraftId, o.packets))
  {
    hide Reassembly.Receive, Tally, Emitted, Next;
  }

  lemma NoneCameOff(s: Stats, vcid: nat, spacecraftId: bv16)
    ensures CameOff(s, []) == s && Emitted(vcid, spacecraftId, []) == []
    ensures forall packets: seq<Octets> :: [] + packets == packets
  {
  }

  lemma FrontHeader(p: Octets, q: Octets)
    requires |p| >= SpacePackets.PACKET_HEADER_LEN && |p| >= SpacePackets.DeclaredLength(p) && q
        == p[..SpacePackets.DeclaredLength(p)]
    ensures |q| > SpacePackets.PACKET_HEADER_LEN && (SpacePackets.IsIdle(q) <==> SpacePackets.IsIdle(p))
  {
    hide SpacePackets.IsIdle, SpacePackets.HasVersion0;
    assert q[..SpacePackets.PACKET_HEADER_LEN] == p[..SpacePackets.PACKET_HEADER_LEN];
    SpacePackets.SameHeader(p, q);
  }

  lemma CutCases(p: Octets)
    requires |p| >= SpacePackets.PACKET_HEADER_LEN
    ensures !SpacePackets.HasVersion0(p) ==> Reassembly.Cut(p) == Reassembly.Cutting([], [], true)
    ensures SpacePackets.HasVersion0(p) && |p| < SpacePackets.DeclaredLength(p) ==>
        Reassembly.Cut(p) == Reassembly.Cutting([], p, false)
    ensures SpacePackets.HasVersion0(p) && |p| >= SpacePackets.DeclaredLength(p) ==>
              var n := SpacePackets.DeclaredLength(p);
              var r := Reassembly.Cut(p[n..]);
              Reassembly.Cut(p) == Reassembly.Cutting([p[..n]] + r.packets, r.rest, r.lost)
  {
    hide SpacePackets.HasVersion0;
  }

  lemma CutShort(p: Octets)
    requires |p| < SpacePackets.PACKET_HEADER_LEN
    ensures Reassembly.Cut(p) == Reassembly.Cutting([], p, false)
  {
  }

  // ---------------------------------------------------------------------------------------
  // One frame on its channel
  // ---------------------------------------------------------------------------------------

  // Appends `data` to the channel's buffer and drains it.
  method AppendAndDrain(
      vc: VcState, stats: FramingStats, vcid: nat, spacecraftId: bv16, data: Octets) returns (out: seq<Packet>)
    requires vc.inSync
    modifies vc, stats
    ensures var o := Reassembly.Drain(old(vc.Value()), data);
            && vc.Value() == o.vc && out == Emitted(vcid, spacecraftId, o.packets)
            && stats.Snapshot() == Dropped(CameOff(old(stats.Snapshot()), o.packets), o.dropped)
  {
    hide Reassembly.Cut, Emitted, CameOff;
    vc.pending := vc.pending + data;
    out := DrainPackets(vc, stats, vcid, spacecraftId);
    EmptyRest(old(vc.pending) + data);
  }

  lemma EmptyRest(p: Octets)
    ensures Reassembly.Cut(p).lost ==> Reassembly.Cut(p).rest == []
  {
    hide Reassembly.Cut;
    Reassembly.CutPartitions(p);
  }

  /** The part of `accept` that looks at the channel's frame counter. */
  method CheckCount(vc: VcState, stats: FramingStats, part: Reassembly.Part)
    modifies vc, stats
    ensures vc.Value() == Reassembly.Counted(old(vc.Value()), part)
    ensures !Reassembly.IsGap(old(vc.Value()), part) ==> stats.Snapshot() == old(stats.Snapshot())
    ensures Reassembly.IsGap(old(vc.Value()), part) ==>
              stats.Snapshot() == Dropped(Gapped(old(stats.Snapshot())), Reassembly.Partial(old(vc.Value())))
  {
    var jumped := vc.lastCount.Some? && part.count != Next(vc.lastCount.value);
    hide Next;
    if jumped {
      stats.vcFrameGaps := stats.vcFrameGaps + 1;
      vc.LoseSync(stats);
    }
    vc.lastCount := Some(part.count);
  }

  /** The part of `accept` that follows the first header pointer. */
  method FollowPointer(
      vc: VcState, stats: FramingStats, vcid: nat, spacecraftId: bv16, part: Reassembly.Part) returns (out: seq<Packet>)
    requires !vc.inSync ==> vc.pending == []
    modifies vc, stats
    ensures var o := Reassembly.Extract(old(vc.Value()), part);
            && vc.Value() == o.vc && out == Emitted(vcid, spacecraftId, o.packets)
            && stats.Snapshot() == Tally(old(stats.Snapshot()), o)
  {
    hide Reassembly.Drain, Emitted, IdleCount;
    var fhp, data := part.pointer, part.data;
    NoneEmitted(vcid, spacecraftId);
    NoneEmitted(0, 0);
    out := [];
    if fhp == TmFrame.FHP_IDLE {
      stats.framesIdle := stats.framesIdle + 1;
      return;
    }
    if fhp != TmFrame.FHP_NO_PACKET_START && fhp >= |data| {
      vc.LoseSync(stats);
      return;
    }
    if fhp == TmFrame.FHP_NO_PACKET_START {
      if vc.inSync {
        out := AppendAndDrain(vc, stats, vcid, spacecraftId, data);
        DrainOnlyDrops(old(vc.Value()), data);
      }
      return;
    }
    ghost var before := Reassembly.Nothing(vc.Value());
    if vc.inSync {
      before := Reassembly.Drain(vc.Value(), data[..fhp]);
      out := AppendAndDrain(vc, stats, vcid, spacecraftId, data[..fhp]);
      if vc.pending != [] {
        vc.LoseSync(stats);
      }
    }
    vc.pending := [];
    vc.inSync := true;
    ghost var after := Reassembly.Drain(Reassembly.Vc([], true, old(vc.lastCount)), data[fhp..]);
    DrainKeepsCount(old(vc.Value()), data[..fhp]);
    var more := AppendAndDrain(vc, stats, vcid, spacecraftId, data[fhp..]);
    out := out + more;
    EmittedSplit(vcid, spacecraftId, before.packets, after.packets);
    EmittedSplit(0, 0, before.packets, after.packets);
    IdleCountSplit(before.packets, after.packets);
  }

  lemma NoneEmitted(vcid: nat, spacecraftId: bv16)
    ensures Emitted(vcid, spacecraftId, []) == [] && IdleCount([]) == 0
  {
  }

  lemma DrainKeepsCount(vc: Reassembly.Vc, data: Octets)
    ensures Reassembly.Drain(vc, data).vc.lastCount == vc.lastCount
  {
    hide Reassembly.Cut;
  }

  lemma DrainOnlyDrops(vc: Reassembly.Vc, data: Octets)
    ensures Reassembly.Drain(vc, data).gaps == 0 && Reassembly.Drain(vc, data).idleFrames == 0
  {
    hide Reassembly.Cut;
  }

  // ---------------------------------------------------------------------------------------
  // The deframer
  // ---------------------------------------------------------------------------------------

  method FreshChannels() returns (vcs: seq<VcState>)
    ensures |vcs| == CHANNELS && fresh(vcs)
    ensures forall i, j :: 0 <= i < j < CHANNELS ==> vcs[i] != vcs[j]
    ensures forall v :: 0 <= v < CHANNELS ==> vcs[v].Value() == Reassembly.FRESH
  {
    vcs := [];
    for n := 0 to CHANNELS
      invariant |vcs| == n && fresh(vcs)
      invariant forall i, j :: 0 <= i < j < n ==> vcs[i] != vcs[j]
      invariant forall v :: 0 <= v < n ==> vcs[v].Value() == Reassembly.FRESH
    {
      var vc := new VcState();
      vcs := vcs + [vc];
    }
  }

  class TmDeframer {
    const cfg: Config
    const stats: FramingStats
    const vcs: seq<VcState>
    const pn: array<bv8>
    var stream: Octets
    var lastMc: Option<bv8>

    ghost predicate Valid()
      reads this, vcs, stats, pn
    {
      && |vcs| == CHANNELS
      && (forall i, j :: 0 <= i < j < CHANNELS ==> vcs[i] != vcs[j])
      && pn.Length == 255 && (forall i :: 0 <= i < 255 ==> pn[i] == Randomizer.PnOctet(i))
      && (forall v :: 0 <= v < CHANNELS ==> !vcs[v].inSync ==> vcs[v].pending == [])
    }

    /** The deframer's state as a value. */
    ghost function CoreValue(): Core
      requires |vcs| == CHANNELS
      reads this, vcs, stats
    {
      Core(seq(CHANNELS, v requires 0 <= v < CHANNELS reads this, vcs => vcs[v].Value()), lastMc, stats.Snapshot())
    }

    ghost function StateValue(): State
      requires |vcs| == CHANNELS
      reads this, vcs, stats
    {
      State(CoreValue(), stream)
    }

    /** `TmDeframer::new` */
    constructor (cfg: Config, stats: FramingStats)
      ensures Valid() && fresh(vcs) && fresh(pn) && this.cfg == cfg && this.stats == stats
      ensures StateValue() == State(Core(FreshVcs(), None, stats.Snapshot()), [])
    {
      var channels := FreshChannels();
      var table := Randomizer.BuildPnSequence();
      this.cfg := cfg;
      this.stats := stats;
      vcs := channels;
      pn := table;
      stream := [];
      lastMc := None;
      new;
      hide Randomizer.PnOctet;
      assert CoreValue().vcs == FreshVcs();
    }

    /** `reset` */
    method Reset()
      requires Valid()
      modifies this, vcs
      ensures Valid() && StateValue() == Deframing.Reset(old(StateValue()))
    {
      stream := [];
      for v := 0 to CHANNELS
        invariant Valid() && stream == [] && lastMc == old(lastMc)
        invariant forall u :: 0 <= u < v ==> vcs[u].Value() == Reassembly.FRESH
      {
        vcs[v].Clear();
      }
      lastMc := None;
    }

    /** `accept` */
    method Accept(f: TmFrame.Frame) returns (out: seq<Packet>)
      requires Valid() && f.header.vcid < CHANNELS
      modifies this`lastMc, vcs, stats
      ensures Valid() && (CoreValue(), out) == Deframing.Accept(cfg, old(CoreValue()), f)
    {
      hide Reassembly.Extract, Reassembly.Receive, Emitted, Tally, Next, Deframing.Accept;
      ghost var was := CoreValue();
      AcceptCases(cfg, was, f);
      var h := f.header;
      out := [];
      if cfg.spacecraftId.Some? && cfg.spacecraftId.value != h.spacecraftId {
        stats.framesOtherSpacecraft := stats.framesOtherSpacecraft + 1;
        assert CoreValue().vcs == was.vcs;
        return;
      }
      if lastMc.Some? && h.mcCount != Next(lastMc.value) {
        stats.mcFrameGaps := stats.mcFrameGaps + 1;
      }
      lastMc := Some(h.mcCount);
      if cfg.virtualChannels.Some? && h.vcid !in cfg.virtualChannels.value {
        stats.framesVcFiltered := stats.framesVcFiltered + 1;
        assert CoreValue().vcs == was.vcs;
        return;
      }
      assert CoreValue().vcs == was.vcs;
      out := AcceptOn(h.vcid, h.spacecraftId, PartOf(f));
    }

    // The channel's part of `accept`.
    method AcceptOn(v: nat, spacecraftId: bv16, part: Reassembly.Part) returns (out: seq<Packet>)
      requires Valid() && v < CHANNELS
      modifies vcs, stats
      ensures Valid()
      ensures var c := old(CoreValue());
              var o := Reassembly.Receive(c.vcs[v], part);
              && CoreValue() == Core(c.vcs[v := o.vc], c.lastMc, Tally(c.stats.(framesOk := c.stats.framesOk + 1), o))
              && out == Emitted(v, spacecraftId, o.packets)
    {
      hide Reassembly.Receive, Emitted, Tally;
      ghost var was := CoreValue();
      stats.framesOk := stats.framesOk + 1;
      out := ReceiveOn(vcs[v], stats, v, spacecraftId, part);
      assert CoreValue().vcs == was.vcs[v := Reassembly.Receive(was.vcs[v], part).vc];
    }

    /** `handle_frame` */
    method HandleFrame(raw: Octets) returns (ok: bool, out: seq<Packet>)
      requires Valid()
      modifies this`lastMc, vcs, stats
      ensures Valid() && Handled(CoreValue(), ok, out) == Deframing.HandleFrame(cfg, old(CoreValue()), raw)
    {
      hide TmFrame.ParseFrame, Deframing.Accept, Randomizer.PnOctet, Randomizer.Randomize, Reassembly.FRESH;
      ghost var was := CoreValue();
      ok, out := false, [];
      if |raw| < TmFrame.FRAME_MIN_LEN || |raw| > TmFrame.FRAME_MAX_LEN
         || (cfg.frameLength.Some? && cfg.frameLength.value != |raw|)
      {
        stats.framesInvalid := stats.framesInvalid + 1;
        assert CoreValue().vcs == was.vcs;
        return;
      }
      var scratch := new bv8[|raw|](i requires 0 <= i < |raw| => raw[i]);
      assert scratch[..] == raw;
      if cfg.derandomize {
        Randomizer.CcsdsRandomize(scratch, pn);
      }
      assert CoreValue() == was;
      match TmFrame.ParseFrame(scratch[..], cfg.fecf)
      case Ok(f) =>
        out := Accept(f);
        ok := true;
      case Err(e) =>
        if e.FecfMismatch? {
          stats.framesCrcError := stats.framesCrcError + 1;
        } else {
          stats.framesInvalid := stats.framesInvalid + 1;
        }
        assert CoreValue().vcs == was.vcs;
    }

    /** `push_stream` */
    method PushStream(datagram: Octets) returns (out: seq<Packet>)
      requires Valid()
      modifies this, vcs, stats
      ensures Valid()
      ensures match cfg.frameLength
              case None => StateValue() == State(Invalid(old(CoreValue())), old(stream)) && out == []
              case Some(len) =>
                Scanned(CoreValue(), stream, out) == Scan(cfg, len, old(CoreValue()), old(stream) + datagram)
    {
      hide Deframing.HandleFrame, Decode, FindAsm, Scan;
      ghost var was := CoreValue();
      out := [];
      if cfg.frameLength.None? {
        stats.framesInvalid := stats.framesInvalid + 1;
        assert CoreValue().vcs == was.vcs;
        return;
      }
      var len := cfg.frameLength.value;
      stream := stream + datagram;
      var s := stream;
      stream := [];
      var pos, waiting := 0, false;
      assert s[0..] == s && CoreValue() == was;
      ghost var all := Scan(cfg, len, was, s);
      assert [] + all.packets == all.packets;
      while !waiting
        invariant Valid() && pos <= |s|
        invariant !waiting ==>
                    var r := Scan(cfg, len, CoreValue(), s[pos..]);
                    all == Scanned(r.core, r.rest, out + r.packets)
        invariant waiting ==> all == Scanned(CoreValue(), s[pos..], out)
        decreases !waiting, |s| - pos
      {
        ghost var c, t, from := CoreValue(), s[pos..], pos;
        var more: seq<Packet>;
        pos, waiting, more := SearchOnce(len, s, pos);
        if waiting {
          assert out + more == out;
        } else {
          ghost var r := Scan(cfg, len, CoreValue(), s[pos..]);
          assert out + (more + r.packets) == out + more + r.packets;
        }
        out := out + more;
      }
      stream := s[pos..];
    }

    method DiscardOctets(n: nat)
      requires Valid()
      modifies stats
      ensures Valid() && CoreValue() == Discard(old(CoreValue()), n)
    {
      ghost var was := CoreValue();
      stats.bytesDiscarded := stats.bytesDiscarded + n;
      assert CoreValue().vcs == was.vcs;
    }

    // One turn of the search loop, from `from` on.
    method SearchOnce(len: nat, s: Octets, from: nat) returns (pos: nat, waiting: bool, out: seq<Packet>)
      requires Valid() && from <= |s|
      modifies this`lastMc, vcs, stats
      ensures Valid() && from <= pos <= |s| && (!waiting ==> from < pos)
      ensures waiting ==> out == [] && Scan(cfg, len, old(CoreValue()), s[from..]) == Scanned(CoreValue(), s[pos..], [])
      ensures !waiting ==> var r := Scan(cfg, len, CoreValue(), s[pos..]);
                           Scan(cfg, len, old(CoreValue()), s[from..]) == Scanned(r.core, r.rest, out + r.packets)
    {
      hide Deframing.HandleFrame, Decode, FindAsm, Scan;
      ghost var c, t := CoreValue(), s[from..];
      ScanCases(cfg, len, c, t);
      out := [];
      var found := FindAsm(s[from..]);
      if found.None? {
        var keepFrom := if |s| >= ASM_LEN - 1 && |s| - (ASM_LEN - 1) > from then |s| - (ASM_LEN - 1) else from;
        DiscardOctets(keepFrom - from);
        assert s[keepFrom..] == t[keepFrom - from..];
        return keepFrom, true, [];
      }
      var rel := found.value;
      DiscardOctets(rel);
      var asmAt := from + rel;
      var frameStart := asmAt + ASM_LEN;
      if |s| < frameStart + len {
        assert s[asmAt..] == t[rel..];
        return asmAt, true, [];
      }
      assert s[frameStart..frameStart + len] == t[rel + ASM_LEN..rel + ASM_LEN + len];
      var ok: bool;
      ok, out := HandleFrame(s[frameStart..frameStart + len]);
      pos := if ok then frameStart + len else asmAt + 1;
      waiting := false;
      assert s[pos..] == t[pos - from..];
    }

    /** `push` */
    method Push(datagram: Octets) returns (out: seq<Packet>)
      requires Valid()
      modifies this, vcs, stats
      ensures Valid() && (StateValue(), out) == Deframing.Push(cfg, old(StateValue()), datagram)
    {
      hide Deframing.HandleFrame, Decode, Scan, HandleAll;
      ghost var was := CoreValue();
      stats.datagrams := stats.datagrams + 1;
      assert CoreValue().vcs == was.vcs;
      ghost var bumped := CoreValue();
      if cfg.asm {
        out := PushStream(datagram);
        return;
      }
      var ok: bool;
      out := [];
      match cfg.frameLength
      case None =>
        ok, out := HandleFrame(datagram);
      case Some(len) =>
        if datagram != [] && len > 0 && |datagram| % len == 0 {
          out := HandleChunks(len, datagram);
        } else {
          stats.framesInvalid := stats.framesInvalid + 1;
          assert CoreValue().vcs == bumped.vcs;
        }
    }

    // `chunks_exact`, each handled as a frame.
    method HandleChunks(len: nat, datagram: Octets) returns (out: seq<Packet>)
      requires Valid() && len > 0
      modifies this`lastMc, vcs, stats
      ensures Valid() && (CoreValue(), out) == HandleAll(cfg, len, old(CoreValue()), datagram)
    {
      hide Deframing.HandleFrame, Decode;
      ghost var was := CoreValue();
      out := [];
      var at := 0;
      assert datagram[0..] == datagram;
      ghost var all := HandleAll(cfg, len, was, datagram);
      assert [] + all.1 == all.1;
      while at + len <= |datagram|
        invariant Valid() && at <= |datagram|
        invariant var r := HandleAll(cfg, len, CoreValue(), datagram[at..]);
                  HandleAll(cfg, len, was, datagram) == (r.0, out + r.1)
        decreases |datagram| - at
      {
        ghost var t := datagram[at..];
        assert t[..len] == datagram[at..at + len] && t[len..] == datagram[at + len..];
        var ok, more := HandleFrame(datagram[at..at + len]);
        ghost var r := HandleAll(cfg, len, CoreValue(), t[len..]);
        assert out + (more + r.1) == out + more + r.1;
        out := out + more;
        at := at + len;
      }
      assert out + [] == out;
    }
  }

  // The three things one turn of the search can do.
  lemma ScanCases(cfg: Config, len: nat, c: Core, s: Octets)
    requires |c.vcs| == CHANNELS
    ensures match FindAsm(s)
            case None =>
              var skipped := |s| - KeptWithoutMarker(s);
              Scan(cfg, len, c, s) == Scanned(Discard(c, skipped), s[skipped..], [])
            case Some(at) =>
              && at + ASM_LEN <= |s|
              && if |s| < at + ASM_LEN + len then Scan(cfg, len, c, s) == Scanned(Discard(c, at), s[at..], [])
                 else
                   var h := Deframing.HandleFrame(cfg, Discard(c, at), s[at + ASM_LEN..at + ASM_LEN + len]);
                   var r := Scan(cfg, len, h.core, s[if h.ok then at + ASM_LEN + len else at + 1..]);
                   Scan(cfg, len, c, s) == Scanned(r.core, r.rest, h.packets + r.packets)
  {
    hide Deframing.HandleFrame, Decode;
  }

  method ReceiveOn(
      vc: VcState, stats: FramingStats, vcid: nat, spacecraftId: bv16, part: Reassembly.Part) returns (out: seq<Packet>)
    requires !vc.inSync ==> vc.pending == []
    modifies vc, stats
    ensures !vc.inSync ==> vc.pending == []
    ensures var o := Reassembly.Receive(old(vc.Value()), part);
            && vc.Value() == o.vc && out == Emitted(vcid, spacecraftId, o.packets)
            && stats.Snapshot() == Tally(old(stats.Snapshot()), o)
  {
    hide Reassembly.Extract, Emitted, Tally, Next, Reassembly.IsGap;
    ghost var was, s := vc.Value(), stats.Snapshot();
    CheckCount(vc, stats, part);
    out := FollowPointer(vc, stats, vcid, spacecraftId, part);
    TallyWithGap(s, was, part);
    ExtractedEmptyUnlessSynced(Reassembly.Counted(was, part), part);
  }

  lemma ExtractedEmptyUnlessSynced(vc: Reassembly.Vc, part: Reassembly.Part)
    requires !vc.inSync ==> vc.pending == []
    ensures !Reassembly.Extract(vc, part).vc.inSync ==> Reassembly.Extract(vc, part).vc.pending == []
  {
    hide Reassembly.Cut;
  }

  lemma TallyWithGap(s: Stats, vc: Reassembly.Vc, part: Reassembly.Part)
    ensures var o := Reassembly.Extract(Reassembly.Counted(vc, part), part);
            Tally(s, Reassembly.Receive(vc, part)) ==
            Tally(if Reassembly.IsGap(vc, part) then Dropped(Gapped(s), Reassembly.Partial(vc)) else s, o)
  {
    hide Emitted, IdleCount, Reassembly.Drain, Reassembly.IsGap;
  }
}
