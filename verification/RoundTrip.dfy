/**
 Round trips.  When every frame a builder sent arrives, on whatever link, in whatever interleaving
 of the channels, every packet packed comes back and the deframer counts no loss.
 */
module RoundTrip {
  import opened Builder
  import opened Channels
  import opened Deframing
  import opened EndToEnd
  import opened LossLocality
  import opened MarkerSearch
  import opened Octets
  import opened PacketStream
  import opened VirtualChannels
  import FrameCounts
  import Reassembly
  import SpacePackets
  import TmFrame

  // ---------------------------------------------------------------------------------------
  // Nothing missing
  // ---------------------------------------------------------------------------------------

  /** Every frame of channel `v` arrived, in order. */
  predicate AllArrive(h: History, arrivals: seq<Arrival>, v: nat) {
    IndicesOn(arrivals, v) == Upto(|h.sent|)
  }

  lemma AllInOrder(h: History, arrivals: seq<Arrival>, v: nat)
    requires AllArrive(h, arrivals, v)
    ensures InChannelOrder(arrivals, v) && Breaks(IndicesOn(arrivals, v), |IndicesOn(arrivals, v)|) == 0
  {
    NoLossNoBreak(IndicesOn(arrivals, v), |h.sent|);
  }

  lemma {:induction false} AllBelowAreIntact(packets: seq<Octets>, log: seq<Slot>, n: nat)
    requires AllWellFormed(packets) && n <= |packets|
    ensures var b := Floor(packets, Carried(log));
            IntactBelow(packets, log, Upto(|log|), n) == packets[..if n <= b then n else b]
    decreases n
  {
    hide AllWellFormed, Floor, Offset;
    var b, all := Floor(packets, Carried(log)), Upto(|log|);
    if n > 0 {
      AllBelowAreIntact(packets, log, n - 1);
      if n <= b {
        OffsetMonotone(packets, n, b);
        forall k | 0 <= k < |log| ensures k in all {
          assert all[k] == k;
        }
        assert packets[..n] == packets[..n - 1] + [packets[n - 1]];
      } else {
        OffsetMonotone(packets, b + 1, n);
      }
    }
  }

  /** Packets not sent whole, if any, are filler. */
  predicate OnlyFillerWaits(h: History) {
    forall j :: Floor(h.packed, Carried(h.log)) <= j < |h.packed| ==> IsFiller(h.packed[j])
  }

  lemma {:induction false} FillerAddsNothing(packets: seq<Octets>, b: nat)
    requires b <= |packets| && forall j :: b <= j < |packets| ==> IsFiller(packets[j])
    ensures NonIdle(packets) == NonIdle(packets[..b])
    decreases |packets| - b
  {
    hide IsFiller;
    if b == |packets| {
      assert packets[..b] == packets;
    } else {
      FillerAddsNothing(packets, b + 1);
      assert packets[..b + 1] == packets[..b] + [packets[b]];
      NonIdleSplit(packets[..b], [packets[b]]);
      assert NonIdle([packets[b]]) == [] + NonIdle([packets[b]][1..]);
      assert [packets[b]][1..] == [];
    }
  }

  /**
   Round trip: with nothing lost, each admitted channel puts out exactly the packets packed on it,
   minus filler, in order.
   */
  lemma PackedComesBack(
      cfg: Config, l: Link, hs: seq<History>, arrivals: seq<Arrival>, datagrams: seq<Octets>, st: State, v: nat)
    requires Sends(l, hs) && Matches(cfg, l) && IsFresh(st) && Holds(cfg, hs, arrivals, datagrams)
    requires v < Deframing.CHANNELS && (cfg.virtualChannels.Some? ==> v in cfg.virtualChannels.value)
    requires AllArrive(hs[v], arrivals, v) && OnlyFillerWaits(hs[v])
    ensures OnChannel(PushAll(cfg, st, datagrams).1, v) == NonIdle(hs[v].packed)
  {
    hide Decode, OnLink, Matches, PushAll, IntactBelow, NonIdle, InChannelOrder, FramesIn, Floor, SentFromLog,
         AllWellFormed, ValidLink, IsFiller;
    var h := hs[v];
    AllInOrder(h, arrivals, v);
    DeframedIsWhatArrivedIntact(cfg, l, hs, arrivals, datagrams, st, v);
    assert |h.sent| == |h.log| by { SentMatchesLog(l.(vcid := v), h); }
    AllBelowAreIntact(h.packed, h.log, |h.packed|);
    FillerAddsNothing(h.packed, Floor(h.packed, Carried(h.log)));
  }

  lemma SentMatchesLog(l: Link, h: History)
    requires ValidLink(l) && SentFromLog(l, h)
    ensures |h.sent| == |h.log|
  {
    hide IsFrame;
  }

  // ---------------------------------------------------------------------------------------
  // Nothing counted as lost
  // ---------------------------------------------------------------------------------------

  lemma {:induction false} NoLossesBelow(
      cfg: Config, l: Link, hs: seq<History>, arrivals: seq<Arrival>, frames: seq<TmFrame.Frame>, v: nat)
    requires Sends(l, hs) && Matches(cfg, l) && DecodedFrom(cfg, hs, arrivals, frames) && v <= Deframing.CHANNELS
    requires forall u :: 0 <= u < Deframing.CHANNELS ==> AllArrive(hs[u], arrivals, u)
    ensures GapsBelow(cfg, frames, v) == 0 && DroppedBelow(cfg, frames, v) == 0
    decreases v
  {
    hide ValidLink, SentFromLog, AllWellFormed, Matches, DecodedFrom, Reassembly.Run, InChannelOrder, AllArrive,
         IntactBelow;
    if v > 0 {
      var u := v - 1;
      NoLossesBelow(cfg, l, hs, arrivals, frames, u);
      if cfg.virtualChannels.Some? && u !in cfg.virtualChannels.value {
        NothingOnFilteredChannel(cfg, frames, u);
      } else {
        AllInOrder(hs[u], arrivals, u);
        ChannelOutput(cfg, l, hs, arrivals, frames, u);
      }
    }
  }

  /** With nothing lost, no channel gap and no abandoned packet is counted, across counter wraps too. */
  lemma NothingCountedLost(
      cfg: Config, l: Link, hs: seq<History>, arrivals: seq<Arrival>, datagrams: seq<Octets>, st: State)
    requires Sends(l, hs) && Matches(cfg, l) && IsFresh(st) && Holds(cfg, hs, arrivals, datagrams)
    requires forall u :: 0 <= u < Deframing.CHANNELS ==> AllArrive(hs[u], arrivals, u)
    ensures var s, t := st.core.stats, PushAll(cfg, st, datagrams).0.core.stats;
            t.vcFrameGaps == s.vcFrameGaps && t.packetsDropped == s.packetsDropped
  {
    hide Sends, Matches, PushAll, TakeIn, AllArrive, FramesIn, DecodedFrom, ValidFrames, GapsBelow, DroppedBelow;
    var frames := FramesIn(cfg, datagrams);
    MatchesIsValid(cfg, l);
    PushAllTakesIn(cfg, st, datagrams);
    NoLossesBelow(cfg, l, hs, arrivals, frames, Deframing.CHANNELS);
    LossesAddUp(cfg, Plain(st.core), frames);
  }

  // ---------------------------------------------------------------------------------------
  // Links without markers
  // ---------------------------------------------------------------------------------------

  // The frames of a group of arrivals, back to back.
  function Joined(cfg: Config, hs: seq<History>, group: seq<Arrival>): Octets
    requires forall i :: 0 <= i < |group| ==> group[i].vcid < |hs| && group[i].index < |hs[group[i].vcid].sent|
  {
    if group == [] then [] else OnLink(cfg, RawOf(hs, group[0])) + Joined(cfg, hs, group[1..])
  }

  lemma {:induction false} ChunksOfJoined(cfg: Config, l: Link, hs: seq<History>, group: seq<Arrival>)
    requires Sends(l, hs) && Matches(cfg, l) && ValidArrivals(hs, group)
    ensures |Joined(cfg, hs, group)| == |group| * FrameLength(l)
    ensures DecodedFrom(cfg, hs, group, FramesInChunks(cfg, FrameLength(l), Joined(cfg, hs, group)))
    decreases |group|
  {
    hide Decode, SentFromLog, AllWellFormed, ValidLink, RawOf;
    if group != [] {
      var a, len, s := group[0], FrameLength(l), Joined(cfg, hs, group);
      var raw := OnLink(cfg, RawOf(hs, a));
      var f := FrameOfArrival(cfg, l, hs, a);
      assert ValidArrivals(hs, group[1..]);
      ChunksOfJoined(cfg, l, hs, group[1..]);
      assert s[..len] == raw && s[len..] == Joined(cfg, hs, group[1..]);
      assert |s| == len + (|group| - 1) * len == |group| * len;
      assert FramesInChunks(cfg, len, s) == [f] + FramesInChunks(cfg, len, s[len..]);
    }
  }

  lemma FrameOfArrival(cfg: Config, l: Link, hs: seq<History>, a: Arrival) returns (f: TmFrame.Frame)
    requires Sends(l, hs) && Matches(cfg, l) && a.vcid < |hs| && a.index < |hs[a.vcid].sent|
    ensures |OnLink(cfg, RawOf(hs, a))| == FrameLength(l) && Decode(cfg, OnLink(cfg, RawOf(hs, a))) == Ok(f)
  {
    hide SentFromLog, AllWellFormed, ValidLink, Decode;
    f := SentFrameDecodes(cfg, l.(vcid := a.vcid), hs[a.vcid], a.index);
  }

  /** Datagrams of whole frames, one or more in each, hold just these frames. */
  lemma {:induction false} DatagramsHold(
      cfg: Config, l: Link, hs: seq<History>, groups: seq<seq<Arrival>>, datagrams: seq<Octets>)
    requires Sends(l, hs) && Matches(cfg, l) && !cfg.asm && |datagrams| == |groups|
    requires forall g :: 0 <= g < |groups| ==>
               ValidArrivals(hs, groups[g]) && datagrams[g] == Joined(cfg, hs, groups[g])
               && groups[g] != [] && (cfg.frameLength.None? ==> |groups[g]| == 1)
    ensures Holds(cfg, hs, Flatten(groups), datagrams)
    decreases |groups|
  {
    hide Decode, Sends, RawOf, OnLink, FramesInDatagram, Joined;
    if groups != [] {
      DatagramsHold(cfg, l, hs, groups[1..], datagrams[1..]);
      DatagramHolds(cfg, l, hs, groups[0]);
      var first, rest := FramesInDatagram(cfg, datagrams[0]), FramesIn(cfg, datagrams[1..]);
      assert FramesIn(cfg, datagrams) == first + rest;
      assert Flatten(groups) == groups[0] + Flatten(groups[1..]);
      DecodedJoin(cfg, hs, groups[0], first, Flatten(groups[1..]), rest);
    }
  }

  lemma DecodedJoin(
      cfg: Config, hs: seq<History>, a: seq<Arrival>, fa: seq<TmFrame.Frame>, b: seq<Arrival>, fb: seq<TmFrame.Frame>)
    requires DecodedFrom(cfg, hs, a, fa) && DecodedFrom(cfg, hs, b, fb)
    ensures DecodedFrom(cfg, hs, a + b, fa + fb)
  {
    hide Decode, OnLink, RawOf;
  }

  lemma DatagramHolds(cfg: Config, l: Link, hs: seq<History>, group: seq<Arrival>)
    requires Sends(l, hs) && Matches(cfg, l) && ValidArrivals(hs, group)
    requires group != [] && (cfg.frameLength.None? ==> |group| == 1)
    ensures DecodedFrom(cfg, hs, group, FramesInDatagram(cfg, Joined(cfg, hs, group)))
  {
    hide Decode, Sends, RawOf, OnLink;
    var d, len := Joined(cfg, hs, group), FrameLength(l);
    ChunksOfJoined(cfg, l, hs, group);
    if cfg.frameLength.None? {
      var f := FrameOfArrival(cfg, l, hs, group[0]);
      assert group[1..] == [] && d == OnLink(cfg, RawOf(hs, group[0])) + [];
      assert d == OnLink(cfg, RawOf(hs, group[0]));
    } else {
      WholeFrames(|group|, len);
    }
  }

  lemma WholeFrames(k: nat, len: nat)
    requires k > 0 && len > 0
    ensures (k * len) % len == 0 && k * len > 0
    decreases k
  {
    if k > 1 {
      WholeFrames(k - 1, len);
      assert k * len == (k - 1) * len + len;
      AddModulo((k - 1) * len, len);
    }
  }

  lemma AddModulo(n: nat, len: nat)
    requires len > 0 && n % len == 0
    ensures (n + len) % len == 0
  {
    assert n == len * (n / len);
    assert n + len == len * (n / len + 1);
    LeftIsRemainder(n + len, len, n / len + 1, 0);
  }

  // ---------------------------------------------------------------------------------------
  // Links with markers
  // ---------------------------------------------------------------------------------------

  // The CADUs of the arrivals stand at `at` in the stream `s`.
  ghost predicate CadusAt(cfg: Config, l: Link, hs: seq<History>, arrivals: seq<Arrival>, s: Octets, at: seq<nat>) {
    && ValidArrivals(hs, arrivals) && |at| == |arrivals|
    && (forall i :: 0 <= i < |at| ==> at[i] + ASM_LEN + FrameLength(l) <= |s|
                                      && s[at[i]..at[i] + ASM_LEN + FrameLength(l)]
                                          == ToCadu(RawOf(hs, arrivals[i]), cfg.derandomize))
    && (forall i, j :: 0 <= i < j < |at| ==> at[i] + ASM_LEN + FrameLength(l) <= at[j])
  }

  lemma CaduAt(cfg: Config, l: Link, s: Octets, q: nat, raw: Octets)
    requires q + ASM_LEN + FrameLength(l) <= |s| && |OnLink(cfg, raw)| == FrameLength(l)
    requires s[q..q + ASM_LEN + FrameLength(l)] == ToCadu(raw, cfg.derandomize)
    ensures MarkerAt(s, q) && Window(FrameLength(l), s, q) == OnLink(cfg, raw)
  {
    hide FrameLength;
    var c := s[q..q + ASM_LEN + FrameLength(l)];
    assert s[q..q + ASM_LEN] == c[..ASM_LEN] == ASM;
    assert Window(FrameLength(l), s, q) == c[ASM_LEN..];
  }

  /**
   A stream with the CADUs anywhere in it, anything that does not decode between them, cut into
   datagrams in any way, holds just these frames.
   */
  lemma StreamHolds(
      cfg: Config, l: Link, hs: seq<History>, arrivals: seq<Arrival>, at: seq<nat>, datagrams: seq<Octets>)
    requires Sends(l, hs) && Matches(cfg, l) && cfg.asm
    requires CadusAt(cfg, l, hs, arrivals, Flatten(datagrams), at)
    requires FalseMarkersFail(cfg, FrameLength(l), Flatten(datagrams), at)
    ensures Holds(cfg, hs, arrivals, datagrams)
  {
    hide Decode, Sends, RawOf, OnLink, FrameLength, MarkerAt, Window, FalseMarkersFail, ToCadu;
    var s, len := Flatten(datagrams), FrameLength(l);
    forall i | 0 <= i < |at|
      ensures MarkerAt(s, at[i]) && Window(len, s, at[i]) == OnLink(cfg, RawOf(hs, arrivals[i]))
      ensures Decode(cfg, Window(len, s, at[i])).Ok?
    {
      var f := FrameOfArrival(cfg, l, hs, arrivals[i]);
      CaduAt(cfg, l, s, at[i], RawOf(hs, arrivals[i]));
    }
    assert IntactCadus(cfg, len, s, at);
    IntactCadusAreFound(cfg, len, s, at);
    assert FramesIn(cfg, datagrams) == FramesAt(cfg, len, s, at);
  }

  // CADUs with nothing between them.
  function CleanStream(cfg: Config, hs: seq<History>, arrivals: seq<Arrival>): Octets
    requires forall i :: 0 <= i < |arrivals| ==>
        arrivals[i].vcid < |hs| && arrivals[i].index < |hs[arrivals[i].vcid].sent|
  {
    if arrivals == [] then []
    else CleanStream(cfg, hs, arrivals[..|arrivals| - 1]) + ToCadu(RawOf(hs, arrivals[|arrivals| - 1]), cfg.derandomize)
  }

  // 0, c, 2c, ...
  function Multiples(c: nat, k: nat): (r: seq<nat>)
    ensures |r| == k
    ensures forall i :: 0 <= i < k ==> r[i] == i * c
  {
    if k == 0 then [] else Multiples(c, k - 1) + [(k - 1) * c]
  }

  // One more CADU at the end of a stream.
  lemma CadusGrow(
      cfg: Config, l: Link, hs: seq<History>, arrivals: seq<Arrival>, s: Octets, at: seq<nat>, a: Arrival, cadu: Octets)
    requires CadusAt(cfg, l, hs, arrivals, s, at)
    requires a.vcid < |hs| && a.index < |hs[a.vcid].sent| && cadu == ToCadu(RawOf(hs, a), cfg.derandomize)
    requires |cadu| == ASM_LEN + FrameLength(l)
    ensures CadusAt(cfg, l, hs, arrivals + [a], s + cadu, at + [|s|])
  {
    hide RawOf, ToCadu, FrameLength;
    var s', at', arrivals', c := s + cadu, at + [|s|], arrivals + [a], ASM_LEN + FrameLength(l);
    forall i | 0 <= i < |at'|
      ensures at'[i] + c <= |s'| && s'[at'[i]..at'[i] + c] == ToCadu(RawOf(hs, arrivals'[i]), cfg.derandomize)
    {
      if i < |at| {
        assert s'[at[i]..at[i] + c] == s[at[i]..at[i] + c];
      } else {
        assert s'[|s|..|s| + c] == cadu;
      }
    }
  }

  lemma {:induction false} CleanStreamLayout(cfg: Config, l: Link, hs: seq<History>, arrivals: seq<Arrival>)
    requires Sends(l, hs) && Matches(cfg, l) && ValidArrivals(hs, arrivals)
    ensures |CleanStream(cfg, hs, arrivals)| == |arrivals| * (ASM_LEN + FrameLength(l))
    ensures CadusAt(cfg, l, hs, arrivals, CleanStream(cfg, hs, arrivals),
        Multiples(ASM_LEN + FrameLength(l), |arrivals|))
    decreases |arrivals|
  {
    hide Decode, Sends, Matches, RawOf, FrameLength, OnLink, CadusAt, ToCadu, CleanStream, Multiples;
    var c := ASM_LEN + FrameLength(l);
    if arrivals == [] {
      NothingSent(cfg, hs, c);
      NoCadus(cfg, l, hs);
    } else {
      var n := |arrivals| - 1;
      var before := CleanStream(cfg, hs, arrivals[..n]);
      var cadu := ToCadu(RawOf(hs, arrivals[n]), cfg.derandomize);
      assert ValidArrivals(hs, arrivals[..n]);
      CleanStreamLayout(cfg, l, hs, arrivals[..n]);
      var f := FrameOfArrival(cfg, l, hs, arrivals[n]);
      CaduLength(cfg, RawOf(hs, arrivals[n]));
      CadusGrow(cfg, l, hs, arrivals[..n], before, Multiples(c, n), arrivals[n], cadu);
      assert arrivals == arrivals[..n] + [arrivals[n]];
      OneMoreCadu(cfg, hs, arrivals, c);
    }
  }

  lemma NothingSent(cfg: Config, hs: seq<History>, c: nat)
    ensures CleanStream(cfg, hs, []) == [] && Multiples(c, 0) == []
  {
  }

  lemma OneMoreCadu(cfg: Config, hs: seq<History>, arrivals: seq<Arrival>, c: nat)
    requires arrivals != [] && ValidArrivals(hs, arrivals)
    ensures var n := |arrivals| - 1;
            && ValidArrivals(hs, arrivals[..n])
            && CleanStream(cfg, hs, arrivals)
               == CleanStream(cfg, hs, arrivals[..n]) + ToCadu(RawOf(hs, arrivals[n]), cfg.derandomize)
            && Multiples(c, n + 1) == Multiples(c, n) + [n * c]
            && (n + 1) * c == n * c + c
  {
    hide RawOf, ToCadu;
  }

  lemma NoCadus(cfg: Config, l: Link, hs: seq<History>)
    ensures CadusAt(cfg, l, hs, [], [], [])
  {
  }

  lemma CaduLength(cfg: Config, raw: Octets)
    ensures |ToCadu(raw, cfg.derandomize)| == ASM_LEN + |OnLink(cfg, raw)|
  {
  }

  /** CADUs back to back need no assumption about false markers. */
  lemma CleanStreamHolds(cfg: Config, l: Link, hs: seq<History>, arrivals: seq<Arrival>, datagrams: seq<Octets>)
    requires Sends(l, hs) && Matches(cfg, l) && cfg.asm && ValidArrivals(hs, arrivals)
    requires Flatten(datagrams) == CleanStream(cfg, hs, arrivals)
    ensures Holds(cfg, hs, arrivals, datagrams)
  {
    hide Decode, Sends, RawOf, OnLink, FrameLength, MarkerAt, Window, CadusAt, CleanStream, Inside, Multiples,
         ValidArrivals;
    var c := ASM_LEN + FrameLength(l);
    var at := Multiples(c, |arrivals|);
    CleanStreamLayout(cfg, l, hs, arrivals);
    var s := Flatten(datagrams);
    forall q: nat | MarkerAt(s, q) && q + ASM_LEN + FrameLength(l) <= |s| ensures Inside(FrameLength(l), at, q) {
      TilesCover(FrameLength(l), |arrivals|, q);
    }
    StreamHolds(cfg, l, hs, arrivals, at, datagrams);
  }

  lemma TilesCover(len: nat, k: nat, q: nat)
    requires q < k * (ASM_LEN + len)
    ensures Inside(len, Multiples(ASM_LEN + len, k), q)
  {
    var c, at := ASM_LEN + len, Multiples(ASM_LEN + len, k);
    InsideTile(q, c, k);
    assert at[q / c] <= q < at[q / c] + ASM_LEN + len;
  }

  lemma InsideTile(q: nat, c: nat, k: nat)
    requires c > 0 && q < k * c
    ensures q / c < k && q / c * c <= q < q / c * c + c
  {
    var t := q / c;
    assert q == c * t + q % c;
    ProductOrder(c, k, t);
    assert t == k ==> c * t == k * c;
  }

  // ---------------------------------------------------------------------------------------
  // The builder's side
  // ---------------------------------------------------------------------------------------

  /** Whatever was packed, flushed and idled, in any order: a builder is a sender as assumed above. */
  lemma BuilderSends(b: TmFrameBuilder)
    requires b.Valid()
    requires forall v :: 0 <= v < Deframing.CHANNELS ==> AllWellFormed(b.history[v].packed)
    ensures Sends(b.LinkOf(0), b.history) && FrameLength(b.LinkOf(0)) == b.frameLength
  {
    hide SentFromLog, AllWellFormed, ValidLink;
    forall v | 0 <= v < Deframing.CHANNELS
      ensures ValidLink(b.LinkOf(0).(vcid := v)) && SentFromLog(b.LinkOf(0).(vcid := v), b.history[v])
    {
      assert b.LinkOf(0).(vcid := v) == b.LinkOf(v);
      assert ChannelValid(b.LinkOf(v), b.vc[v], b.history[v]);
    }
  }

  /** Once a channel's queue is empty, every packet has been sent whole. */
  lemma EmptyQueueWaitsForNothing(h: History)
    requires AllWellFormed(h.packed) && Carried(h.log) == |Flatten(h.packed)|
    ensures OnlyFillerWaits(h)
  {
    hide AllWellFormed, Floor;
    OffsetEnds(h.packed);
    FloorOfOffset(h.packed, |h.packed|);
  }

  /** After `flush`, what has not been sent whole can only be the idle packet it added. */
  lemma FlushLeavesOnlyFiller(before: seq<Octets>, h: History, len: nat)
    requires AllWellFormed(before) && len <= SpacePackets.PACKET_MAX_LEN
    requires h.packed == before + [SpacePackets.IdlePacket(len)] && Carried(h.log) >= |Flatten(before)|
    ensures AllWellFormed(h.packed) && OnlyFillerWaits(h)
  {
    hide SpacePackets.WellFormed, Floor, SpacePackets.IdlePacket, SpacePackets.IsIdle;
    SpacePackets.IdlePacketIsIdle(len);
    var n := |before|;
    OffsetStable(before, [SpacePackets.IdlePacket(len)], n);
    OffsetEnds(before);
    FloorOfOffset(h.packed, n);
    FloorMonotone(h.packed, Offset(h.packed, n), Carried(h.log));
  }

  // ---------------------------------------------------------------------------------------
  // In the order of building
  // ---------------------------------------------------------------------------------------

  // The channel is not filtered out.
  predicate IsWanted(cfg: Config, v: nat) {
    cfg.virtualChannels.Some? ==> v in cfg.virtualChannels.value
  }

  lemma CountGoesOn(n: nat)
    requires n > 0
    ensures CountAt(n) == Next(CountAt(n - 1))
  {
  }

  // Consecutive master channel counts.
  lemma {:induction false} CountsInARow(frames: seq<TmFrame.Frame>)
    requires forall m :: 0 <= m < |frames| ==> frames[m].header.mcCount == CountAt(m)
    ensures FrameCounts.Jumps(frames) == 0
    decreases |frames|
  {
    hide Next, CountAt;
    if |frames| >= 2 {
      var n := |frames| - 1;
      CountsInARow(frames[..n]);
      CountGoesOn(n);
    }
  }

  lemma {:induction false} AllAreOwn(cfg: Config, frames: seq<TmFrame.Frame>)
    requires forall m :: 0 <= m < |frames| ==> IsOurs(cfg, frames[m])
    ensures FrameCounts.Own(cfg, frames) == frames
    decreases |frames|
  {
    hide IsOurs;
    if frames != [] {
      AllAreOwn(cfg, frames[..|frames| - 1]);
      assert frames == frames[..|frames| - 1] + [frames[|frames| - 1]];
    }
  }

  // What the frames of a builder decode to, in the order of building.
  lemma BuiltFrame(cfg: Config, b: TmFrameBuilder, frames: seq<TmFrame.Frame>, m: nat)
    requires b.Valid() && Sends(b.LinkOf(0), b.history) && Matches(cfg, b.LinkOf(0))
    requires DecodedFrom(cfg, b.history, b.order, frames) && m < |frames|
    ensures frames[m].header.mcCount == CountAt(m) && IsOurs(cfg, frames[m])
  {
    hide SentFromLog, AllWellFormed, ValidLink, ChannelValid, Decode, OnLink, CountAt, IndicesOn;
    var a := b.order[m];
    assert BuiltAt(b.order, b.history, m);
    var f := SentFrameDecodes(cfg, b.LinkOf(0).(vcid := a.vcid), b.history[a.vcid], a.index);
    assert Decode(cfg, OnLink(cfg, RawOf(b.history, a))) == Ok(frames[m]);
  }

  /**
   Everything a builder built, delivered in the order of building, however it is cut into datagrams:
   nothing is counted as lost, neither on a channel nor on the master channel, across wraps of every
   counter; and each admitted channel puts out its packets.
   */
  lemma BuildOrderIsLossless(cfg: Config, b: TmFrameBuilder, datagrams: seq<Octets>, st: State)
    requires b.Valid() && Matches(cfg, b.LinkOf(0)) && IsFresh(st)
    requires forall v :: 0 <= v < Deframing.CHANNELS ==> AllWellFormed(b.history[v].packed)
    requires Holds(cfg, b.history, b.order, datagrams)
    ensures var s, t := st.core.stats, PushAll(cfg, st, datagrams).0.core.stats;
            && t.mcFrameGaps == s.mcFrameGaps && t.vcFrameGaps == s.vcFrameGaps
            && t.packetsDropped == s.packetsDropped
    ensures forall v :: 0 <= v < Deframing.CHANNELS && OnlyFillerWaits(b.history[v]) && IsWanted(cfg, v) ==>
              OnChannel(PushAll(cfg, st, datagrams).1, v) == NonIdle(b.history[v].packed)
  {
    hide Matches, Sends, PushAll, FramesIn, AllWellFormed, ChannelValid, OnlyFillerWaits, NonIdle, OnChannel, Upto,
         DecodedFrom, FrameCounts.Own, FrameCounts.Jumps, FrameCounts.Taken;
    BuilderSends(b);
    var l, hs, frames := b.LinkOf(0), b.history, FramesIn(cfg, datagrams);
    MatchesIsValid(cfg, l);
    NothingCountedLost(cfg, l, hs, b.order, datagrams, st);
    forall v | 0 <= v < Deframing.CHANNELS && OnlyFillerWaits(hs[v]) && IsWanted(cfg, v)
      ensures OnChannel(PushAll(cfg, st, datagrams).1, v) == NonIdle(hs[v].packed)
    {
      PackedComesBack(cfg, l, hs, b.order, datagrams, st, v);
    }
    FrameCounts.CountersOfARun(cfg, st, datagrams);
    forall m | 0 <= m < |frames|
      ensures frames[m].header.mcCount == CountAt(m) && IsOurs(cfg, frames[m])
    {
      BuiltFrame(cfg, b, frames, m);
    }
    CountsInARow(frames);
    AllAreOwn(cfg, frames);
  }
}
