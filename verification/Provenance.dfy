/**
 Where extracted packets come from.  Over every run of frames on a channel, each packet is one
 contiguous stretch of the data-field octets the channel received, no octet is used twice, and no
 packet reaches across a counter gap, a first header pointer or an inconsistent frame.
 */
module Provenance {
  import opened Octets
  import opened Reassembly
  import TmFrame

  // Octets a frame adds to the channel: idle frames add none.
  function Payload(part: Part): Octets {
    if part.pointer == TmFrame.FHP_IDLE then [] else part.data
  }

  /** All data-field octets the channel received, in order. */
  function Received(parts: seq<Part>): Octets {
    if parts == [] then [] else Received(parts[..|parts| - 1]) + Payload(parts[|parts| - 1])
  }

  /**
   Positions in `Received(parts)` that a packet may not reach across: a frame boundary where the
   counter jumped, the octet a pointer designates, and everything in a frame whose pointer is
   outside its data field.
   */
  ghost predicate Barrier(parts: seq<Part>, x: nat) {
    exists k :: 0 <= k < |parts| && BarrierOf(parts, k, x)
  }

  ghost predicate BarrierOf(parts: seq<Part>, k: nat, x: nat)
    requires k < |parts|
  {
    var from, p := |Received(parts[..k])|, parts[k];
    || (k > 0 && p.count != Next(parts[k - 1].count) && x == from)
    || PointerBarrier(p, from, x)
  }

  predicate PointerBarrier(p: Part, from: nat, x: nat) {
    && IsOffset(p.pointer)
    && (if p.pointer < |p.data| then x == from + p.pointer else from <= x <= from + |p.data|)
  }

  /** Half-open stretch of the received octets. */
  datatype Span = Span(lo: nat, hi: nat)

  // `spans` are the places of `packets` in `g`: in order, without overlap, between `lo` and `hi`.
  predicate Located(g: Octets, spans: seq<Span>, packets: seq<Octets>, lo: int, hi: int) {
    && |spans| == |packets| && 0 <= lo <= hi <= |g|
    && (forall j :: 0 <= j < |spans| ==>
        lo <= spans[j].lo <= spans[j].hi <= hi && g[spans[j].lo..spans[j].hi] == packets[j])
    && (forall i, j :: 0 <= i < j < |spans| ==> spans[i].hi <= spans[j].lo)
  }

  predicate Clear(spans: seq<Span>, x: nat) {
    forall j :: 0 <= j < |spans| ==> !(spans[j].lo < x < spans[j].hi)
  }

  predicate IsSuffix(s: Octets, g: Octets) {
    |s| <= |g| && g[|g| - |s|..] == s
  }

  lemma LocatedGrows(g: Octets, more: Octets, spans: seq<Span>, packets: seq<Octets>, lo: int, hi: int)
    requires Located(g, spans, packets, lo, hi)
    ensures Located(g + more, spans, packets, lo, hi)
  {
    forall j | 0 <= j < |spans| ensures (g + more)[spans[j].lo..spans[j].hi] == packets[j] {
      assert (g + more)[spans[j].lo..spans[j].hi] == g[spans[j].lo..spans[j].hi];
    }
  }

  lemma LocatedJoin(
      g: Octets, s1: seq<Span>, p1: seq<Octets>, s2: seq<Span>, p2: seq<Octets>, lo: int, mid: int, mid': int, hi: int)
    requires Located(g, s1, p1, lo, mid) && mid <= mid' && Located(g, s2, p2, mid', hi)
    ensures Located(g, s1 + s2, p1 + p2, lo, hi)
    ensures forall x: nat :: mid <= x <= mid' ==> Clear(s1 + s2, x)
  {
  }

  lemma LocatedWiden(g: Octets, spans: seq<Span>, packets: seq<Octets>, lo: int, hi: int, lo': int, hi': int)
    requires Located(g, spans, packets, lo, hi) && 0 <= lo' <= lo && hi <= hi' <= |g|
    ensures Located(g, spans, packets, lo', hi')
  {
  }

  // Packets lying back to back from `lo` on.
  lemma {:induction false} LocateJoined(g: Octets, packets: seq<Octets>, lo: nat) returns (spans: seq<Span>)
    requires lo + |Flatten(packets)| <= |g| && g[lo..lo + |Flatten(packets)|] == Flatten(packets)
    ensures Located(g, spans, packets, lo, lo + |Flatten(packets)|)
    decreases |packets|
  {
    if packets == [] {
      spans := [];
    } else {
      var p, f := packets[0], Flatten(packets);
      var next := lo + |p|;
      assert f == p + Flatten(packets[1..]);
      assert g[lo..next] == f[..|p|] == p;
      assert g[next..lo + |f|] == f[|p|..] == Flatten(packets[1..]);
      var rest := LocateJoined(g, packets[1..], next);
      assert Located(g, [Span(lo, next)], [p], lo, next);
      LocatedJoin(g, [Span(lo, next)], [p], rest, packets[1..], lo, next, next, lo + |f|);
      spans := [Span(lo, next)] + rest;
      assert packets == [p] + packets[1..];
    }
  }

  // Draining a buffer that is the end of `g` once `data` has been added to both.
  lemma DrainSpans(g: Octets, vc: Vc, data: Octets) returns (spans: seq<Span>)
    requires IsSuffix(vc.pending, g)
    ensures var o := Drain(vc, data);
            && IsSuffix(o.vc.pending, g + data)
            && Located(g + data, spans, o.packets, |g| - |vc.pending|, |g + data| - |o.vc.pending|)
  {
    hide Cut;
    var whole, b := g + data, |g| - |vc.pending|;
    var buffer := vc.pending + data;
    var c := Cut(buffer);
    CutPartitions(buffer);
    assert whole[b..] == buffer;
    var f := Flatten(c.packets);
    assert f <= buffer;
    assert whole[b..b + |f|] == f;
    spans := LocateJoined(whole, c.packets, b);
    LocatedWiden(whole, spans, c.packets, b, b + |f|, b, |whole| - |Drain(vc, data).vc.pending|);
    if !c.lost {
      assert whole[|whole| - |c.rest|..] == buffer[|f|..] == c.rest;
    }
  }

  // One frame's packets, and how they stand to its pointer.
  lemma ExtractSpans(g: Octets, vc: Vc, part: Part) returns (spans: seq<Span>)
    requires IsSuffix(vc.pending, g) && (!vc.inSync ==> vc.pending == [])
    ensures var o, g' := Extract(vc, part), g + Payload(part);
            && IsSuffix(o.vc.pending, g')
            && Located(g', spans, o.packets, |g| - |vc.pending|, |g'| - |o.vc.pending|)
            && (forall x: nat :: PointerBarrier(part, |g|, x) ==> Clear(spans, x) && x <= |g'| - |o.vc.pending|)
  {
    hide Drain;
    var data, fhp := part.data, part.pointer;
    if fhp == TmFrame.FHP_IDLE {
      spans := [];
      assert g + [] == g;
    } else if fhp == TmFrame.FHP_NO_PACKET_START {
      if vc.inSync {
        spans := DrainSpans(g, vc, data);
      } else {
        spans := [];
      }
    } else if fhp >= |data| {
      spans := [];
    } else {
      spans := PointerSpans(g, vc, part);
    }
  }

  lemma PointerSpans(g: Octets, vc: Vc, part: Part) returns (spans: seq<Span>)
    requires IsSuffix(vc.pending, g) && (!vc.inSync ==> vc.pending == [])
    requires IsOffset(part.pointer) && part.pointer < |part.data|
    ensures var o, g' := Extract(vc, part), g + part.data;
            && IsSuffix(o.vc.pending, g')
            && Located(g', spans, o.packets, |g| - |vc.pending|, |g'| - |o.vc.pending|)
            && Clear(spans, |g| + part.pointer) && |g| + part.pointer <= |g'| - |o.vc.pending|
  {
    hide Drain, Located, Clear, IsSuffix;
    var data, fhp, b := part.data, part.pointer, |g| - |vc.pending|;
    var at := g + data[..fhp];
    var g' := g + data;
    assert g' == at + data[fhp..];
    var synced := Vc([], true, vc.lastCount);
    var before := if vc.inSync then Drain(vc, data[..fhp]) else Nothing(vc);
    var after := Drain(synced, data[fhp..]);
    var first: seq<Span> := [];
    if vc.inSync {
      first := DrainSpans(g, vc, data[..fhp]);
      LocatedEnd(at, first, before.packets, b, |at| - |before.vc.pending|);
    } else {
      NothingLocated(at, b, |at|);
    }
    LocatedGrows(at, data[fhp..], first, before.packets, b, |at|);
    EmptySuffix(at);
    var second := DrainSpans(at, synced, data[fhp..]);
    LocatedJoin(g', first, before.packets, second, after.packets, b, |at|, |at|, |g'| - |after.vc.pending|);
    LocatedOrdered(g', second, after.packets, |at|, |g'| - |after.vc.pending|);
    spans := first + second;
  }

  lemma EmptySuffix(g: Octets)
    ensures IsSuffix([], g)
  {
  }

  lemma NothingLocated(g: Octets, lo: int, hi: int)
    requires 0 <= lo <= hi <= |g|
    ensures Located(g, [], [], lo, hi)
  {
  }

  lemma LocatedEnd(g: Octets, spans: seq<Span>, packets: seq<Octets>, lo: int, hi: int)
    requires Located(g, spans, packets, lo, hi)
    ensures Located(g, spans, packets, lo, |g|)
  {
  }

  lemma LocatedOrdered(g: Octets, spans: seq<Span>, packets: seq<Octets>, lo: int, hi: int)
    requires Located(g, spans, packets, lo, hi)
    ensures 0 <= lo <= hi <= |g|
  {
  }

  lemma {:induction false} LastCountIsKept(parts: seq<Part>)
    ensures Run(parts).vc.lastCount == if parts == [] then None else Some(parts[|parts| - 1].count)
  {
    if parts != [] {
      hide Cut;
    }
  }

  /**
   No mixing: every packet of a run is one stretch of the octets received on the channel, the
   stretches are in order and do not overlap, and no barrier lies strictly inside one of them.  What
   is still pending is the end of what was received and lies past every barrier.
   */
  lemma {:induction false} PacketsAreStretches(parts: seq<Part>) returns (spans: seq<Span>)
    ensures var o, g := Run(parts), Received(parts);
            && IsSuffix(o.vc.pending, g)
            && Located(g, spans, o.packets, 0, |g| - |o.vc.pending|)
            && (forall x: nat :: Barrier(parts, x) ==> Clear(spans, x) && x <= |g| - |o.vc.pending|)
    decreases |parts|
  {
    if parts == [] {
      spans := [];
    } else {
      var n := |parts| - 1;
      var earlier := PacketsAreStretches(parts[..n]);
      spans := OneMoreFrame(parts, earlier);
    }
  }

  lemma OneMoreFrame(parts: seq<Part>, earlier: seq<Span>) returns (spans: seq<Span>)
    requires parts != []
    requires var o, g := Run(parts[..|parts| - 1]), Received(parts[..|parts| - 1]);
             && IsSuffix(o.vc.pending, g)
             && Located(g, earlier, o.packets, 0, |g| - |o.vc.pending|)
             && (forall x: nat :: Barrier(parts[..|parts| - 1], x) ==> Clear(earlier, x) && x <= |g| - |o.vc.pending|)
    ensures var o, g := Run(parts), Received(parts);
            && IsSuffix(o.vc.pending, g)
            && Located(g, spans, o.packets, 0, |g| - |o.vc.pending|)
            && (forall x: nat :: Barrier(parts, x) ==> Clear(spans, x) && x <= |g| - |o.vc.pending|)
  {
    hide Located, Clear, IsSuffix, Extract, BarrierOf, PointerBarrier;
    var n := |parts| - 1;
    var old', g, part := Run(parts[..n]).vc, Received(parts[..n]), parts[n];
    var g' := Received(parts);
    var vc := Counted(old', part);
    RunKeepsValid(parts[..n]);
    EmptySuffix(g);
    var fresh' := ExtractSpans(g, vc, part);
    var o := Extract(vc, part);
    var b, b' := |g| - |old'.pending|, |g'| - |o.vc.pending|;
    LocatedGrows(g, Payload(part), earlier, Run(parts[..n]).packets, 0, b);
    SuffixShorter(old'.pending, g);
    LocatedJoin(g', earlier, Run(parts[..n]).packets, fresh', o.packets, 0, b, |g| - |vc.pending|, b');
    LocatedOrdered(g', fresh', o.packets, |g| - |vc.pending|, b');
    spans := earlier + fresh';
    assert Run(parts).packets == Run(parts[..n]).packets + o.packets && Run(parts).vc == o.vc;
    forall x: nat | Barrier(parts, x) ensures Clear(spans, x) && x <= b' {
      var k :| 0 <= k < |parts| && BarrierOf(parts, k, x);
      if k < n {
        EarlierBarrier(parts, k, x);
        ClearBefore(g', earlier, fresh', o.packets, |g| - |vc.pending|, b', x);
      } else {
        LastBarrier(parts, x);
        LastBarrierIsClear(parts, g', earlier, fresh', o.packets, b, b', x);
      }
    }
  }

  lemma LastBarrierIsClear(
      parts: seq<Part>, g': Octets, earlier: seq<Span>, later: seq<Span>, packets: seq<Octets>, b: int, b': int, x: nat)
    requires parts != []
    requires var n := |parts| - 1;
             var g, old', part := Received(parts[..n]), Run(parts[..n]).vc, parts[n];
             var vc := Counted(old', part);
             && b == |g| - |old'.pending|
             && Located(g', earlier, Run(parts[..n]).packets, 0, b)
             && Located(g', later, packets, |g| - |vc.pending|, b')
             && (forall y: nat :: b <= y <= |g| - |vc.pending| ==> Clear(earlier + later, y))
             && (PointerBarrier(part, |g|, x) ==> Clear(later, x) && x <= b')
             && ((n > 0 && part.count != Next(parts[n - 1].count) && x == |g|) || PointerBarrier(part, |g|, x))
    ensures Clear(earlier + later, x) && x <= b'
  {
    hide Located, Clear, PointerBarrier, Receive, Received;
    var n := |parts| - 1;
    var g, part := Received(parts[..n]), parts[n];
    LastCountIsKept(parts[..n]);
    LocatedOrdered(g', later, packets, |g| - |Counted(Run(parts[..n]).vc, part).pending|, b');
    if PointerBarrier(part, |g|, x) {
      PointerBarrierAt(part, |g|, x);
      ClearAfter(g', earlier, Run(parts[..n]).packets, later, b, x);
    } else {
      assert IsGap(Run(parts[..n]).vc, part);
    }
  }

  lemma SuffixShorter(s: Octets, g: Octets)
    requires IsSuffix(s, g)
    ensures |s| <= |g|
  {
  }

  lemma PointerBarrierAt(p: Part, from: nat, x: nat)
    requires PointerBarrier(p, from, x)
    ensures x >= from
  {
  }

  lemma EarlierBarrier(parts: seq<Part>, k: nat, x: nat)
    requires k < |parts| - 1 && BarrierOf(parts, k, x)
    ensures Barrier(parts[..|parts| - 1], x)
  {
    var most := parts[..|parts| - 1];
    assert most[..k] == parts[..k];
    assert BarrierOf(most, k, x);
  }

  lemma LastBarrier(parts: seq<Part>, x: nat)
    requires parts != [] && BarrierOf(parts, |parts| - 1, x)
    ensures var n := |parts| - 1;
            var from := |Received(parts[..n])|;
            || (n > 0 && parts[n].count != Next(parts[n - 1].count) && x == from)
            || PointerBarrier(parts[n], from, x)
  {
  }

  lemma ClearBefore(g: Octets, earlier: seq<Span>, later: seq<Span>, packets: seq<Octets>, lo: int, hi: int, x: nat)
    requires Clear(earlier, x) && Located(g, later, packets, lo, hi) && x <= lo
    ensures Clear(earlier + later, x)
  {
  }

  lemma ClearAfter(g: Octets, earlier: seq<Span>, packets: seq<Octets>, later: seq<Span>, hi: int, x: nat)
    requires Clear(later, x) && Located(g, earlier, packets, 0, hi) && x >= hi
    ensures Clear(earlier + later, x)
  {
  }
}
