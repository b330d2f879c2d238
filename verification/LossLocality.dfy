/**
 Losing frames loses exactly the packets they carry.  A channel's frames are numbered by their
 place in the builder's log; any of them may be missing, as long as the 8-bit frame counter can
 show it.
 */
module LossLocality {
  import opened Octets
  import opened PacketStream
  import opened Reassembly
  import opened SpacePackets
  import TmFrame

  /** `part` is frame `k` of the log, as the receiver sees it. */
  ghost predicate Carries(packets: seq<Octets>, log: seq<Slot>, k: nat, part: Part) {
    && k < |log| && log[k].lo <= log[k].hi <= |Flatten(packets)|
    && part.count == CountAt(k)
    && part.pointer == PointerFor(packets, log[k])
    && (log[k].lo < log[k].hi ==> part.data == Flatten(packets)[log[k].lo..log[k].hi])
  }

  /** Frames `received`, in the order they were sent. */
  ghost predicate Receives(packets: seq<Octets>, log: seq<Slot>, received: seq<nat>, parts: seq<Part>) {
    && |parts| == |received|
    && (forall m :: 0 <= m < |received| ==> Carries(packets, log, received[m], parts[m]))
    && (forall i, m :: 0 <= i < m < |received| ==> received[i] < received[m])
  }

  /** No run of missing frames is as long as a nonzero multiple of 256. */
  predicate LossesShow(received: seq<nat>) {
    forall m :: 0 < m < |received| && received[m - 1] < received[m] && (received[m] - received[m - 1] - 1) % 256 == 0
                ==> received[m] == received[m - 1] + 1
  }

  /** The frame of `slot` carries octets between `from` and `to`, or lies strictly between them. */
  predicate Touches(slot: Slot, from: nat, to: nat) {
    slot.lo < to && from < slot.hi
  }

  /** Packet `j` was sent whole, and no frame it touches is missing. */
  ghost predicate Intact(packets: seq<Octets>, log: seq<Slot>, received: seq<nat>, j: nat)
    requires j < |packets|
  {
    && Offset(packets, j + 1) <= Carried(log)
    && forall k :: 0 <= k < |log| && Touches(log[k], Offset(packets, j), Offset(packets, j + 1)) ==> k in received
  }

  /** The packets below `n` that arrive intact, in order. */
  ghost function IntactBelow(packets: seq<Octets>, log: seq<Slot>, received: seq<nat>, n: nat): seq<Octets>
    requires n <= |packets|
  {
    if n == 0 then []
    else
      IntactBelow(packets, log, received, n - 1)
          + (if Intact(packets, log, received, n - 1) then [packets[n - 1]] else [])
  }

  // ---------------------------------------------------------------------------------------
  // One frame
  // ---------------------------------------------------------------------------------------

  // How far the packets have been emitted at position `x` when reception without a gap began at `from`.
  function Done(packets: seq<Octets>, from: nat, x: nat): nat {
    var f, b := FirstStart(packets, from), Floor(packets, x);
    if f <= b then b else f
  }

  // The channel's state at `x`: in sync exactly when a packet start has been seen since `from`.
  ghost predicate InStep(packets: seq<Octets>, from: nat, x: nat, vc: Vc)
    requires x <= |Flatten(packets)|
  {
    if FirstStart(packets, from) < FirstStart(packets, x) then
      vc.inSync && vc.pending == Flatten(packets)[Offset(packets, Floor(packets, x))..x]
    else !vc.inSync && vc.pending == []
  }

  // What a frame does to a channel that was in step.
  ghost predicate StaysInStep(packets: seq<Octets>, from: nat, lo: nat, hi: nat, o: Outcome)
    requires hi <= |Flatten(packets)|
  {
    var a, b := Done(packets, from, lo), Done(packets, from, hi);
    && a <= b <= |packets| && o.packets == packets[a..b]
    && InStep(packets, from, hi, o.vc) && o.dropped == 0
  }

  lemma DrainStream(packets: seq<Octets>, vc: Vc, i: nat, mid: nat, x: nat)
    requires AllWellFormed(packets) && i <= |packets| && Offset(packets, i) <= mid <= x <= |Flatten(packets)|
    requires vc.pending == Flatten(packets)[Offset(packets, i)..mid]
    ensures var s, b, o := Flatten(packets), Floor(packets, x), Drain(vc, Flatten(packets)[mid..x]);
            && i <= b && o.packets == packets[i..b] && o.dropped == 0
            && o.vc == vc.(pending := s[Offset(packets, b)..x])
  {
    hide AllWellFormed, Floor, Cut, Offset;
    var s := Flatten(packets);
    JoinStretches(s, Offset(packets, i), mid, x);
    CutStream(packets, i, x);
  }

  lemma IdleStep(packets: seq<Octets>, from: nat, x: nat, vc: Vc, part: Part)
    requires x <= |Flatten(packets)| && InStep(packets, from, x, vc)
    requires part.pointer == TmFrame.FHP_IDLE
    ensures StaysInStep(packets, from, x, x, Extract(vc, part))
  {
    hide InStep, Floor, FirstStart;
    DoneBounded(packets, from, x);
  }

  lemma DoneBounded(packets: seq<Octets>, from: nat, x: nat)
    ensures Done(packets, from, x) <= |packets|
  {
  }

  // No packet starts in the frame.
  lemma NoStartStep(packets: seq<Octets>, from: nat, lo: nat, hi: nat, vc: Vc, part: Part)
    requires AllWellFormed(packets) && from <= lo < hi <= |Flatten(packets)| && InStep(packets, from, lo, vc)
    requires part.pointer == TmFrame.FHP_NO_PACKET_START == PointerFor(packets, Slot(lo, hi))
    requires FirstStart(packets, lo) == FirstStart(packets, hi)
    requires part.data == Flatten(packets)[lo..hi]
    ensures StaysInStep(packets, from, lo, hi, Extract(vc, part))
  {
    hide AllWellFormed, Floor, FirstStart, Drain, Offset, PointerFor;
    FloorAndFirst(packets, lo);
    FloorAndFirst(packets, hi);
    FloorMonotone(packets, lo, hi);
    if FirstStart(packets, from) < FirstStart(packets, lo) {
      DrainStream(packets, vc, Floor(packets, lo), lo, hi);
    }
  }

  // A packet starts in the frame, at the octet its first header pointer gives.
  lemma StartStep(packets: seq<Octets>, from: nat, lo: nat, hi: nat, vc: Vc, part: Part)
    requires AllWellFormed(packets) && from <= lo < hi <= |Flatten(packets)| && InStep(packets, from, lo, vc)
    requires var j := FirstStart(packets, lo);
             && j < |packets| && lo <= Offset(packets, j) < hi && part.pointer == Offset(packets, j) - lo
             && IsOffset(part.pointer)
    requires part.data == Flatten(packets)[lo..hi]
    ensures StaysInStep(packets, from, lo, hi, Extract(vc, part))
  {
    hide AllWellFormed, Floor, FirstStart, Drain, Offset;
    var s, j, fhp := Flatten(packets), FirstStart(packets, lo), part.pointer;
    var at := Offset(packets, j);
    FloorAndFirst(packets, lo);
    FloorAndFirst(packets, hi);
    FloorOfOffset(packets, j);
    FloorMonotone(packets, at, hi);
    FirstMonotone(packets, from, lo);
    StartInside(packets, lo, hi);
    assert part.data[..fhp] == s[lo..at] && part.data[fhp..] == s[at..hi];
    var synced := Vc([], true, vc.lastCount);
    assert s[at..at] == [];
    DrainStream(packets, synced, j, at, hi);
    if vc.inSync {
      DrainStream(packets, vc, Floor(packets, lo), lo, at);
      assert packets[Floor(packets, lo)..j] + packets[j..Floor(packets, hi)]
          == packets[Floor(packets, lo)..Floor(packets, hi)];
    }
  }

  lemma StartInside(packets: seq<Octets>, lo: nat, hi: nat)
    requires FirstStart(packets, lo) < |packets| && Offset(packets, FirstStart(packets, lo)) < hi
    ensures FirstStart(packets, lo) < FirstStart(packets, hi)
  {
    hide FirstStart;
    var j, k := FirstStart(packets, lo), FirstStart(packets, hi);
    if k < |packets| {
      assert Offset(packets, k) >= hi && Offset(packets, j) >= lo;
    }
  }

  lemma NoStartInside(packets: seq<Octets>, lo: nat, hi: nat)
    requires lo <= hi
    requires FirstStart(packets, lo) == |packets| || Offset(packets, FirstStart(packets, lo)) >= hi
    ensures FirstStart(packets, lo) == FirstStart(packets, hi)
  {
    hide FirstStart;
    var j, k := FirstStart(packets, lo), FirstStart(packets, hi);
    FirstMonotone(packets, lo, hi);
    if j < |packets| {
      assert Offset(packets, j) >= hi;
    }
  }

  /** A frame taken in without a gap keeps the channel in step, whatever it carries. */
  lemma FrameKeepsStep(packets: seq<Octets>, from: nat, slot: Slot, vc: Vc, part: Part)
    requires AllWellFormed(packets) && from <= slot.lo <= slot.hi <= |Flatten(packets)|
    requires InStep(packets, from, slot.lo, vc)
    requires part.pointer == PointerFor(packets, slot)
    requires slot.lo < slot.hi ==> part.data == Flatten(packets)[slot.lo..slot.hi]
    requires slot.hi - slot.lo <= TmFrame.FHP_IDLE
    ensures StaysInStep(packets, from, slot.lo, slot.hi, Extract(vc, part))
  {
    hide AllWellFormed, Floor, FirstStart, Extract, Offset, InStep, StaysInStep;
    var lo, hi := slot.lo, slot.hi;
    if lo == hi {
      IdleStep(packets, from, lo, vc, part);
    } else {
      var j := FirstStart(packets, lo);
      if j < |packets| && Offset(packets, j) < hi {
        StartStep(packets, from, lo, hi, vc, part);
      } else {
        NoStartInside(packets, lo, hi);
        NoStartStep(packets, from, lo, hi, vc, part);
      }
    }
  }

  // ---------------------------------------------------------------------------------------
  // Slots and missing frames
  // ---------------------------------------------------------------------------------------

  lemma {:induction false} TiledOrder(log: seq<Slot>, k: nat, l: nat)
    requires Tiled(log) && k < l < |log|
    ensures log[k].hi <= log[l].lo
    decreases l
  {
    if k < l - 1 {
      TiledOrder(log, k, l - 1);
    }
  }

  // The slot that carries octet `x`.
  lemma {:induction false} SlotOf(log: seq<Slot>, l: nat, x: nat) returns (k: nat)
    requires Tiled(log) && l < |log| && x < log[l].lo
    ensures k < l && log[k].lo <= x < log[k].hi
    decreases l
  {
    assert l > 0;
    if x >= log[l - 1].lo {
      k := l - 1;
    } else {
      k := SlotOf(log, l - 1, x);
    }
  }

  predicate Increasing(received: seq<nat>) {
    forall i, m :: 0 <= i < m < |received| ==> received[i] < received[m]
  }

  // Where the unbroken reception that ends with frame `received[m - 1]` began.
  function RunStart(received: seq<nat>, m: nat): (i: nat)
    requires 0 < m <= |received|
    ensures i < m
    ensures i == 0 || received[i] != received[i - 1] + 1
    ensures forall l :: i <= l < m ==> received[l] == received[i] + (l - i)
  {
    if m == 1 || received[m - 1] != received[m - 2] + 1 then m - 1 else RunStart(received, m - 1)
  }

  // No frame touching packet `j` is missing from `received`.
  ghost predicate NoneMissing(packets: seq<Octets>, log: seq<Slot>, received: seq<nat>, j: nat)
    requires j < |packets|
  {
    forall k :: 0 <= k < |log| && Touches(log[k], Offset(packets, j), Offset(packets, j + 1)) ==> k in received
  }

  ghost predicate Setting(packets: seq<Octets>, log: seq<Slot>, received: seq<nat>) {
    && AllWellFormed(packets) && Tiled(log) && Increasing(received)
    && (forall i :: 0 <= i < |received| ==> received[i] < |log|)
  }

  // Stream position reached with the first `m` received frames.
  function Reached(log: seq<Slot>, received: seq<nat>, m: nat): nat
    requires m <= |received| && forall i :: 0 <= i < |received| ==> received[i] < |log|
  {
    if m == 0 then 0 else log[received[m - 1]].hi
  }

  // Stream position where the unbroken reception of the last of them began.
  function Since(log: seq<Slot>, received: seq<nat>, m: nat): nat
    requires 0 < m <= |received| && forall i :: 0 <= i < |received| ==> received[i] < |log|
  {
    log[received[RunStart(received, m)]].lo
  }

  lemma PacketInRunIsWhole(packets: seq<Octets>, log: seq<Slot>, received: seq<nat>, m: nat, j: nat)
    requires Setting(packets, log, received) && 0 < m <= |received| && j < |packets|
    requires Since(log, received, m) <= Offset(packets, j) && Offset(packets, j + 1) <= Reached(log, received, m)
    ensures NoneMissing(packets, log, received[..m], j)
  {
    hide AllWellFormed, Offset, RunStart;
    var i, last := RunStart(received, m), received[m - 1];
    forall k | 0 <= k < |log| && Touches(log[k], Offset(packets, j), Offset(packets, j + 1))
      ensures k in received[..m]
    {
      if k > last { TiledOrder(log, last, k); }
      if k < received[i] { TiledOrder(log, k, received[i]); }
      var l := i + (k - received[i]);
      assert received[last - received[i] + i] == last;
      assert received[l] == k && received[..m][l] == k;
    }
  }

  lemma PacketCutIsMissed(packets: seq<Octets>, log: seq<Slot>, received: seq<nat>, m: nat, j: nat)
    requires Setting(packets, log, received) && 0 < m <= |received| && j < |packets|
    requires Offset(packets, j) < Since(log, received, m) && Offset(packets, j) < Offset(packets, j + 1)
    requires Reached(log, received, m - 1) < Offset(packets, j + 1) <= Reached(log, received, m)
    ensures !NoneMissing(packets, log, received[..m], j)
  {
    hide AllWellFormed, Offset, RunStart;
    var i, last, end := RunStart(received, m), received[m - 1], Offset(packets, j + 1);
    if end <= log[last].lo {
      var k := SlotOf(log, last, end - 1);
      MissedBetween(packets, log, received, m, k);
      assert Touches(log[k], Offset(packets, j), end);
    } else {
      var c := received[i];
      assert c > 0;
      assert Touches(log[c - 1], Offset(packets, j), end) by {
        if c < last { TiledOrder(log, c, last); }
      }
      NotBefore(received, i, m);
    }
  }

  // A slot past everything received before, and before the last received one.
  lemma MissedBetween(packets: seq<Octets>, log: seq<Slot>, received: seq<nat>, m: nat, k: nat)
    requires Setting(packets, log, received) && 0 < m <= |received|
    requires k < received[m - 1] && Reached(log, received, m - 1) < log[k].hi
    ensures k !in received[..m]
  {
    hide AllWellFormed;
    if k in received[..m] {
      var l :| 0 <= l < m && received[..m][l] == k;
      assert l < m - 1;
      if l < m - 2 {
        TiledOrder(log, k, received[m - 2]);
      }
      assert false;
    }
  }

  lemma NotBefore(received: seq<nat>, i: nat, m: nat)
    requires Increasing(received) && i < m <= |received| && received[i] > 0
    requires i == 0 || received[i] != received[i - 1] + 1
    ensures received[i] - 1 !in received[..m]
  {
    forall l | 0 <= l < m ensures received[..m][l] != received[i] - 1 {
      if l < i - 1 { assert received[l] < received[i - 1] < received[i]; }
    }
  }

  // ---------------------------------------------------------------------------------------
  // Which packets have come out
  // ---------------------------------------------------------------------------------------

  ghost function WholeBelow(packets: seq<Octets>, log: seq<Slot>, received: seq<nat>, n: nat): seq<Octets>
    requires n <= |packets|
  {
    if n == 0 then []
    else
      WholeBelow(packets, log, received, n - 1)
          + (if NoneMissing(packets, log, received, n - 1) then [packets[n - 1]] else [])
  }

  // Later frames do not change the verdict on packets that ended before them.
  lemma {:induction false} VerdictStands(packets: seq<Octets>, log: seq<Slot>, received: seq<nat>, m: nat, n: nat)
    requires Setting(packets, log, received) && m < |received| && n <= |packets|
    requires Offset(packets, n) <= Reached(log, received, m)
    ensures WholeBelow(packets, log, received[..m + 1], n) == WholeBelow(packets, log, received[..m], n)
    decreases n
  {
    hide AllWellFormed, Offset;
    if n > 0 {
      OffsetMonotone(packets, n - 1, n);
      VerdictStands(packets, log, received, m, n - 1);
      var j := n - 1;
      if m == 0 {
        OffsetStrict(packets, j, n);
        assert false;
      }
      var r := received[m - 1];
      forall k | 0 <= k < |log| && Touches(log[k], Offset(packets, j), Offset(packets, n))
        ensures k in received[..m + 1] <==> k in received[..m]
      {
        if k > r { TiledOrder(log, r, k); }
        assert received[..m + 1] == received[..m] + [received[m]];
      }
    }
  }

  // The packets that end in the last frame come out exactly if they started within the unbroken reception.
  lemma {:induction false} NewlyWhole(packets: seq<Octets>, log: seq<Slot>, received: seq<nat>, m: nat, n: nat)
    requires Setting(packets, log, received) && m < |received| && n <= |packets|
    requires Offset(packets, n) <= Reached(log, received, m + 1)
    requires Floor(packets, Reached(log, received, m)) <= n
    ensures var b, f := Floor(packets, Reached(log, received, m)), FirstStart(packets, Since(log, received, m + 1));
            var a := if f <= b then b else f;
            WholeBelow(packets, log, received[..m + 1], n)
            == WholeBelow(packets, log, received[..m + 1], b) + (if a <= n then packets[a..n] else [])
    decreases n
  {
    hide AllWellFormed, Offset, Floor, FirstStart, NoneMissing, Reached, Since;
    var before, since := Reached(log, received, m), Since(log, received, m + 1);
    var b, f := Floor(packets, before), FirstStart(packets, since);
    if n > b {
      var j := n - 1;
      OffsetStrict(packets, j, n);
      NewlyWhole(packets, log, received, m, j);
      OffsetMonotone(packets, b + 1, n);
      if f <= j {
        OffsetMonotone(packets, f, j);
        PacketInRunIsWhole(packets, log, received, m + 1, j);
      } else {
        PacketCutIsMissed(packets, log, received, m + 1, j);
      }
    }
  }

  // ---------------------------------------------------------------------------------------
  // The whole reception
  // ---------------------------------------------------------------------------------------

  // The first `m` received frames have been dealt with.
  ghost predicate SoFar(packets: seq<Octets>, log: seq<Slot>, received: seq<nat>, m: nat, o: Outcome)
    requires m <= |received| && forall i :: 0 <= i < |received| ==> received[i] < |log|
    requires Reached(log, received, m) <= |Flatten(packets)|
  {
    && (if m == 0 then o.vc == FRESH
        else o.vc.lastCount == Some(CountAt(received[m - 1]))
             && InStep(packets, Since(log, received, m), Reached(log, received, m), o.vc))
    && o.packets == WholeBelow(packets, log, received[..m], Floor(packets, Reached(log, received, m)))
  }

  // The counter shows a gap exactly when frames are missing.
  lemma GapShows(received: seq<nat>, m: nat, vc: Vc, part: Part)
    requires Increasing(received) && LossesShow(received) && 0 < m < |received|
    requires vc.lastCount == Some(CountAt(received[m - 1])) && part.count == CountAt(received[m])
    ensures IsGap(vc, part) <==> received[m] != received[m - 1] + 1
  {
    CountAtCollides(received[m], received[m - 1] + 1);
    assert CountAt(received[m - 1] + 1) == Next(CountAt(received[m - 1]));
    assert received[m - 1] < received[m];
    SameRemainder(received[m], received[m - 1] + 1);
  }

  lemma SameRemainder(a: nat, b: nat)
    requires a >= b
    ensures a % 256 == b % 256 <==> (a - b) % 256 == 0
  {
  }

  // Whether or not frames are missing before it, the next frame finds the channel in step.
  lemma NextFrameInStep(packets: seq<Octets>, log: seq<Slot>, received: seq<nat>, m: nat, vc: Vc, part: Part)
    requires Setting(packets, log, received) && LossesShow(received) && m < |received|
    requires Reached(log, received, m) <= log[received[m]].lo <= |Flatten(packets)|
    requires part.count == CountAt(received[m])
    requires if m == 0 then vc == FRESH
             else vc.lastCount == Some(CountAt(received[m - 1]))
                  && InStep(packets, Since(log, received, m), Reached(log, received, m), vc)
    ensures InStep(packets, Since(log, received, m + 1), log[received[m]].lo, Counted(vc, part))
    ensures Since(log, received, m + 1) <= log[received[m]].lo
    ensures (m > 0 && received[m] == received[m - 1] + 1) || Since(log, received, m + 1) == log[received[m]].lo
    ensures m > 0 && received[m] == received[m - 1] + 1 ==> log[received[m]].lo == Reached(log, received, m)
  {
    hide AllWellFormed, Floor, FirstStart;
    if m > 0 {
      GapShows(received, m, vc, part);
      if received[m] == received[m - 1] + 1 {
        var i := RunStart(received, m + 1);
        if received[i] < received[m] { TiledOrder(log, received[i], received[m]); }
      }
    }
  }

  // Two accounts of how far emission had come before the last frame.
  lemma DoneBefore(packets: seq<Octets>, since: nat, before: nat, lo: nat)
    requires AllWellFormed(packets) && before <= lo <= |Flatten(packets)|
    requires before == lo || since == lo
    ensures var b, f := Floor(packets, before), FirstStart(packets, since);
            Done(packets, since, lo) == if f <= b then b else f
  {
    hide AllWellFormed, Floor, FirstStart;
    if before != lo {
      FloorAndFirst(packets, lo);
      FloorMonotone(packets, before, lo);
    }
  }

  lemma ReachedInOrder(packets: seq<Octets>, log: seq<Slot>, received: seq<nat>, m: nat)
    requires Setting(packets, log, received) && m < |received|
    ensures Reached(log, received, m) <= log[received[m]].lo <= log[received[m]].hi == Reached(log, received, m + 1)
  {
    hide AllWellFormed;
    if m > 0 {
      TiledOrder(log, received[m - 1], received[m]);
    }
  }

  lemma OneMoreReceived(packets: seq<Octets>, log: seq<Slot>, received: seq<nat>, m: nat, o: Outcome, part: Part)
    requires Setting(packets, log, received) && LossesShow(received) && m < |received|
    requires Carries(packets, log, received[m], part)
    requires log[received[m]].hi - log[received[m]].lo <= TmFrame.FHP_IDLE
    requires Reached(log, received, m) <= |Flatten(packets)|
    requires SoFar(packets, log, received, m, o)
    ensures Reached(log, received, m + 1) <= |Flatten(packets)|
    ensures var r := Receive(o.vc, part);
            && SoFar(packets, log, received, m + 1, r.(packets := o.packets + r.packets))
            && (r.gaps == 0 ==> r.dropped == 0)
            && (r.gaps == 0 <==> m == 0 || received[m] == received[m - 1] + 1)
  {
    hide AllWellFormed, Floor, FirstStart, Extract, Offset, InStep, Since, WholeBelow, PointerFor, TmFrame.FHP_IDLE;
    var slot, before := log[received[m]], Reached(log, received, m);
    ReachedInOrder(packets, log, received, m);
    NextFrameInStep(packets, log, received, m, o.vc, part);
    var since, vc := Since(log, received, m + 1), Counted(o.vc, part);
    FrameKeepsStep(packets, since, slot, vc, part);
    var e := Extract(vc, part);
    ExtractKeepsCount(vc, part);
    if m > 0 {
      GapShows(received, m, o.vc, part);
    }
    DoneBefore(packets, since, before, slot.lo);
    EmissionIsNewlyWhole(packets, log, received, m, e.packets);
  }

  lemma ExtractKeepsCount(vc: Vc, part: Part)
    ensures Extract(vc, part).vc.lastCount == vc.lastCount && Extract(vc, part).gaps == 0
  {
    hide Cut;
  }

  lemma EmissionIsNewlyWhole(packets: seq<Octets>, log: seq<Slot>, received: seq<nat>, m: nat, out: seq<Octets>)
    requires Setting(packets, log, received) && m < |received|
    requires var before, hi, since := Reached(log, received, m), Reached(log, received, m + 1),
        Since(log, received, m + 1);
             var b, f := Floor(packets, before), FirstStart(packets, since);
             var a := if f <= b then b else f;
             var d := if f <= Floor(packets, hi) then Floor(packets, hi) else f;
             a <= d <= |packets| && out == packets[a..d] && before <= hi
    ensures WholeBelow(packets, log, received[..m + 1], Floor(packets, Reached(log, received, m + 1)))
            == WholeBelow(packets, log, received[..m], Floor(packets, Reached(log, received, m))) + out
  {
    hide AllWellFormed, Floor, FirstStart, Offset, Since, WholeBelow, Reached;
    var before, hi := Reached(log, received, m), Reached(log, received, m + 1);
    FloorMonotone(packets, before, hi);
    VerdictStands(packets, log, received, m, Floor(packets, before));
    NewlyWhole(packets, log, received, m, Floor(packets, hi));
  }

  // Frames at which the counter jumps, among the first `m` received.
  function Breaks(received: seq<nat>, m: nat): nat
    requires m <= |received|
  {
    if m <= 1 then 0 else Breaks(received, m - 1) + (if received[m - 1] != received[m - 2] + 1 then 1 else 0)
  }

  lemma {:induction false} ReceptionSoFar(
      packets: seq<Octets>, log: seq<Slot>, received: seq<nat>, parts: seq<Part>, m: nat)
    requires Setting(packets, log, received) && LossesShow(received) && m <= |received|
    requires Receives(packets, log, received, parts)
    requires forall k :: 0 <= k < |log| ==> log[k].hi - log[k].lo <= TmFrame.FHP_IDLE
    ensures Reached(log, received, m) <= |Flatten(packets)|
    ensures SoFar(packets, log, received, m, Run(parts[..m]))
    ensures Run(parts[..m]).gaps == Breaks(received, m)
    ensures Run(parts[..m]).gaps == 0 ==> Run(parts[..m]).dropped == 0
    decreases m
  {
    hide AllWellFormed, Tiled, Floor, Receive, SoFar, LossesShow, Reached, Carries;
    if m == 0 {
      NothingSoFar(packets, log, received);
      assert parts[..0] == [];
    } else {
      ReceptionSoFar(packets, log, received, parts, m - 1);
      var o := Run(parts[..m - 1]);
      assert Carries(packets, log, received[m - 1], parts[m - 1]);
      OneMoreReceived(packets, log, received, m - 1, o, parts[m - 1]);
      assert parts[..m][..|parts[..m]| - 1] == parts[..m - 1];
      var r := Receive(o.vc, parts[m - 1]);
      GapsAtMostOne(o.vc, parts[m - 1]);
      SameVcAndPackets(packets, log, received, m, r.(packets := o.packets + r.packets), Run(parts[..m]));
    }
  }

  lemma NothingSoFar(packets: seq<Octets>, log: seq<Slot>, received: seq<nat>)
    requires Setting(packets, log, received)
    ensures Reached(log, received, 0) == 0 && SoFar(packets, log, received, 0, Nothing(FRESH))
  {
    hide AllWellFormed, Tiled, Floor;
    OffsetEnds(packets);
    FloorOfOffset(packets, 0);
  }

  lemma GapsAtMostOne(vc: Vc, part: Part)
    ensures Receive(vc, part).gaps <= 1
  {
    hide Extract;
    ExtractKeepsCount(Counted(vc, part), part);
  }

  lemma SameVcAndPackets(packets: seq<Octets>, log: seq<Slot>, received: seq<nat>, m: nat, o: Outcome, o': Outcome)
    requires m <= |received| && forall i :: 0 <= i < |received| ==> received[i] < |log|
    requires Reached(log, received, m) <= |Flatten(packets)|
    requires SoFar(packets, log, received, m, o) && o'.vc == o.vc && o'.packets == o.packets
    ensures SoFar(packets, log, received, m, o')
  {
  }

  // Past the last received frame nothing is whole.
  lemma {:induction false} NothingPastTheLast(packets: seq<Octets>, log: seq<Slot>, received: seq<nat>, n: nat)
    requires Setting(packets, log, received) && Reached(log, received, |received|) <= |Flatten(packets)|
    requires Floor(packets, Reached(log, received, |received|)) <= n <= |packets|
    ensures IntactBelow(packets, log, received, n)
            == WholeBelow(packets, log, received, Floor(packets, Reached(log, received, |received|)))
    decreases n
  {
    hide AllWellFormed, Floor, Offset;
    var end := Reached(log, received, |received|);
    var b := Floor(packets, end);
    if n > b {
      NothingPastTheLast(packets, log, received, n - 1);
      OffsetMonotone(packets, b + 1, n);
      LatePacketIsNotIntact(packets, log, received, n - 1);
    } else {
      EarlyPacketsAreSent(packets, log, received, n);
    }
  }

  lemma LatePacketIsNotIntact(packets: seq<Octets>, log: seq<Slot>, received: seq<nat>, j: nat)
    requires Setting(packets, log, received) && j < |packets|
    requires Offset(packets, j + 1) > Reached(log, received, |received|)
    ensures !Intact(packets, log, received, j)
  {
    hide AllWellFormed, Offset;
    var from, to := Offset(packets, j), Offset(packets, j + 1);
    assert from < to by { OffsetStrict(packets, j, j + 1); }
    if to <= Carried(log) {
      var l := |log| - 1;
      var k: nat;
      if to - 1 < log[l].lo {
        k := SlotOf(log, l, to - 1);
      } else {
        k := l;
      }
      assert Touches(log[k], from, to);
      AfterTheLast(log, received, k);
    }
  }

  lemma AfterTheLast(log: seq<Slot>, received: seq<nat>, k: nat)
    requires Tiled(log) && Increasing(received) && k < |log| && forall i :: 0 <= i < |received| ==> received[i] < |log|
    requires log[k].hi > Reached(log, received, |received|)
    ensures k !in received
  {
    forall i | 0 <= i < |received| ensures received[i] != k {
      if i < |received| - 1 {
        TiledOrder(log, received[i], received[|received| - 1]);
      }
    }
  }

  lemma {:induction false} EarlyPacketsAreSent(packets: seq<Octets>, log: seq<Slot>, received: seq<nat>, n: nat)
    requires Setting(packets, log, received) && n <= |packets|
    requires Offset(packets, n) <= Reached(log, received, |received|)
    ensures IntactBelow(packets, log, received, n) == WholeBelow(packets, log, received, n)
    decreases n
  {
    hide AllWellFormed, Offset;
    if n > 0 {
      OffsetMonotone(packets, n - 1, n);
      EarlyPacketsAreSent(packets, log, received, n - 1);
      if received == [] {
        OffsetStrict(packets, n - 1, n);
        assert false;
      }
      var r := received[|received| - 1];
      if r < |log| - 1 { TiledOrder(log, r, |log| - 1); }
    }
  }

  /**
   Loss locality: however many frames of a channel are missing, a fresh receiver puts out, in order,
   exactly the packets that touch no missing frame.  It counts one gap for each break, and abandons
   nothing when there is none.
   */
  lemma LossIsLocal(packets: seq<Octets>, log: seq<Slot>, received: seq<nat>, parts: seq<Part>)
    requires AllWellFormed(packets) && Tiled(log)
    requires forall k :: 0 <= k < |log| ==> log[k].hi - log[k].lo <= TmFrame.FHP_IDLE
    requires Receives(packets, log, received, parts) && LossesShow(received)
    ensures Run(parts).packets == IntactBelow(packets, log, received, |packets|)
    ensures Run(parts).gaps == Breaks(received, |received|)
    ensures Breaks(received, |received|) == 0 ==> Run(parts).dropped == 0
  {
    hide AllWellFormed, Tiled, Floor, Offset, Run, WholeBelow, IntactBelow, LossesShow;
    assert forall i :: 0 <= i < |received| ==> Carries(packets, log, received[i], parts[i]);
    ReceptionSoFar(packets, log, received, parts, |received|);
    assert parts[..|received|] == parts && received[..|received|] == received;
    NothingPastTheLast(packets, log, received, |packets|);
  }

  /** Without any loss, every packet sent whole comes out, with no gap and nothing abandoned. */
  lemma {:induction false} NoLossNoBreak(received: seq<nat>, m: nat)
    requires m <= |received| && forall i :: 0 <= i < |received| ==> received[i] == i
    ensures Breaks(received, m) == 0
    decreases m
  {
    if m > 1 {
      NoLossNoBreak(received, m - 1);
    }
  }

  /**
   Why `LossesShow` is needed: when a nonzero multiple of 256 frames is lost in the middle of a
   packet, the octets of a later frame, whatever they are, are taken for the rest of it.
   */
  lemma HiddenLossForgesPacket(packet: Octets, n: nat, forged: Octets, k: nat, lost: nat)
    requires WellFormed(packet) && PACKET_HEADER_LEN <= n < |packet| && |forged| == |packet| - n
    requires lost > 0 && lost % 256 == 0
    ensures Run([Part(CountAt(k), 0, packet[..n]),
        Part(CountAt(k + lost + 1), TmFrame.FHP_NO_PACKET_START, forged)]).packets
            == [packet[..n] + forged]
  {
    hide WellFormed, Receive;
    var first, second := Part(CountAt(k), 0, packet[..n]),
        Part(CountAt(k + lost + 1), TmFrame.FHP_NO_PACKET_START, forged);
    CountAtCollides(k + lost + 1, k + 1);
    PacketOpens(FRESH, packet, n, first);
    PacketCloses(packet, n, forged, CountAt(k), second);
    RunOfTwo(first, second);
  }

  // A log of `n` full frames of `d` octets.
  function FullFrames(d: nat, n: nat): (log: seq<Slot>)
    ensures |log| == n && forall k :: 0 <= k < n ==> log[k] == Slot(k * d, (k + 1) * d)
  {
    seq(n, k requires 0 <= k < n => Slot(k * d, (k + 1) * d))
  }

  lemma FullFramesAreTiled(d: nat, n: nat)
    ensures Tiled(FullFrames(d, n))
  {
    assert forall k :: 0 <= k < n ==> k * d + d == (k + 1) * d;
  }

  lemma OffsetsOfTwo(p: Octets, q: Octets)
    ensures Offset([p, q], 0) == 0 && Offset([p, q], 1) == |p| && Offset([p, q], 2) == |p| + |q|
    ensures Flatten([p, q]) == p + q
  {
    assert [p, q] == [p] + [q];
    FlattenAppend([p], [q]);
    FlattenOne(p);
    FlattenOne(q);
    OffsetNext([p, q], 0);
    OffsetNext([p, q], 1);
  }

  /**
   What a sender's log is like when that happens: any packet of two frames, any packet of 256 frames
   behind it, all sent, and only the first and the last frame received.  No packet arrives intact, and
   one comes out that was never sent: the start of the first packet with the end of the second.
   */
  lemma HiddenLossBreaksLocality(p: Octets, q: Octets, d: nat, parts: seq<Part>)
    requires WellFormed(p) && WellFormed(q) && d >= PACKET_HEADER_LEN && |p| == 2 * d && |q| == 256 * d
    requires Receives([p, q], FullFrames(d, 258), [0, 257], parts)
    ensures AllWellFormed([p, q]) && Tiled(FullFrames(d, 258)) && Carried(FullFrames(d, 258)) == |Flatten([p, q])|
    ensures !LossesShow([0, 257])
    ensures IntactBelow([p, q], FullFrames(d, 258), [0, 257], 2) == []
    ensures Run(parts).packets == [p[..d] + q[255 * d..]]
  {
    hide WellFormed, Receives, Run, CountAt, Intact, IntactBelow, Tiled, LossesShow;
    FullFramesAreTiled(d, 258);
    OffsetsOfTwo(p, q);
    NothingIntact(p, q, d);
    LossDoesNotShow();
    OnlyEndsCarried(p, q, d, parts);
    HiddenLossForgesPacket(p, d, q[255 * d..], 0, 256);
  }

  lemma LossDoesNotShow()
    ensures !LossesShow([0, 257])
  {
    var received: seq<nat> := [0, 257];
    assert received[1] - received[1 - 1] - 1 == 256;
  }

  lemma NothingIntact(p: Octets, q: Octets, d: nat)
    requires d > 0 && |p| == 2 * d && |q| == 256 * d
    ensures IntactBelow([p, q], FullFrames(d, 258), [0, 257], 2) == []
  {
    hide Offset, Touches;
    var packets, log, received := [p, q], FullFrames(d, 258), [0, 257];
    OffsetsOfTwo(p, q);
    assert Touches(log[1], Offset(packets, 0), Offset(packets, 1)) by { TouchedBy(d, 2 * d, 0, 2 * d); }
    assert Touches(log[2], Offset(packets, 1), Offset(packets, 2)) by { TouchedBy(2 * d, 3 * d, 2 * d, 258 * d); }
    assert !Intact(packets, log, received, 0) && !Intact(packets, log, received, 1);
    assert IntactBelow(packets, log, received, 0) == [] && IntactBelow(packets, log, received, 1) == [];
  }

  lemma TouchedBy(lo: nat, hi: nat, from: nat, to: nat)
    requires lo < to && from < hi
    ensures Touches(Slot(lo, hi), from, to)
  {
  }

  lemma OnlyEndsCarried(p: Octets, q: Octets, d: nat, parts: seq<Part>)
    requires d > 0 && |p| == 2 * d && |q| == 256 * d && Receives([p, q], FullFrames(d, 258), [0, 257], parts)
    ensures parts == [Part(CountAt(0), 0, p[..d]), Part(CountAt(257), TmFrame.FHP_NO_PACKET_START, q[255 * d..])]
  {
    hide CountAt;
    var packets, log := [p, q], FullFrames(d, 258);
    OffsetsOfTwo(p, q);
    assert Carries(packets, log, 0, parts[0]) && Carries(packets, log, 257, parts[1]);
    assert FirstStart(packets, 0) == 0;
    assert FirstStart(packets, 257 * d) == 2;
    assert Flatten(packets)[0..d] == p[..d];
    assert Flatten(packets)[257 * d..258 * d] == q[255 * d..];
  }

  // The first frame of a packet leaves it pending, on a channel that holds nothing.
  lemma PacketOpens(vc: Vc, packet: Octets, n: nat, first: Part)
    requires vc.pending == [] && !vc.inSync
    requires WellFormed(packet) && n < |packet| && n > 0 && first.pointer == 0 && first.data == packet[..n]
    ensures var r := Receive(vc, first);
            r.vc == Vc(packet[..n], true, Some(first.count)) && r.packets == []
  {
    hide WellFormed, VersionOf, U16, HasVersion0;
    PrefixIsIncomplete(packet, n);
    assert first.data[0..] == packet[..n] && [] + packet[..n] == packet[..n];
    assert Cut(packet[..n]) == Cutting([], packet[..n], false);
  }

  // The next count with as many octets as are missing completes it, whatever they are.
  lemma PacketCloses(packet: Octets, n: nat, rest: Octets, count: bv8, second: Part)
    requires WellFormed(packet) && PACKET_HEADER_LEN <= n < |packet| && |rest| == |packet| - n
    requires second == Part(Next(count), TmFrame.FHP_NO_PACKET_START, rest)
    ensures var r := Receive(Vc(packet[..n], true, Some(count)), second);
            r.packets == [packet[..n] + rest] && r.vc.pending == []
  {
    hide VersionOf, U16, DeclaredLength, HasVersion0;
    var whole := packet[..n] + rest;
    assert whole[..PACKET_HEADER_LEN] == packet[..PACKET_HEADER_LEN];
    SameHeader(packet, whole);
    assert whole[..|whole|] == whole && whole[|whole|..] == [];
    assert Cut([]) == Cutting([], [], false);
    assert Cut(whole) == Cutting([whole], [], false);
  }

  lemma RunOfTwo(first: Part, second: Part)
    ensures var a := Receive(FRESH, first);
            Run([first, second]).packets == a.packets + Receive(a.vc, second).packets
  {
    hide Receive;
    assert [first, second][..1] == [first] && [first][..0] == [];
    assert Run([first]).packets == Run([]).packets + Receive(FRESH, first).packets;
    assert Run([first]).vc == Receive(FRESH, first).vc;
  }
}
