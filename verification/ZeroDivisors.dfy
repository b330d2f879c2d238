/**
 When a weight of the interpolation divides by zero.  Epochs strictly increase, but their distances
 from the first epoch of a window need not: a leap second's fraction runs into the next second, and
 floating-point numbers merge distances that are long and close together.
 */
module ZeroDivisors {
  import Doubles
  import opened Instants
  import opened Lagrange
  import opened Octets
  import opened Oem

  // Epoch `i`, counted from the first epoch of the window.
  function Offset(s: Segment, first: nat, i: nat): int
    requires first < |s.epochs| && i < |s.epochs|
  {
    Elapsed(s.epochs[i], s.epochs[first])
  }

  predicate IsWindow(s: Segment, first: nat, k: nat) {
    ValidSegment(s) && k > 0 && first + k <= |s.states|
  }

  /** No epoch of the window is further than `limit` nanoseconds from its first. */
  predicate Within(s: Segment, first: nat, k: nat, limit: int)
    requires IsWindow(s, first, k)
  {
    forall i :: first <= i < first + k ==> Offset(s, first, i) <= limit
  }

  /** No two epochs of the window have the same distance from its first. */
  predicate Apart(s: Segment, first: nat, k: nat)
    requires IsWindow(s, first, k)
  {
    forall i, j :: first <= i < j < first + k ==> Offset(s, first, i) != Offset(s, first, j)
  }

  // ---------------------------------------------------------------------------------------
  // Short windows
  // ---------------------------------------------------------------------------------------

  /**
   In a window of less than 97 days rounding merges nothing: a weight divides by zero exactly when two
   epochs have the same distance from the first.
   */
  lemma ShortWindowsDecide(s: Segment, first: nat, k: nat)
    requires IsWindow(s, first, k) && Within(s, first, k, Doubles.FIRST_MERGE - 1)
    ensures Resolved(s, first, k) <==> Apart(s, first, k)
  {
    hide Doubles.Signed, Elapsed, Increasing;
    forall i, j | first <= i < j < first + k
      ensures Held(s, first, i) == Held(s, first, j) <==> Offset(s, first, i) == Offset(s, first, j)
    {
      OffsetIsAtLeast(s, first, i);
      OffsetIsAtLeast(s, first, j);
      var a, b := Offset(s, first, i), Offset(s, first, j);
      assert a <= Doubles.FIRST_MERGE - 1 && b <= Doubles.FIRST_MERGE - 1;
      if a < b {
        Doubles.SignedDistinct(a, b);
      } else if b < a {
        Doubles.SignedDistinct(b, a);
      }
    }
  }

  /** No epoch lies in a leap second that the second after it runs into. */
  predicate NoOverlap(s: Segment, first: nat, k: nat)
    requires IsWindow(s, first, k)
  {
    forall i, j :: first <= i < j < first + k ==> !Overlaps(s.epochs[i], s.epochs[j])
  }

  predicate AllLeapsAtDayEnd(s: Segment, first: nat, k: nat)
    requires IsWindow(s, first, k)
  {
    forall i :: first <= i < first + k ==> LeapsAtDayEnd(s.epochs[i])
  }

  /**
   With leap seconds where UTC has them, at the ends of days, a weight in such a window divides by zero
   exactly when one epoch is in a leap second and another has its fraction in the second after it.
   */
  lemma LeapSecondsDecide(s: Segment, first: nat, k: nat)
    requires IsWindow(s, first, k) && Within(s, first, k, Doubles.FIRST_MERGE - 1)
    requires AllLeapsAtDayEnd(s, first, k)
    ensures Resolved(s, first, k) <==> NoOverlap(s, first, k)
  {
    hide Resolved, Position, Elapsed, Overlaps, LeapsAtDayEnd;
    ShortWindowsDecide(s, first, k);
    forall i, j | first <= i < j < first + k
      ensures Offset(s, first, i) == Offset(s, first, j) <==> Overlaps(s.epochs[i], s.epochs[j])
    {
      ElapsedIsPosition(s.epochs[i], s.epochs[first]);
      ElapsedIsPosition(s.epochs[j], s.epochs[first]);
      SamePositionExactly(s.epochs[i], s.epochs[j]);
    }
  }

  // The two ways two epochs can meet when the text puts a leap second at the end of any minute.
  predicate Meet(t: Instant, u: Instant, from: Instant) {
    (Overlaps(t, u) && TimeOfDay(t) >= TimeOfDay(from)) || FallsBack(t, u, from)
  }

  predicate LeapsAtMinuteEnd(t: Instant) {
    Ordinary(t) || t.secs % 60 == 59
  }

  /**
   The same for every epoch that can be written, second 60 of any minute included, in a window that
   does not begin in a leap second.
   */
  lemma WrittenLeapSecondsDecide(s: Segment, first: nat, k: nat)
    requires IsWindow(s, first, k) && Within(s, first, k, Doubles.FIRST_MERGE - 1)
    requires Ordinary(s.epochs[first]) && forall i :: first <= i < first + k ==> LeapsAtMinuteEnd(s.epochs[i])
    ensures Resolved(s, first, k)
        <==> forall i, j :: first <= i < j < first + k ==> !Meet(s.epochs[i], s.epochs[j], s.epochs[first])
  {
    hide Resolved, Elapsed, Overlaps, FallsBack, Rank;
    ShortWindowsDecide(s, first, k);
    forall i, j | first <= i < j < first + k
      ensures Offset(s, first, i) == Offset(s, first, j) <==> Meet(s.epochs[i], s.epochs[j], s.epochs[first])
    {
      assert LeapsAtMinuteEnd(s.epochs[i]) && LeapsAtMinuteEnd(s.epochs[j]);
      SameDistanceExactly(s.epochs[i], s.epochs[j], s.epochs[first]);
    }
  }

  /** Without epochs in leap seconds, no weight in such a window divides by zero. */
  lemma OrdinaryShortWindowsAreResolved(s: Segment, first: nat, k: nat)
    requires IsWindow(s, first, k) && Within(s, first, k, Doubles.FIRST_MERGE - 1)
    requires forall i :: first <= i < first + k ==> Ordinary(s.epochs[i])
    ensures Resolved(s, first, k)
  {
    hide Resolved, Position, Elapsed;
    LeapSecondsDecide(s, first, k);
  }

  function Still(n: nat): seq<seq<real>> {
    seq(n, _ => seq(6, _ => 0.0))
  }

  /** 23:59:59, 23:59:60 and 00:00:00 around the leap second of 30 June 2015. */
  function LeapSecondSegment(): Segment {
    var t, l, u := Instant(1_435_708_799, 0), Instant(1_435_708_799, NANO), Instant(1_435_708_800, 0);
    Segment("", "", Itrf, Utc, 7, t, u, [t, l, u], Still(3))
  }

  /** Three epochs a second apart as they are written, all leap seconds in place: a weight divides by zero. */
  lemma LeapSecondDivides()
    ensures var s := LeapSecondSegment();
            && IsWindow(s, 0, 3) && AllLeapsAtDayEnd(s, 0, 3) && Within(s, 0, 3, NANO) && !NoOverlap(s, 0, 3)
            && forall time :: Covers(s, time) ==>
                 WindowStart(s, time) == 0 && WindowSize(s) == 3 && !Smooth(s, time) && StateAt(s, time) == None
  {
    hide PartitionPoint, Doubles.Signed;
    var s := LeapSecondSegment();
    assert Overlaps(s.epochs[1], s.epochs[2]);
    assert Held(s, 0, 1) == Held(s, 0, 2);
  }

  // ---------------------------------------------------------------------------------------
  // How long a window may be
  // ---------------------------------------------------------------------------------------

  // `n` nanoseconds after 1970, with no leap seconds.
  function At(n: nat): Instant {
    Instant(n / NANO, n % NANO)
  }

  lemma AtIsOrdinary(n: nat, m: nat)
    ensures Ordinary(At(n)) && Elapsed(At(n), At(m)) == n - m
    ensures n < m ==> Rank(At(n)) < Rank(At(m))
  {
    if n < m {
      assert n / NANO <= m / NANO;
    }
  }

  // A segment with epochs at these offsets.
  function SegmentAt(a: nat, b: nat): Segment {
    Segment("", "", Itrf, Utc, 7, At(0), At(b), [At(0), At(a), At(b)], Still(3))
  }

  lemma SegmentAtIsValid(a: nat, b: nat)
    requires 0 < a < b
    ensures var s := SegmentAt(a, b);
            && IsWindow(s, 0, 3) && Offset(s, 0, 0) == 0 && Offset(s, 0, 1) == a && Offset(s, 0, 2) == b
            && Covers(s, At(0)) && WindowStart(s, At(0)) == 0 && WindowSize(s) == 3
  {
    hide At, Elapsed, Rank;
    AtIsOrdinary(0, a);
    AtIsOrdinary(a, b);
    AtIsOrdinary(0, b);
    AtIsOrdinary(0, 0);
    AtIsOrdinary(a, 0);
    AtIsOrdinary(b, 0);
    var s := SegmentAt(a, b);
    assert PartitionPoint(s.epochs, At(0)) <= 3;
  }

  // The window around `time` is no longer than `limit`, and its epochs have different distances.
  predicate Harmless(s: Segment, time: Instant, limit: int)
    requires ValidSegment(s)
  {
    var k, first := WindowSize(s), WindowStart(s, time);
    IsWindow(s, first, k) && Within(s, first, k, limit) && Apart(s, first, k)
  }

  /**
   How long windows may be: that no weight divides by zero, whatever the segment and the time, unless
   two epochs have the same distance from the first of the window, is so exactly for windows of less
   than 8 388 608.000000002 seconds, 97 days.
   */
  lemma SpanDecides(limit: nat)
    ensures (forall s: Segment, time: Instant ::
              ValidSegment(s) && Covers(s, time) && Harmless(s, time, limit) ==> Smooth(s, time))
        <==> limit < Doubles.FIRST_MERGE
  {
    hide WindowStart, WindowSize, Resolved, Elapsed, Doubles.Signed, Apart, Covers;
    if limit < Doubles.FIRST_MERGE {
      forall s: Segment, time: Instant | ValidSegment(s) && Covers(s, time) && Harmless(s, time, limit)
        ensures Smooth(s, time)
      {
        ShortWindowsDecide(s, WindowStart(s, time), WindowSize(s));
      }
    } else {
      FirstMergeMerges();
      var s := SegmentAt(Doubles.FIRST_MERGE - 1, Doubles.FIRST_MERGE);
      assert Harmless(s, At(0), limit);
    }
  }

  lemma FirstMergeMerges()
    ensures var s := SegmentAt(Doubles.FIRST_MERGE - 1, Doubles.FIRST_MERGE);
            && IsWindow(s, 0, 3) && Covers(s, At(0)) && WindowStart(s, At(0)) == 0 && WindowSize(s) == 3
            && Within(s, 0, 3, Doubles.FIRST_MERGE) && Apart(s, 0, 3) && !Resolved(s, 0, 3)
  {
    hide WindowStart, WindowSize, Elapsed, At, Covers, SegmentAt;
    SegmentAtIsValid(Doubles.FIRST_MERGE - 1, Doubles.FIRST_MERGE);
    Doubles.AroundTheFirstMerge();
    var s := SegmentAt(Doubles.FIRST_MERGE - 1, Doubles.FIRST_MERGE);
    assert Held(s, 0, 1) == Held(s, 0, 2);
  }

  // ---------------------------------------------------------------------------------------
  // Longer windows
  // ---------------------------------------------------------------------------------------

  /** Any two epochs of the window are `d` nanoseconds apart, counted from its first. */
  predicate Spaced(s: Segment, first: nat, k: nat, d: nat)
    requires IsWindow(s, first, k)
  {
    forall i, j :: first <= i < j < first + k ==>
      Offset(s, first, i) + d <= Offset(s, first, j) || Offset(s, first, j) + d <= Offset(s, first, i)
  }

  /** Within 292 years, no weight divides by zero when the epochs are 2048 nanoseconds apart. */
  lemma SpacedEpochsAreResolved(s: Segment, first: nat, k: nat)
    requires IsWindow(s, first, k) && Within(s, first, k, Doubles.I64_LIMIT - 1) && Spaced(s, first, k, 2048)
    ensures Resolved(s, first, k)
  {
    hide Doubles.Signed, Elapsed, Increasing;
    forall i, j | first <= i < j < first + k ensures Held(s, first, i) != Held(s, first, j) {
      OffsetIsAtLeast(s, first, i);
      OffsetIsAtLeast(s, first, j);
      var a, b := Offset(s, first, i), Offset(s, first, j);
      assert a < Doubles.I64_LIMIT && b < Doubles.I64_LIMIT;
      if a + 2048 <= b {
        Doubles.SignedSpacedApart(a, b);
      } else {
        Doubles.SignedSpacedApart(b, a);
      }
    }
  }

  /** 2048 nanoseconds is the least spacing that does it. */
  lemma SpacingDecides(d: nat)
    ensures (forall s: Segment, first: nat, k: nat ::
              IsWindow(s, first, k) && Within(s, first, k, Doubles.I64_LIMIT - 1) && Spaced(s, first, k, d) ==>
                Resolved(s, first, k))
        <==> d >= 2048
  {
    hide Resolved, Offset, ValidSegment;
    if d >= 2048 {
      forall s: Segment, first: nat, k: nat
        | IsWindow(s, first, k) && Within(s, first, k, Doubles.I64_LIMIT - 1) && Spaced(s, first, k, d)
        ensures Resolved(s, first, k)
      {
        SpacedEpochsAreResolved(s, first, k);
      }
    } else {
      CloseEpochsMerge(d);
    }
  }

  lemma CloseEpochsMerge(d: nat)
    requires d < 2048
    ensures var s := SegmentAt(9_000_000_000_000_005_632, 9_000_000_000_000_005_632 + 2047);
            && IsWindow(s, 0, 3) && Within(s, 0, 3, Doubles.I64_LIMIT - 1) && Spaced(s, 0, 3, d) && !Resolved(s, 0, 3)
  {
    hide WindowStart, WindowSize, Elapsed, At, Covers, SegmentAt, Doubles.Secs;
    var a, b := 9_000_000_000_000_005_632, 9_000_000_000_000_005_632 + 2047;
    SegmentAtIsValid(a, b);
    Doubles.SpacingIsSharp();
    assert Held(SegmentAt(a, b), 0, 1) == Held(SegmentAt(a, b), 0, 2);
  }

  /** From epoch to epoch the distance from the first does not shrink, as it can after a leap second. */
  predicate Advancing(s: Segment, first: nat, k: nat)
    requires IsWindow(s, first, k)
  {
    forall i, j :: first <= i < j < first + k ==> Offset(s, first, i) <= Offset(s, first, j)
  }

  /** Within 292 years, a weight divides by zero exactly when two neighbouring epochs are one number. */
  lemma NeighboursDecide(s: Segment, first: nat, k: nat)
    requires IsWindow(s, first, k) && Within(s, first, k, Doubles.I64_LIMIT - 1) && Advancing(s, first, k)
    ensures Resolved(s, first, k)
        <==> forall i: nat :: first <= i < first + k - 1 ==> Held(s, first, i) != Held(s, first, i + 1)
  {
    hide Doubles.Signed, Elapsed, Increasing;
    if forall i: nat :: first <= i < first + k - 1 ==> Held(s, first, i) != Held(s, first, i + 1) {
      forall i, j | first <= i < j < first + k ensures Held(s, first, i) != Held(s, first, j) {
        assert Held(s, first, i) != Held(s, first, i + 1);
        HeldInOrder(s, first, k, i, i + 1);
        HeldInOrder(s, first, k, i + 1, j);
      }
    }
  }

  lemma HeldInOrder(s: Segment, first: nat, k: nat, i: nat, j: nat)
    requires IsWindow(s, first, k) && Within(s, first, k, Doubles.I64_LIMIT - 1) && Advancing(s, first, k)
    requires first <= i <= j < first + k
    ensures Held(s, first, i) <= Held(s, first, j)
  {
    hide Doubles.Signed, Elapsed, Increasing;
    OffsetIsAtLeast(s, first, i);
    assert Offset(s, first, j) <= Doubles.I64_LIMIT - 1;
    Doubles.SignedKeepOrder(Offset(s, first, i), Offset(s, first, j));
  }

  // The epochs of `SegmentAt`, and one more behind them.
  function LongSegment(a: nat, b: nat, c: nat): Segment {
    Segment("", "", Itrf, Utc, 7, At(0), At(c), [At(0), At(a), At(b), At(c)], Still(4))
  }

  /**
   Beyond 292 years neighbours do not decide: there `secs` falls back to milliseconds and goes back in
   time, onto an epoch before the neighbouring one.
   */
  lemma NeighboursDoNotDecideBeyond()
    ensures var last: nat := Doubles.I64_LIMIT;
            var whole: nat := last / Doubles.MILLI * Doubles.MILLI;
            var s := LongSegment(whole, whole + 400_000, last);
            && IsWindow(s, 0, 4) && Held(s, 0, 1) == Held(s, 0, 3) && !Resolved(s, 0, 4)
            && Held(s, 0, 0) < Held(s, 0, 1) < Held(s, 0, 2) && Held(s, 0, 3) < Held(s, 0, 2)
  {
    hide Elapsed, At, Rank, Doubles.Secs;
    var last: nat := Doubles.I64_LIMIT;
    var whole: nat := last / Doubles.MILLI * Doubles.MILLI;
    var s := LongSegment(whole, whole + 400_000, last);
    AtIsOrdinary(0, whole);
    AtIsOrdinary(whole, whole + 400_000);
    AtIsOrdinary(whole + 400_000, last);
    AtIsOrdinary(0, 0);
    AtIsOrdinary(whole, 0);
    AtIsOrdinary(whole + 400_000, 0);
    AtIsOrdinary(last, 0);
    Doubles.SpacedApart(0, whole);
    Doubles.SpacedApart(whole, whole + 400_000);
    Doubles.OneNumberAcrossTheLimit(last);
  }

  // ---------------------------------------------------------------------------------------
  // At the nodes, with every operation rounded
  // ---------------------------------------------------------------------------------------

  type Rounding = real -> real

  /**
   What floating-point rounding keeps: zero, one, and that different numbers among `xs` have a difference
   other than zero, since numbers near zero are rounded gradually.
   */
  predicate Sound(rnd: Rounding, xs: seq<real>) {
    && rnd(0.0) == 0.0 && rnd(1.0) == 1.0
    && forall i, j :: 0 <= i < |xs| && 0 <= j < |xs| && xs[i] != xs[j] ==> rnd(xs[j] - xs[i]) != 0.0
  }

  /** The weight as the inner loop computes it, each operation rounded. */
  function RoundedWeight(rnd: Rounding, xs: seq<real>, j: nat, t: real, m: nat): real
    requires Sound(rnd, xs) && Distinct(xs) && j < |xs| && m <= |xs|
  {
    if m == 0 then 1.0
    else if m - 1 == j then RoundedWeight(rnd, xs, j, t, m - 1)
    else TimesFactor(rnd, RoundedWeight(rnd, xs, j, t, m - 1), t - xs[m - 1], xs[j] - xs[m - 1])
  }

  // `w *= x / d`, the differences `x` and `d`, the quotient and the product rounded.
  function TimesFactor(rnd: Rounding, w: real, x: real, d: real): real
    requires rnd(d) != 0.0
  {
    rnd(w * rnd(rnd(x) / rnd(d)))
  }

  /** The sum as the outer loop computes it, each operation rounded. */
  function RoundedTerms(rnd: Rounding, xs: seq<real>, ys: seq<real>, t: real, n: nat): real
    requires Sound(rnd, xs) && Distinct(xs) && |ys| == |xs| && n <= |xs|
  {
    if n == 0 then 0.0
    else rnd(RoundedTerms(rnd, xs, ys, t, n - 1) + rnd(RoundedWeight(rnd, xs, n - 1, t, |xs|) * ys[n - 1]))
  }

  lemma FactorAtNode(rnd: Rounding, w: real, x: real, d: real)
    requires rnd(0.0) == 0.0 && rnd(1.0) == 1.0 && rnd(d) != 0.0
    ensures w == 1.0 && x == d ==> TimesFactor(rnd, w, x, d) == 1.0
    ensures w == 0.0 || x == 0.0 ==> TimesFactor(rnd, w, x, d) == 0.0
  {
    var z := rnd(d);
    assert z / z == 1.0 && 0.0 / z == 0.0;
    var q := rnd(rnd(x) / z);
    assert x == 0.0 ==> q == 0.0;
    assert x == d ==> q == 1.0;
    assert 0.0 * q == 0.0 && w * 0.0 == 0.0;
  }

  lemma {:induction false} RoundedWeightAtNode(rnd: Rounding, xs: seq<real>, j: nat, i: nat, m: nat)
    requires Sound(rnd, xs) && Distinct(xs) && j < |xs| && i < |xs| && m <= |xs|
    ensures i == j ==> RoundedWeight(rnd, xs, j, xs[i], m) == 1.0
    ensures i != j && i < m ==> RoundedWeight(rnd, xs, j, xs[i], m) == 0.0
    decreases m
  {
    hide TimesFactor;
    if m > 0 {
      RoundedWeightAtNode(rnd, xs, j, i, m - 1);
      if m - 1 != j {
        FactorAtNode(rnd, RoundedWeight(rnd, xs, j, xs[i], m - 1), xs[i] - xs[m - 1], xs[j] - xs[m - 1]);
      }
    }
  }

  lemma {:induction false} RoundedTermsAtNode(rnd: Rounding, xs: seq<real>, ys: seq<real>, i: nat, n: nat)
    requires Sound(rnd, xs) && Distinct(xs) && |ys| == |xs| && i < |xs| && n <= |xs| && rnd(ys[i]) == ys[i]
    ensures RoundedTerms(rnd, xs, ys, xs[i], n) == if i < n then ys[i] else 0.0
    decreases n
  {
    hide RoundedWeight;
    if n > 0 {
      RoundedTermsAtNode(rnd, xs, ys, i, n - 1);
      RoundedWeightAtNode(rnd, xs, n - 1, i, |xs|);
    }
  }

  // An epoch in seconds, as it is held.
  function HeldSeconds(s: Segment, first: nat, i: nat): real
    requires first < |s.epochs| && i < |s.epochs|
  {
    Held(s, first, i) as real / Doubles.TWO_82 as real
  }

  // The nodes of a window as floating-point numbers hold them.
  function HeldNodes(s: Segment, first: nat, k: nat): (xs: seq<real>)
    requires IsWindow(s, first, k)
    ensures |xs| == k
  {
    seq(k, i requires 0 <= i < k => HeldSeconds(s, first, first + i))
  }

  lemma Unscaled(a: int, b: int)
    requires a != b
    ensures a as real / Doubles.TWO_82 as real != b as real / Doubles.TWO_82 as real
  {
  }

  lemma HeldNodesDistinct(s: Segment, first: nat, k: nat)
    requires IsWindow(s, first, k) && Resolved(s, first, k)
    ensures Distinct(HeldNodes(s, first, k))
  {
    hide Held;
    var xs := HeldNodes(s, first, k);
    forall i, j | 0 <= i < j < k ensures xs[i] != xs[j] {
      var a, b := first + i, first + j;
      assert Held(s, first, a) != Held(s, first, b);
      Unscaled(Held(s, first, a), Held(s, first, b));
      assert xs[i] == HeldSeconds(s, first, a) && xs[j] == HeldSeconds(s, first, b);
    }
  }

  /**
   Every stored state in coverage comes back at its epoch however the operations round, and not only
   in exact arithmetic: component `c`, computed from the nodes as they are held.
   */
  lemma StoredStatesComeBackRounded(s: Segment, i: nat, c: nat, rnd: Rounding)
    requires ValidSegment(s) && i < |s.epochs| && Covers(s, s.epochs[i]) && Smooth(s, s.epochs[i]) && c < 6
    requires Sound(rnd, HeldNodes(s, WindowStart(s, s.epochs[i]), WindowSize(s)))
    requires rnd(s.states[i][c]) == s.states[i][c]
    ensures var k, first := WindowSize(s), WindowStart(s, s.epochs[i]);
            && IsWindow(s, first, k) && Distinct(HeldNodes(s, first, k))
            && RoundedTerms(rnd, HeldNodes(s, first, k), Column(s, first, k, c), HeldSeconds(s, first, i), k)
               == s.states[i][c]
  {
    hide Sound, HeldSeconds, WindowStart, WindowSize, Distinct, RoundedTerms;
    var k, first := WindowSize(s), WindowStart(s, s.epochs[i]);
    WindowFits(s, s.epochs[i]);
    CoveredEpochIsInItsWindow(s, i);
    HeldNodesDistinct(s, first, k);
    RoundedTermsAtNode(rnd, HeldNodes(s, first, k), Column(s, first, k, c), i - first, k);
  }
}
