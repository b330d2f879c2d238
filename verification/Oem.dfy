/**
 Orbit ephemeris messages: choosing the window of states around a time, interpolating in it, and
 selecting the segment that covers a time.  Times are instants; states are six reals.
 */
module Oem {
  import Doubles
  import opened Instants
  import opened Lagrange
  import opened Octets

  datatype TimeSystem = Utc | Tai | Tt | Gps

  datatype ReferenceFrame = Itrf | Gcrf | Eme2000 | Teme

  datatype OemError =
    | NotOem
    | Syntax(line: nat)
    | MissingKeyword(segment: nat, keyword: string)
    | UnsupportedCenter(segment: nat)
    | UnsupportedFrame(segment: nat)
    | UnsupportedTimeSystem(segment: nat)
    | BadSegment(segment: nat)
    | Empty
    | OutOfCoverage(time: Instant, start: Instant, stop: Instant)

  /** `OemSegment` */
  datatype Segment = Segment(
    objectName: string,
    objectId: string,
    frame: ReferenceFrame,
    timeSystem: TimeSystem,
    degree: nat,
    start: Instant,
    stop: Instant,
    epochs: seq<Instant>,
    states: seq<seq<real>>)

  // Instants are compared by rank, `Instants.RankIsOrder`.
  predicate Increasing(epochs: seq<Instant>) {
    forall i, j :: 0 <= i < j < |epochs| ==> Rank(epochs[i]) < Rank(epochs[j])
  }

  /** What parsing guarantees of a segment. */
  predicate ValidSegment(s: Segment) {
    && |s.epochs| == |s.states| >= 2 && Increasing(s.epochs)
    && (forall i :: 0 <= i < |s.states| ==> |s.states[i]| == 6)
    && 1 <= s.degree <= 15
    && Rank(s.epochs[0]) <= Rank(s.start) < Rank(s.stop) <= Rank(s.epochs[|s.epochs| - 1])
  }

  // ---------------------------------------------------------------------------------------
  // The window
  // ---------------------------------------------------------------------------------------

  function Seconds(nanoseconds: int): real {
    nanoseconds as real / 1_000_000_000.0
  }

  /**
   `secs`, before rounding: to the nanosecond up to 292 years, and beyond that to the millisecond,
   towards zero.
   */
  function Secs(nanoseconds: int): real {
    if -Doubles.I64_LIMIT <= nanoseconds < Doubles.I64_LIMIT then Seconds(nanoseconds)
    else
      var whole := if nanoseconds >= 0 then nanoseconds / Doubles.MILLI else -(-nanoseconds / Doubles.MILLI);
      whole as real / 1000.0
  }

  /** `partition_point(|e| *e <= time)` on increasing epochs. */
  function PartitionPoint(epochs: seq<Instant>, time: Instant): (n: nat)
    ensures n <= |epochs|
    ensures forall i :: 0 <= i < n ==> Rank(epochs[i]) <= Rank(time)
    ensures n < |epochs| ==> Rank(epochs[n]) > Rank(time)
  {
    if epochs == [] || Rank(epochs[0]) > Rank(time) then 0 else 1 + PartitionPoint(epochs[1..], time)
  }

  /** How many states the interpolation uses. */
  function WindowSize(s: Segment): nat {
    if s.degree + 1 <= |s.states| then s.degree + 1 else |s.states|
  }

  /** The first state of the window around `time`. */
  function WindowStart(s: Segment, time: Instant): nat
    requires |s.epochs| == |s.states|
  {
    var k, after := WindowSize(s), PartitionPoint(s.epochs, time);
    var centred := if after >= k / 2 then after - k / 2 else 0;
    if centred <= |s.states| - k then centred else |s.states| - k
  }

  // The node times of the window, in seconds since its first epoch.
  function Nodes(s: Segment, first: nat, k: nat): (xs: seq<real>)
    requires |s.epochs| == |s.states| && first + k <= |s.states| && k > 0
    ensures |xs| == k
  {
    seq(k, i requires 0 <= i < k => Secs(Elapsed(s.epochs[first + i], s.epochs[first])))
  }

  // Component `c` of the states in the window.
  function Column(s: Segment, first: nat, k: nat, c: nat): (ys: seq<real>)
    requires first + k <= |s.states| && c < 6 && forall i :: 0 <= i < |s.states| ==> |s.states[i]| == 6
    ensures |ys| == k
  {
    seq(k, i requires 0 <= i < k => s.states[first + i][c])
  }

  /** Epoch `i` in seconds since epoch `first`, as the gateway's floating-point number holds it. */
  function Held(s: Segment, first: nat, i: nat): int
    requires first < |s.epochs| && i < |s.epochs|
  {
    Doubles.Signed(Elapsed(s.epochs[i], s.epochs[first]))
  }

  /** No two epochs of the window are held as one number, so that no weight divides by zero. */
  predicate Resolved(s: Segment, first: nat, k: nat)
    requires ValidSegment(s) && first + k <= |s.states|
  {
    forall i, j :: first <= i < j < first + k ==> Held(s, first, i) != Held(s, first, j)
  }

  // What is one number before rounding is one number after it.
  lemma RoundingKeepsEqual(a: nat, b: nat)
    requires a < b && Secs(a) == Secs(b)
    ensures Doubles.Secs(a) == Doubles.Secs(b)
  {
    hide Doubles.Secs;
    var m, n := a / Doubles.MILLI, b / Doubles.MILLI;
    assert a == m * Doubles.MILLI + a % Doubles.MILLI;
    if a < Doubles.I64_LIMIT {
      assert a as real == (n * Doubles.MILLI) as real;
      Doubles.OneNumberAcrossTheLimit(b);
    } else {
      Doubles.OneMillisecondIsOneNumber(a, b);
    }
  }

  lemma SignedRoundingKeepsEqual(a: int, b: int)
    requires -NANO < a && -NANO < b && Secs(a) == Secs(b)
    ensures Doubles.Signed(a) == Doubles.Signed(b)
  {
    hide Doubles.Secs;
    SignOfSecs(a);
    SignOfSecs(b);
    if a >= 0 && a != b {
      hide Secs;
      RoundingKeepsEqual(if a < b then a else b, if a < b then b else a);
    }
  }

  lemma SignOfSecs(n: int)
    requires -NANO < n
    ensures n < 0 <==> Secs(n) < 0.0
  {
  }

  /** In a resolved window the nodes differ before rounding, too. */
  lemma NodesDistinct(s: Segment, first: nat, k: nat)
    requires ValidSegment(s) && first + k <= |s.states| && k > 0 && Resolved(s, first, k)
    ensures Distinct(Nodes(s, first, k))
  {
    hide Secs, Doubles.Secs;
    var xs := Nodes(s, first, k);
    forall i, j | 0 <= i < j < k ensures xs[i] != xs[j] {
      NodesDiffer(s, first, first + i, first + j);
    }
  }

  lemma NodesDiffer(s: Segment, first: nat, i: nat, j: nat)
    requires ValidSegment(s) && first <= i < |s.epochs| && first <= j < |s.epochs|
    requires Held(s, first, i) != Held(s, first, j)
    ensures Secs(Elapsed(s.epochs[i], s.epochs[first])) != Secs(Elapsed(s.epochs[j], s.epochs[first]))
  {
    hide Secs, Doubles.Signed, Elapsed;
    OffsetIsAtLeast(s, first, i);
    OffsetIsAtLeast(s, first, j);
    var a, b := Elapsed(s.epochs[i], s.epochs[first]), Elapsed(s.epochs[j], s.epochs[first]);
    if Secs(a) == Secs(b) {
      SignedRoundingKeepsEqual(a, b);
    }
  }

  lemma OffsetIsAtLeast(s: Segment, first: nat, i: nat)
    requires ValidSegment(s) && first <= i < |s.epochs|
    ensures -NANO < Elapsed(s.epochs[i], s.epochs[first])
  {
    hide Elapsed;
    assert first < i ==> Rank(s.epochs[first]) < Rank(s.epochs[i]);
    ElapsedIsAtLeast(s.epochs[i], s.epochs[first]);
  }

  lemma WindowFits(s: Segment, time: Instant)
    requires ValidSegment(s)
    ensures 2 <= WindowSize(s) && WindowStart(s, time) + WindowSize(s) <= |s.states|
  {
    hide PartitionPoint;
  }

  /**
   The window never extrapolates: for every time the segment covers it lies within the states, has at
   least two of them, and the time lies between its first and last epoch.
   */
  lemma WindowBracketsTime(s: Segment, time: Instant)
    requires ValidSegment(s) && Covers(s, time)
    ensures var k, first := WindowSize(s), WindowStart(s, time);
            && k >= 2 && first + k <= |s.states|
            && Rank(s.epochs[first]) <= Rank(time) <= Rank(s.epochs[first + k - 1])
  {
    hide PartitionPoint;
    var k, first, after, n := WindowSize(s), WindowStart(s, time), PartitionPoint(s.epochs, time), |s.states|;
    assert Rank(s.epochs[0]) <= Rank(time) <= Rank(s.epochs[n - 1]);
    assert after >= 1;
    assert first <= after - 1;
    assert Rank(s.epochs[after - 1]) <= Rank(time);
    if first < after - 1 {
      assert Rank(s.epochs[first]) < Rank(s.epochs[after - 1]);
    }
    if after < n {
      assert first + k - 1 >= after;
      if first + k - 1 > after {
        assert Rank(s.epochs[after]) < Rank(s.epochs[first + k - 1]);
      }
    } else {
      assert first + k - 1 == n - 1;
    }
  }

  /**
   The window is centred: of its states, the first half are at or before the time and the others after
   it, except where the window is held at the first or the last state.
   */
  lemma WindowIsCentred(s: Segment, time: Instant)
    requires ValidSegment(s)
    ensures var k, first := WindowSize(s), WindowStart(s, time);
            && k == (if s.degree + 1 <= |s.states| then s.degree + 1 else |s.states|)
            && (first > 0 ==> Rank(s.epochs[first + k / 2 - 1]) <= Rank(time))
            && (first + k < |s.states| ==> Rank(time) < Rank(s.epochs[first + k / 2]))
  {
    hide PartitionPoint;
    var k, first, after := WindowSize(s), WindowStart(s, time), PartitionPoint(s.epochs, time);
    if first + k < |s.states| {
      assert after <= first + k / 2 < |s.states|;
      assert Rank(time) < Rank(s.epochs[after]);
      assert after < first + k / 2 ==> Rank(s.epochs[after]) < Rank(s.epochs[first + k / 2]);
    }
  }

  // The window around `time` is resolved.
  predicate Smooth(s: Segment, time: Instant)
    requires ValidSegment(s)
  {
    Resolved(s, WindowStart(s, time), WindowSize(s))
  }

  /**
   The state interpolated at `time`, in the segment's own frame: before rounding, or `None` when a
   weight divides by zero, which leaves no finite number in any component.
   */
  function StateAt(s: Segment, time: Instant): (r: Option<seq<real>>)
    requires ValidSegment(s)
    ensures r.Some? <==> Smooth(s, time)
    ensures r.Some? ==> |r.value| == 6
  {
    var k, first := WindowSize(s), WindowStart(s, time);
    if Resolved(s, first, k) then
      NodesDistinct(s, first, k);
      Some(seq(6, c requires 0 <= c < 6 => ComponentAt(s, first, k, c, time)))
    else None
  }

  function ComponentAt(s: Segment, first: nat, k: nat, c: nat, time: Instant): real
    requires ValidSegment(s) && first + k <= |s.states| && k > 0 && c < 6 && Distinct(Nodes(s, first, k))
  {
    Interpolated(Nodes(s, first, k), Column(s, first, k, c), Secs(Elapsed(time, s.epochs[first])))
  }

  /** `interpolate` */
  method Interpolate(s: Segment, time: Instant) returns (out: Option<seq<real>>)
    requires ValidSegment(s)
    ensures out == StateAt(s, time)
  {
    hide Secs, PartitionPoint, Resolved, Increasing, Distinct, Nodes, Column, Interpolated;
    var n := |s.states|;
    var k := if s.degree + 1 <= n then s.degree + 1 else n;
    var after := PartitionPoint(s.epochs, time);
    var first := if after >= k / 2 then after - k / 2 else 0;
    first := if first <= n - k then first else n - k;
    assert first == WindowStart(s, time) && k == WindowSize(s);
    var values, finite := Accumulate(s, first, k, Secs(Elapsed(time, s.epochs[first])));
    if !finite {
      return None;
    }
    NodesDistinct(s, first, k);
    assert values == StateAt(s, time).value;
    return Some(values);
  }

  // The outer loop of `interpolate`.
  method Accumulate(s: Segment, first: nat, k: nat, tq: real) returns (out: seq<real>, finite: bool)
    requires ValidSegment(s) && first + k <= |s.states| && k > 0
    ensures |out| == 6 && (finite <==> Resolved(s, first, k))
    ensures finite && Distinct(Nodes(s, first, k)) ==>
              forall c :: 0 <= c < 6 ==> out[c] == Interpolated(Nodes(s, first, k), Column(s, first, k, c), tq)
  {
    hide Weight, Secs, Increasing, Nodes, Held, Distinct;
    ghost var xs := Nodes(s, first, k);
    out, finite := [0.0, 0.0, 0.0, 0.0, 0.0, 0.0], true;
    for j := 0 to k
      invariant |out| == 6
      invariant finite <==> forall l, m :: first <= l < first + j && first <= m < first + k && l != m ==>
                              Held(s, first, l) != Held(s, first, m)
      invariant finite && Distinct(xs) ==>
                  forall c :: 0 <= c < 6 ==> out[c] == Terms(xs, Column(s, first, k, c), tq, j)
    {
      var w, divides := WeightByLoop(s, first, k, j, tq);
      if !divides {
        finite := false;
      } else {
        out := AddScaled(out, w, s.states[first + j]);
        if Distinct(xs) {
          forall c | 0 <= c < 6 && finite ensures out[c] == Terms(xs, Column(s, first, k, c), tq, j + 1) {
            assert Column(s, first, k, c)[j] == s.states[first + j][c];
          }
        }
      }
    }
  }

  lemma WeightOfNone(xs: seq<real>, j: nat, t: real)
    requires Distinct(xs) && j < |xs|
    ensures Weight(xs, j, t, 0) == 1.0
  {
  }

  lemma WeightOfOneMore(xs: seq<real>, j: nat, t: real, m: nat)
    requires Distinct(xs) && j < |xs| && m < |xs|
    ensures m == j ==> Weight(xs, j, t, m + 1) == Weight(xs, j, t, m)
    ensures m != j ==> xs[j] - xs[m] != 0.0
    ensures m != j ==> Weight(xs, j, t, m + 1) == Weight(xs, j, t, m) * ((t - xs[m]) / (xs[j] - xs[m]))
  {
  }

  // The inner loop of `interpolate`: the weight of the `j`th state of the window, and whether all its
  // divisions are by numbers other than zero.
  method WeightByLoop(s: Segment, first: nat, k: nat, j: nat, tq: real) returns (w: real, divides: bool)
    requires ValidSegment(s) && first + k <= |s.states| && j < k
    ensures divides <==> forall m :: first <= m < first + k && m != first + j ==>
                           Held(s, first, m) != Held(s, first, first + j)
    ensures divides && Distinct(Nodes(s, first, k)) ==> w == Weight(Nodes(s, first, k), j, tq, k)
  {
    hide Secs, Weight, Held, Distinct;
    ghost var xs := Nodes(s, first, k);
    w, divides := 1.0, true;
    if Distinct(xs) {
      WeightOfNone(xs, j, tq);
    }
    for m := 0 to k
      invariant divides <==> forall l :: first <= l < first + m && l != first + j ==>
                               Held(s, first, l) != Held(s, first, first + j)
      invariant divides && Distinct(xs) ==> w == Weight(xs, j, tq, m)
    {
      if Distinct(xs) {
        WeightOfOneMore(xs, j, tq, m);
      }
      if m != j {
        if Held(s, first, first + m) == Held(s, first, first + j) {
          divides := false;
        } else {
          NodesDiffer(s, first, first + m, first + j);
          var t0 := s.epochs[first];
          var xm, xj := Secs(Elapsed(s.epochs[first + m], t0)), Secs(Elapsed(s.epochs[first + j], t0));
          w := w * ((tq - xm) / (xj - xm));
        }
      }
    }
  }

  // `*o += w * s` for each component.
  method AddScaled(out: seq<real>, w: real, state: seq<real>) returns (r: seq<real>)
    requires |out| == |state| == 6
    ensures |r| == 6 && forall c :: 0 <= c < 6 ==> r[c] == out[c] + w * state[c]
  {
    r := seq(6, c requires 0 <= c < 6 => out[c] + w * state[c]);
  }

  // ---------------------------------------------------------------------------------------
  // Exactness
  // ---------------------------------------------------------------------------------------

  lemma SecondsAdd(a: int, b: int)
    ensures Seconds(a + b) == Seconds(a) + Seconds(b)
  {
  }

  /** Durations that `secs` does not cut: up to 292 years, and whole milliseconds. */
  predicate Uncut(n: int) {
    -Doubles.I64_LIMIT <= n < Doubles.I64_LIMIT || n % Doubles.MILLI == 0
  }

  lemma SecsIsSeconds(n: int)
    ensures Secs(n) == Seconds(n) <==> Uncut(n)
  {
    var a := if n >= 0 then n else -n;
    var m := a / Doubles.MILLI;
    assert a == m * Doubles.MILLI + a % Doubles.MILLI;
    OppositeRemainder(n);
    if !(-Doubles.I64_LIMIT <= n < Doubles.I64_LIMIT) {
      assert Secs(n) == Seconds(n) <==> a as real == (m * Doubles.MILLI) as real;
    }
  }

  lemma OppositeRemainder(n: int)
    ensures n % Doubles.MILLI == 0 <==> -n % Doubles.MILLI == 0
  {
    var q := n / Doubles.MILLI;
    assert n == q * Doubles.MILLI + n % Doubles.MILLI;
  }

  // No duration of the window, and none up to the time, is cut.
  predicate WindowUncut(s: Segment, time: Instant)
    requires ValidSegment(s)
  {
    var k, first := WindowSize(s), WindowStart(s, time);
    && first < |s.epochs| && Uncut(Elapsed(time, s.epochs[first]))
    && forall i :: first <= i < first + k && i < |s.epochs| ==> Uncut(Elapsed(s.epochs[i], s.epochs[first]))
  }

  /**
   Lagrange exactness: if each component of the states in the window is sampled from a polynomial of
   degree less than the number of states, in the time since the window's first epoch, interpolation
   gives the polynomials' values at the queried time.
   */
  lemma PolynomialMotionIsExact(s: Segment, time: Instant, motion: seq<Poly>)
    requires ValidSegment(s) && |motion| == 6 && Smooth(s, time) && WindowUncut(s, time)
    requires forall c :: 0 <= c < 6 ==> |motion[c]| <= WindowSize(s)
    requires forall c, i :: 0 <= c < 6 && WindowStart(s, time) <= i < WindowStart(s, time) + WindowSize(s) ==>
               s.states[i][c] == Eval(motion[c], Seconds(Elapsed(s.epochs[i], s.epochs[WindowStart(s, time)])))
    ensures StateAt(s, time).Some?
    ensures var t0 := s.epochs[WindowStart(s, time)];
            forall c :: 0 <= c < 6 ==> StateAt(s, time).value[c] == Eval(motion[c], Seconds(Elapsed(time, t0)))
  {
    hide Secs, Seconds, Eval, Interpolated, PartitionPoint, Resolved, Held, Elapsed, Uncut;
    var k, first := WindowSize(s), WindowStart(s, time);
    var t0 := s.epochs[first];
    NodesDistinct(s, first, k);
    var xs := Nodes(s, first, k);
    forall i | 0 <= i < k ensures xs[i] == Seconds(Elapsed(s.epochs[first + i], t0)) {
      assert Uncut(Elapsed(s.epochs[first + i], t0));
      SecsIsSeconds(Elapsed(s.epochs[first + i], t0));
    }
    SecsIsSeconds(Elapsed(time, t0));
    forall c | 0 <= c < 6 ensures StateAt(s, time).value[c] == Eval(motion[c], Seconds(Elapsed(time, t0))) {
      InterpolationIsExact(xs, Column(s, first, k, c), motion[c], Seconds(Elapsed(time, t0)));
    }
  }

  /** The same with time counted from any origin, when leap seconds are at the ends of days only. */
  lemma MotionFromAnyOriginIsExact(s: Segment, time: Instant, origin: int, motion: seq<Poly>)
    requires ValidSegment(s) && |motion| == 6 && Smooth(s, time) && WindowUncut(s, time)
    requires LeapsAtDayEnd(time) && forall i :: 0 <= i < |s.epochs| ==> LeapsAtDayEnd(s.epochs[i])
    requires forall c :: 0 <= c < 6 ==> |motion[c]| <= WindowSize(s)
    requires forall c, i :: 0 <= c < 6 && WindowStart(s, time) <= i < WindowStart(s, time) + WindowSize(s) ==>
               s.states[i][c] == Eval(motion[c], Seconds(Position(s.epochs[i]) - origin))
    ensures StateAt(s, time).Some?
    ensures forall c :: 0 <= c < 6 ==>
              StateAt(s, time).value[c] == Eval(motion[c], Seconds(Position(time) - origin))
  {
    hide Secs, Seconds, Eval, PartitionPoint, Resolved, Held, Elapsed, Uncut, Position, StateAt, LeapsAtDayEnd;
    WindowFits(s, time);
    var first := WindowStart(s, time);
    var t0 := s.epochs[first];
    var shift := Position(t0) - origin;
    var shifted := seq(6, c requires 0 <= c < 6 => Shifted(motion[c], Seconds(shift)));
    forall c, i | 0 <= c < 6 && first <= i < first + WindowSize(s)
      ensures s.states[i][c] == Eval(shifted[c], Seconds(Elapsed(s.epochs[i], t0)))
    {
      ShiftedMotion(motion[c], s.epochs[i], t0, origin);
    }
    PolynomialMotionIsExact(s, time, shifted);
    forall c | 0 <= c < 6 ensures StateAt(s, time).value[c] == Eval(motion[c], Seconds(Position(time) - origin)) {
      ShiftedMotion(motion[c], time, t0, origin);
    }
  }

  lemma ShiftedMotion(p: Poly, t: Instant, t0: Instant, origin: int)
    requires LeapsAtDayEnd(t) && LeapsAtDayEnd(t0)
    ensures Eval(Shifted(p, Seconds(Position(t0) - origin)), Seconds(Elapsed(t, t0)))
         == Eval(p, Seconds(Position(t) - origin))
  {
    hide Eval, Shifted, Seconds, Elapsed, Position, LeapsAtDayEnd;
    ElapsedIsPosition(t, t0);
    EvalShifted(p, Seconds(Position(t0) - origin), Seconds(Elapsed(t, t0)));
    SecondsAdd(Elapsed(t, t0), Position(t0) - origin);
  }

  // Increasing epochs compare as their indices do.
  lemma IndexOrder(epochs: seq<Instant>, i: nat, j: nat)
    requires Increasing(epochs) && i < |epochs| && j < |epochs| && Rank(epochs[i]) <= Rank(epochs[j])
    ensures i <= j
  {
  }

  /** A covered epoch is always in its own window. */
  lemma CoveredEpochIsInItsWindow(s: Segment, i: nat)
    requires ValidSegment(s) && i < |s.epochs| && Covers(s, s.epochs[i])
    ensures WindowStart(s, s.epochs[i]) <= i < WindowStart(s, s.epochs[i]) + WindowSize(s)
  {
    hide WindowStart, WindowSize, PartitionPoint;
    var time := s.epochs[i];
    WindowBracketsTime(s, time);
    IndexOrder(s.epochs, WindowStart(s, time), i);
    IndexOrder(s.epochs, i, WindowStart(s, time) + WindowSize(s) - 1);
  }

  /** Every stored state in coverage comes back at its epoch. */
  lemma StoredStatesComeBack(s: Segment, i: nat)
    requires ValidSegment(s) && i < |s.epochs| && Covers(s, s.epochs[i])
    ensures StateAt(s, s.epochs[i]) == if Smooth(s, s.epochs[i]) then Some(s.states[i]) else None
  {
    hide Secs, Interpolated, PartitionPoint, Resolved, Held;
    var k, first := WindowSize(s), WindowStart(s, s.epochs[i]);
    CoveredEpochIsInItsWindow(s, i);
    if Smooth(s, s.epochs[i]) {
      NodesDistinct(s, first, k);
      forall c | 0 <= c < 6 ensures StateAt(s, s.epochs[i]).value[c] == s.states[i][c] {
        InterpolatesNodes(Nodes(s, first, k), Column(s, first, k, c), i - first);
      }
      assert StateAt(s, s.epochs[i]).value == s.states[i];
    }
  }

  // ---------------------------------------------------------------------------------------
  // Choosing a segment
  // ---------------------------------------------------------------------------------------

  predicate Covers(s: Segment, time: Instant) {
    Rank(s.start) <= Rank(time) <= Rank(s.stop)
  }

  /** The last segment, in file order, that covers `time`. */
  function LastCovering(segments: seq<Segment>, time: Instant): (r: Option<nat>)
    ensures r.None? ==> forall i :: 0 <= i < |segments| ==> !Covers(segments[i], time)
    ensures r.Some? ==> r.value < |segments| && Covers(segments[r.value], time)
    ensures r.Some? ==> forall i :: r.value < i < |segments| ==> !Covers(segments[i], time)
  {
    if segments == [] then None
    else if Covers(segments[|segments| - 1], time) then Some(|segments| - 1)
    else LastCovering(segments[..|segments| - 1], time)
  }

  function EarliestStart(segments: seq<Segment>): (r: Instant)
    requires segments != []
    ensures exists i :: 0 <= i < |segments| && segments[i].start == r
    ensures forall i :: 0 <= i < |segments| ==> Rank(r) <= Rank(segments[i].start)
  {
    if |segments| == 1 then segments[0].start
    else
      var m := EarliestStart(segments[1..]);
      var r := if Rank(segments[0].start) <= Rank(m) then segments[0].start else m;
      assert exists i :: 0 <= i < |segments| && segments[i].start == r by {
        if r == m {
          var i :| 0 <= i < |segments[1..]| && segments[1..][i].start == m;
          assert segments[i + 1].start == r;
        }
      }
      assert forall i :: 1 <= i < |segments| ==> segments[i] == segments[1..][i - 1];
      r
  }

  function LatestStop(segments: seq<Segment>): (r: Instant)
    requires segments != []
    ensures exists i :: 0 <= i < |segments| && segments[i].stop == r
    ensures forall i :: 0 <= i < |segments| ==> Rank(segments[i].stop) <= Rank(r)
  {
    if |segments| == 1 then segments[0].stop
    else
      var m := LatestStop(segments[1..]);
      var r := if Rank(segments[0].stop) >= Rank(m) then segments[0].stop else m;
      assert exists i :: 0 <= i < |segments| && segments[i].stop == r by {
        if r == m {
          var i :| 0 <= i < |segments[1..]| && segments[1..][i].stop == m;
          assert segments[i + 1].stop == r;
        }
      }
      assert forall i :: 1 <= i < |segments| ==> segments[i] == segments[1..][i - 1];
      r
  }

  type Rotation = (ReferenceFrame, Instant, seq<real>) -> seq<real>

  predicate AllValid(segments: seq<Segment>) {
    forall i :: 0 <= i < |segments| ==> ValidSegment(segments[i])
  }

  /** The state in ITRF; `None` stands for components that are not finite numbers. */
  function ToItrf(frame: ReferenceFrame, time: Instant, state: Option<seq<real>>, rotate: Rotation): Option<seq<real>> {
    if frame.Itrf? || state.None? then state else Some(rotate(frame, time, state.value))
  }

  /** `state_itrf`; `rotate` turns a state from an inertial frame to ITRF at a time. */
  function StateItrf(segments: seq<Segment>, time: Instant, rotate: Rotation): Result<Option<seq<real>>, OemError>
    requires segments != [] && AllValid(segments)
  {
    match LastCovering(segments, time)
    case None => Err(OutOfCoverage(time, EarliestStart(segments), LatestStop(segments)))
    case Some(i) => Ok(ToItrf(segments[i].frame, time, StateAt(segments[i], time), rotate))
  }

  /** The window of segment `s` lies within its states, and its epochs enclose the time. */
  predicate Encloses(s: Segment, time: Instant) {
    var k, first := WindowSize(s), if |s.epochs| == |s.states| then WindowStart(s, time) else 0;
    && 2 <= k && first + k <= |s.states| == |s.epochs|
    && Rank(s.epochs[0]) <= Rank(s.epochs[first]) <= Rank(time)
    && Rank(time) <= Rank(s.epochs[first + k - 1]) <= Rank(s.epochs[|s.epochs| - 1])
  }

  // The segment's state at the time, in ITRF: rotated from the three inertial frames, and from ITRF itself not.
  predicate GivesState(s: Segment, time: Instant, rotate: Rotation, r: Result<Option<seq<real>>, OemError>)
    requires ValidSegment(s)
  {
    var state := StateAt(s, time);
    && r.Ok? && (r.value.Some? <==> state.Some?)
    && (state.Some? && s.frame == Itrf ==> r.value.value == state.value)
    && (state.Some? && (s.frame == Gcrf || s.frame == Eme2000 || s.frame == Teme) ==>
          r.value.value == rotate(s.frame, time, state.value))
  }

  // The time is in segment `i`'s usable time, ends included, and in no later segment's.
  predicate LastToCover(segments: seq<Segment>, time: Instant, i: nat)
    requires i < |segments|
  {
    && Rank(segments[i].start) <= Rank(time) <= Rank(segments[i].stop)
    && forall l :: i < l < |segments| ==> !(Rank(segments[l].start) <= Rank(time) <= Rank(segments[l].stop))
  }

  lemma CoveringEncloses(s: Segment, time: Instant)
    requires ValidSegment(s) && Covers(s, time)
    ensures Encloses(s, time)
  {
    hide PartitionPoint, WindowStart, WindowSize;
    WindowBracketsTime(s, time);
    var first, last := WindowStart(s, time), WindowStart(s, time) + WindowSize(s) - 1;
    assert first > 0 ==> Rank(s.epochs[0]) < Rank(s.epochs[first]);
    assert last < |s.epochs| - 1 ==> Rank(s.epochs[last]) < Rank(s.epochs[|s.epochs| - 1]);
  }

  /**
   Never extrapolates: a time gets a state exactly when some segment covers it, and otherwise the
   error names the whole coverage.  The state comes from the last segment covering the time,
   interpolated between two of its epochs that enclose the time.
   */
  lemma NeverExtrapolates(segments: seq<Segment>, time: Instant, rotate: Rotation)
    requires segments != [] && AllValid(segments)
    ensures StateItrf(segments, time, rotate).Ok? <==>
              exists i :: 0 <= i < |segments| && Rank(segments[i].start) <= Rank(time) <= Rank(segments[i].stop)
    ensures StateItrf(segments, time, rotate).Err? ==>
              StateItrf(segments, time, rotate).error
                  == OutOfCoverage(time, EarliestStart(segments), LatestStop(segments))
    ensures forall i :: 0 <= i < |segments| && LastToCover(segments, time, i) ==>
              Encloses(segments[i], time) && GivesState(segments[i], time, rotate, StateItrf(segments, time, rotate))
  {
    hide ValidSegment, Smooth, Encloses, EarliestStart, LatestStop, StateAt, WindowStart, WindowSize, LastCovering;
    var chosen := LastCovering(segments, time);
    forall i | 0 <= i < |segments| && LastToCover(segments, time, i)
      ensures chosen == Some(i) && Encloses(segments[i], time)
    {
      assert Covers(segments[i], time);
      assert chosen.Some?;
      CoveringEncloses(segments[i], time);
    }
  }
}
