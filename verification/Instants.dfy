/**
 Instants as the time library keeps them: whole seconds since 1970, and a fraction that within a leap
 second runs on to two seconds.  They compare by seconds and then by fraction; their difference is
 taken as if a leap second's fraction ran into the next second.
 */
module Instants {

  const NANO: int := 1_000_000_000
  const DAY: int := 86_400

  type Fraction = n: nat | n < 2 * NANO witness 0

  /** `DateTime<Utc>` */
  datatype Instant = Instant(secs: int, nanos: Fraction)

  // Not within a leap second.
  predicate Ordinary(t: Instant) {
    t.nanos < NANO
  }

  /** How instants compare. */
  predicate AtOrBefore(t: Instant, u: Instant) {
    t.secs < u.secs || (t.secs == u.secs && t.nanos <= u.nanos)
  }

  // The order of instants, as a number.
  function Rank(t: Instant): int {
    t.secs * (2 * NANO) + t.nanos
  }

  lemma RankIsOrder(t: Instant, u: Instant)
    ensures Rank(t) <= Rank(u) <==> AtOrBefore(t, u)
    ensures Rank(t) == Rank(u) <==> t == u
  {
  }

  // Nanoseconds since 1970, the fraction of a leap second running into the next second.
  function Position(t: Instant): int {
    t.secs * NANO + t.nanos
  }

  function TimeOfDay(t: Instant): int {
    t.secs % DAY
  }

  /**
   The second that the library adds for a leap second it thinks has passed between the two times of
   day, or takes off for one it thinks is still to come.
   */
  function LeapShift(t: Instant, from: Instant): int {
    if TimeOfDay(t) > TimeOfDay(from) && !Ordinary(from) then 1
    else if TimeOfDay(t) < TimeOfDay(from) && !Ordinary(t) then -1
    else 0
  }

  /** `t - from`, in nanoseconds. */
  function Elapsed(t: Instant, from: Instant): int {
    Position(t) - Position(from) + LeapShift(t, from) * NANO
  }

  /** A leap second is the last second of a day, as all leap seconds of UTC are. */
  predicate LeapsAtDayEnd(t: Instant) {
    t.nanos < 1_000_000_000 || t.secs % 86_400 == 86_399
  }

  /** With leap seconds at the ends of days only, differences are those of positions. */
  lemma ElapsedIsPosition(t: Instant, from: Instant)
    requires LeapsAtDayEnd(t) && LeapsAtDayEnd(from)
    ensures Elapsed(t, from) == Position(t) - Position(from)
    ensures Elapsed(t, from) == (t.secs - from.secs) * 1_000_000_000 + t.nanos - from.nanos
  {
  }

  /** An instant in a leap second, and the one in the second after it that has the same position. */
  predicate Overlaps(t: Instant, u: Instant) {
    u.secs == t.secs + 1 && t.nanos == u.nanos + NANO
  }

  /** Positions tell all instants apart but these. */
  lemma SamePositionExactly(t: Instant, u: Instant)
    requires Rank(t) < Rank(u)
    ensures Position(t) == Position(u) <==> Overlaps(t, u)
  {
    RankIsOrder(t, u);
  }

  /** A difference between instants in order is more than minus one second. */
  lemma ElapsedIsAtLeast(t: Instant, from: Instant)
    requires Rank(from) <= Rank(t)
    ensures Elapsed(t, from) > -NANO
  {
    RankIsOrder(from, t);
    SameDayOrLater(t, from);
  }

  lemma SameDayOrLater(t: Instant, from: Instant)
    ensures t.secs == from.secs ==> LeapShift(t, from) == 0
    ensures t.secs == from.secs + 1 && Ordinary(t) ==> LeapShift(t, from) >= 0
  {
  }

  // `u` is in a leap second that the library takes off, so that it falls on `t`, a second before.
  predicate FallsBack(t: Instant, u: Instant, from: Instant) {
    u.secs == t.secs && u.nanos == t.nanos + NANO && TimeOfDay(u) < TimeOfDay(from)
  }

  /**
   Which instants have the same distance from an ordinary one, with leap seconds at the end of any
   minute: those that overlap, unless the leap second is taken off, and those it falls back on.
   */
  lemma SameDistanceExactly(t: Instant, u: Instant, from: Instant)
    requires Ordinary(from) && Rank(t) < Rank(u)
    requires (Ordinary(t) || t.secs % 60 == 59) && (Ordinary(u) || u.secs % 60 == 59)
    ensures Elapsed(t, from) == Elapsed(u, from)
        <==> (Overlaps(t, u) && TimeOfDay(t) >= TimeOfDay(from)) || FallsBack(t, u, from)
  {
    RankIsOrder(t, u);
    var d := u.secs - t.secs;
    if !Ordinary(t) && !Ordinary(u) {
      assert d != 1;
    }
  }
}
