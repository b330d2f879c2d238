/**
 Durations in seconds as 64-bit floating-point numbers hold them.  A number is given in units of
 2^-82 seconds, in which everything here is an integer; rounding is to 53 bits, to the nearest, ties
 to even.  All numbers are far inside the range of the format.
 */
module Doubles {

  const TWO_52: nat := 0x10_0000_0000_0000
  const TWO_53: nat := 0x20_0000_0000_0000
  const TWO_82: nat := 0x4_0000_0000_0000_0000_0000

  // The first number of nanoseconds that a signed 64-bit integer cannot hold.
  const I64_LIMIT: int := 0x8000_0000_0000_0000

  const MILLI: int := 1_000_000

  /** The literal `1e-9`. */
  const NANO: nat := 4_835_703_278_458_517

  /** The integer nearest to `p / q`, the even one of two. */
  function HalfEven(p: nat, q: nat): nat
    requires q > 0
  {
    var n, r := p / q, p % q;
    if 2 * r > q || (2 * r == q && n % 2 == 1) then n + 1 else n
  }

  /** `p / q` rounded to 53 bits, for quotients of 52 bits or more and for integers. */
  function Round(p: nat, q: nat): nat
    requires q > 0
    decreases p - q
  {
    if p < q * TWO_53 then HalfEven(p, q) else 2 * Round(p, 2 * q)
  }

  /** `d.num_nanoseconds() as f64 * 1e-9`, or `d.num_milliseconds() as f64 / 1000.0` when that is too much. */
  function Secs(nanoseconds: nat): nat {
    if nanoseconds < I64_LIMIT then Round(Round(nanoseconds, 1) * NANO, 1)
    else Round(Round(nanoseconds / MILLI, 1) * TWO_82, 1000)
  }

  /** The literal is the nearest number of its size to a billionth. */
  lemma NanoIsNearest()
    ensures TWO_52 <= NANO < TWO_53 && HalfEven(TWO_82, 1_000_000_000) == NANO
  {
  }

  // ---------------------------------------------------------------------------------------
  // Rounding
  // ---------------------------------------------------------------------------------------

  lemma HalfEvenIsNear(p: nat, q: nat)
    requires q > 0
    ensures var n := HalfEven(p, q); p / q <= n <= p / q + 1 && 2 * (n * q - p) <= q && 2 * (p - n * q) <= q
  {
    var n := p / q;
    assert p == n * q + p % q;
    assert (n + 1) * q == n * q + q;
  }

  // How far apart two numbers are.
  function Off(a: nat, b: nat): nat {
    if a >= b then a - b else b - a
  }

  /** No integer is nearer to `p / q`, and another one as near only when this one is even. */
  lemma HalfEvenIsNearest(p: nat, q: nat, m: nat)
    requires q > 0
    ensures var n := HalfEven(p, q);
            && Off(n * q, p) <= Off(m * q, p)
            && (Off(n * q, p) == Off(m * q, p) && m != n ==> n % 2 == 0)
  {
    hide HalfEven, Off;
    var f, r := HalfEvenOf(p, q);
    var n := HalfEven(p, q);
    MultiplesAround(f, q, m);
    MultiplesAround(f, q, n);
    OfTwoMultiples(f * q, r, q, f, n, n * q, m, m * q);
  }

  lemma HalfEvenOf(p: nat, q: nat) returns (f: nat, r: nat)
    requires q > 0
    ensures p == f * q + r && r < q
    ensures HalfEven(p, q) == if 2 * r > q || (2 * r == q && f % 2 == 1) then f + 1 else f
  {
    f, r := p / q, p % q;
  }

  // The same when the products are known.
  lemma OfTwoMultiples(unit: nat, r: nat, q: nat, f: nat, n: nat, own: nat, m: nat, other: nat)
    requires r < q && n == (if 2 * r > q || (2 * r == q && f % 2 == 1) then f + 1 else f)
    requires own == if n == f then unit else unit + q
    requires m < f ==> other + q <= unit
    requires m == f ==> other == unit
    requires m == f + 1 ==> other == unit + q
    requires m > f + 1 ==> other >= unit + 2 * q
    ensures Off(own, unit + r) <= Off(other, unit + r)
    ensures Off(own, unit + r) == Off(other, unit + r) && m != n ==> n % 2 == 0
  {
  }

  lemma MultiplesAround(f: nat, q: nat, m: nat)
    ensures m < f ==> m * q + q <= f * q
    ensures m == f ==> m * q == f * q
    ensures m == f + 1 ==> m * q == f * q + q
    ensures m > f + 1 ==> m * q >= f * q + 2 * q
  {
    if m < f {
      TimesKeepsOrder(m + 1, f, q);
    } else if m > f + 1 {
      TimesKeepsOrder(f + 2, m, q);
    }
  }

  // `q` doubled `s` times.
  function Doubled(q: nat, s: nat): nat
    decreases s
  {
    if s == 0 then q else Doubled(2 * q, s - 1)
  }

  lemma {:induction false} DoubledGrows(q: nat, s: nat)
    ensures Doubled(q, s) >= q
    decreases s
  {
    if s > 0 {
      DoubledGrows(2 * q, s - 1);
    }
  }

  lemma {:induction false} DoubledOnce(q: nat, s: nat)
    ensures Doubled(q, s + 1) == 2 * Doubled(q, s)
    decreases s
  {
    if s > 0 {
      DoubledOnce(2 * q, s - 1);
    }
  }

  lemma TwiceTimes(a: nat, b: nat)
    ensures 2 * a * b == 2 * (a * b) == a * (2 * b)
  {
  }

  /** The error is at most half a unit in the last place. */
  lemma {:induction false} RoundIsNear(p: nat, q: nat, s: nat)
    requires q > 0 && p < Doubled(q, s) * TWO_53
    ensures 2 * (Round(p, q) * q - p) <= Doubled(q, s) && 2 * (p - Round(p, q) * q) <= Doubled(q, s)
    decreases s
  {
    hide HalfEven;
    if p < q * TWO_53 {
      HalfEvenIsNear(p, q);
      DoubledGrows(q, s);
    } else {
      RoundIsNear(p, 2 * q, s - 1);
      TwiceTimes(Round(p, 2 * q), q);
    }
  }

  /** Numbers of 53 bits are not rounded. */
  lemma SmallIsExact(n: nat)
    requires n < TWO_53
    ensures Round(n, 1) == n
  {
  }

  /** Rounding in a known binade. */
  lemma {:induction false} RoundInBinade(p: nat, q: nat, s: nat)
    requires q > 0 && Doubled(q, s) * TWO_52 <= p < Doubled(q, s) * TWO_53
    ensures Doubled(q, s) > 0 && Round(p, q) == Doubled(1, s) * HalfEven(p, Doubled(q, s))
    decreases s
  {
    hide HalfEven;
    DoubledGrows(q, s);
    if s > 0 {
      DoubledGrows(2 * q, s - 1);
      RoundInBinade(p, 2 * q, s - 1);
      DoubledOnce(1, s - 1);
      TwiceTimes(Doubled(1, s - 1), HalfEven(p, Doubled(q, s)));
    }
  }

  lemma QuotientIsAtLeast(p: nat, q: nat, k: nat)
    requires q > 0 && k * q <= p
    ensures p / q >= k
  {
    var n := p / q;
    assert p == n * q + p % q && (n + 1) * q == n * q + q;
    if n < k {
      TimesKeepsOrder(n + 1, k, q);
      assert false;
    }
  }

  lemma {:induction false} RoundIsAtLeast(p: nat, q: nat, k: nat)
    requires q > 0 && k <= TWO_53 && k * q <= p
    ensures Round(p, q) >= k
    decreases p - q
  {
    hide HalfEven;
    if p < q * TWO_53 {
      QuotientIsAtLeast(p, q, k);
      HalfEvenIsNear(p, q);
    } else {
      RoundIsAtLeast(p, 2 * q, TWO_52);
    }
  }

  lemma QuotientKeepsOrder(p: nat, r: nat, q: nat)
    requires q > 0 && p <= r
    ensures p / q <= r / q
    ensures p / q == r / q ==> p % q <= r % q
  {
    var m, n := p / q, r / q;
    assert p == m * q + p % q && r == n * q + r % q && (n + 1) * q == n * q + q;
    if m > n {
      TimesKeepsOrder(n + 1, m, q);
      assert false;
    }
  }

  lemma TimesKeepsOrder(a: nat, b: nat, q: nat)
    requires a <= b
    ensures a * q <= b * q
  {
  }

  lemma HalfEvenKeepsOrder(p: nat, r: nat, q: nat)
    requires q > 0 && p <= r
    ensures HalfEven(p, q) <= HalfEven(r, q)
  {
    QuotientKeepsOrder(p, r, q);
  }

  lemma HalfEvenIsAtMost(p: nat, q: nat)
    requires q > 0 && p < q * TWO_53
    ensures HalfEven(p, q) <= TWO_53
  {
    HalfEvenIsNear(p, q);
    QuotientIsLess(p, q);
  }

  lemma QuotientIsLess(p: nat, q: nat)
    requires q > 0 && p < q * TWO_53
    ensures p / q < TWO_53
  {
    var n := p / q;
    assert p == n * q + p % q;
    if n >= TWO_53 {
      TimesKeepsOrder(TWO_53, n, q);
      assert false;
    }
  }

  /** Rounding keeps the order. */
  lemma {:induction false} RoundKeepsOrder(p: nat, r: nat, q: nat)
    requires q > 0 && p <= r
    ensures Round(p, q) <= Round(r, q)
    decreases r - q
  {
    hide HalfEven;
    if r < q * TWO_53 {
      HalfEvenKeepsOrder(p, r, q);
    } else if p >= q * TWO_53 {
      RoundKeepsOrder(p, r, 2 * q);
    } else {
      RoundIsAtLeast(r, 2 * q, TWO_52);
      HalfEvenIsAtMost(p, q);
    }
  }

  // ---------------------------------------------------------------------------------------
  // Order and distance of durations
  // ---------------------------------------------------------------------------------------

  /** Below 292 years, a longer duration is not held as a smaller number. */
  lemma SecsKeepOrder(a: nat, b: nat)
    requires a <= b < I64_LIMIT
    ensures Secs(a) <= Secs(b)
  {
    hide Round;
    RoundKeepsOrder(a, b, 1);
    TimesKeepsOrder(Round(a, 1), Round(b, 1), NANO);
    RoundKeepsOrder(Round(a, 1) * NANO, Round(b, 1) * NANO, 1);
  }

  lemma DoubledTen(q: nat, s: nat)
    requires s >= 10
    ensures Doubled(q, s) == Doubled(1024 * q, s - 10)
  {
    assert Doubled(q, s) == Doubled(4 * q, s - 2) == Doubled(16 * q, s - 4);
    assert Doubled(16 * q, s - 4) == Doubled(64 * q, s - 6) == Doubled(256 * q, s - 8) == Doubled(1024 * q, s - 10);
  }

  // Units in the last place of the numbers that matter below.
  lemma Units()
    ensures Doubled(1, 10) == 1024
    ensures Doubled(1, 52) == TWO_52 && Doubled(1, 53) == TWO_53 && Doubled(1, 63) == 1024 * TWO_53
  {
    DoubledLittle();
    DoubledTenTimes(0);
    DoubledTenTimes(2);
    DoubledTenTimes(12);
    DoubledTenTimes(22);
    DoubledTenTimes(32);
    DoubledTenTimes(42);
    DoubledTenTimes(53);
    DoubledOnce(1, 52);
  }

  lemma DoubledLittle()
    ensures Doubled(1, 0) == 1 && Doubled(1, 2) == 4
  {
    assert Doubled(1, 2) == Doubled(2, 1) == Doubled(4, 0);
  }

  lemma DoubledTenTimes(s: nat)
    ensures Doubled(1, s + 10) == 1024 * Doubled(1, s)
  {
    DoubledTen(1, s + 10);
    DoubledScales(1024, s);
  }

  lemma {:induction false} DoubledScales(q: nat, s: nat)
    ensures Doubled(q, s) == q * Doubled(1, s)
    decreases s
  {
    if s > 0 {
      DoubledScales(2 * q, s - 1);
      DoubledScales(2, s - 1);
      TwiceTimes(q, Doubled(1, s - 1));
    }
  }

  /** The units are the powers of two they are named for, and one second is the number one. */
  lemma UnitsArePowers()
    ensures TWO_52 == Doubled(1, 52) && TWO_53 == Doubled(1, 53) && TWO_82 == Doubled(1, 82)
    ensures I64_LIMIT == Doubled(1, 63)
    ensures Secs(1_000_000_000) == TWO_82
  {
    hide Round;
    Units();
    DoubledTenTimes(10);
    DoubledTenTimes(20);
    DoubledTenTimes(62);
    DoubledTenTimes(72);
    DoubledTenTimes(52);
    DoubledTenTimes(0);
    SmallIsExact(1_000_000_000);
    RoundInBinade(1_000_000_000 * NANO, 1, 30);
  }

  // The first span at which neighbouring nanoseconds can become one number, 97 days.
  const FIRST_MERGE: int := 8_388_608_000_000_002

  // Up to 2^23 seconds, a unit in the last place is less than a nanosecond.
  lemma FinerThanNanoseconds(a: nat, b: nat)
    requires a < b < FIRST_MERGE - 2
    ensures Secs(a) < Secs(b)
  {
    hide Round;
    Units();
    SmallIsExact(a);
    SmallIsExact(b);
    RoundIsNear(a * NANO, 1, 52);
    RoundIsNear(b * NANO, 1, 52);
  }

  // The numbers around 2^23 seconds.
  lemma AroundTheFirstMerge()
    ensures Secs(FIRST_MERGE - 3) < Secs(FIRST_MERGE - 2) < Secs(FIRST_MERGE - 1) == Secs(FIRST_MERGE)
  {
    hide Round;
    Units();
    SmallIsExact(FIRST_MERGE - 3);
    SmallIsExact(FIRST_MERGE - 2);
    SmallIsExact(FIRST_MERGE - 1);
    SmallIsExact(FIRST_MERGE);
    RoundInBinade((FIRST_MERGE - 3) * NANO, 1, 52);
    RoundInBinade((FIRST_MERGE - 2) * NANO, 1, 53);
    RoundInBinade((FIRST_MERGE - 1) * NANO, 1, 53);
    RoundInBinade(FIRST_MERGE * NANO, 1, 53);
  }

  /** Below the first merge no two durations become one number; there, two neighbours do. */
  lemma DistinctBelowFirstMerge(a: nat, b: nat)
    requires a < b < FIRST_MERGE
    ensures Secs(a) < Secs(b)
  {
    hide Secs;
    AroundTheFirstMerge();
    if b < FIRST_MERGE - 2 {
      FinerThanNanoseconds(a, b);
    } else if a < FIRST_MERGE - 2 {
      SecsKeepOrder(a, FIRST_MERGE - 3);
      SecsKeepOrder(FIRST_MERGE - 2, b);
    }
  }

  // Units for whole nanoseconds and for their products, up to 2^62 and 2^63 nanoseconds.
  lemma MoreUnits()
    ensures Doubled(1, 9) == 512 && Doubled(1, 10) == 1024
    ensures Doubled(1, 62) == 512 * TWO_53 && Doubled(1, 63) == 1024 * TWO_53
  {
    Units();
    DoubledOnce(1, 9);
    DoubledOnce(1, 62);
  }

  // Rounding to multiples of 1024 moves with steps of 2048.
  lemma HalfEvenMoves(n: nat)
    ensures HalfEven(n + 2048, 1024) == HalfEven(n, 1024) + 2
  {
  }

  // The whole nanoseconds, rounded, are still more than a unit of the product apart.
  lemma RoundedApart(a: nat, b: nat)
    requires a + 2048 <= b < I64_LIMIT
    ensures b < I64_LIMIT / 2 ==> Round(a, 1) + 1536 <= Round(b, 1) <= I64_LIMIT / 2
    ensures a < I64_LIMIT / 2 <= b ==> Round(a, 1) <= I64_LIMIT / 2 && Round(a, 1) + 1280 <= Round(b, 1) <= I64_LIMIT
    ensures I64_LIMIT / 2 <= a ==> Round(a, 1) + 2048 <= Round(b, 1) <= I64_LIMIT
  {
    hide Round, HalfEven;
    MoreUnits();
    LimitIsExact();
    if a < I64_LIMIT / 2 {
      RoundIsNear(a, 1, 9);
      RoundKeepsOrder(a, I64_LIMIT / 2, 1);
    }
    RoundKeepsOrder(b, I64_LIMIT, 1);
    if b < I64_LIMIT / 2 {
      RoundIsNear(b, 1, 9);
      RoundKeepsOrder(b, I64_LIMIT / 2, 1);
    } else {
      RoundIsNear(b, 1, 10);
    }
    if I64_LIMIT / 2 <= a {
      RoundInBinade(a, 1, 10);
      RoundInBinade(b, 1, 10);
      HalfEvenMoves(a);
      HalfEvenKeepsOrder(a + 2048, b, 1024);
    }
  }

  lemma LimitIsExact()
    ensures Round(I64_LIMIT / 2, 1) == I64_LIMIT / 2 && Round(I64_LIMIT, 1) == I64_LIMIT
  {
    hide Round;
    MoreUnits();
    DoubledOnce(1, 10);
    RoundInBinade(I64_LIMIT / 2, 1, 10);
    RoundInBinade(I64_LIMIT, 1, 11);
  }

  /** Durations below 292 years that are 2048 nanoseconds apart never become one number. */
  lemma SpacedApart(a: nat, b: nat)
    requires a + 2048 <= b < I64_LIMIT
    ensures Secs(a) < Secs(b)
  {
    hide Round;
    MoreUnits();
    RoundedApart(a, b);
    var m, n := Round(a, 1), Round(b, 1);
    if I64_LIMIT / 2 <= a {
      RoundIsNear(m * NANO, 1, 63);
      RoundIsNear(n * NANO, 1, 63);
      assert (m + 2048) * NANO <= n * NANO;
    } else {
      RoundIsNear(m * NANO, 1, 62);
      if n * NANO < 512 * TWO_53 * TWO_53 {
        RoundIsNear(n * NANO, 1, 62);
        assert (m + 1280) * NANO <= n * NANO;
      } else {
        RoundIsNear(n * NANO, 1, 63);
      }
    }
  }

  // Two neighbouring multiples of 1024 nanoseconds that are one number of seconds.
  lemma NeighboursMerge()
    ensures Round(9_000_000_000_000_006_144 * NANO, 1) == Round(9_000_000_000_000_007_168 * NANO, 1)
  {
    hide Round;
    MoreUnits();
    RoundInBinade(9_000_000_000_000_006_144 * NANO, 1, 63);
    RoundInBinade(9_000_000_000_000_007_168 * NANO, 1, 63);
  }

  /** That is the least such distance: two durations 2047 nanoseconds apart that are one number. */
  lemma SpacingIsSharp()
    ensures Secs(9_000_000_000_000_005_632) == Secs(9_000_000_000_000_005_632 + 2047)
  {
    hide Round;
    MoreUnits();
    NeighboursMerge();
    RoundInBinade(9_000_000_000_000_005_632, 1, 10);
    RoundInBinade(9_000_000_000_000_005_632 + 2047, 1, 10);
  }

  /** Beyond, durations in one millisecond are one number. */
  lemma OneMillisecondIsOneNumber(a: nat, b: nat)
    requires a >= I64_LIMIT && b >= I64_LIMIT && a / MILLI == b / MILLI
    ensures Secs(a) == Secs(b)
  {
    hide Round;
  }

  /** At the change from nanoseconds to milliseconds, the last whole millisecond is one number in both. */
  lemma OneNumberAcrossTheLimit(b: nat)
    requires b >= I64_LIMIT && b / MILLI == I64_LIMIT / MILLI
    ensures Secs(I64_LIMIT / MILLI * MILLI) == Secs(b)
  {
    hide Round;
    Units();
    var ms := I64_LIMIT / MILLI;
    var a, held := ms * MILLI, 9_007_199_254_740_234 * 1024;
    RoundInBinade(a, 1, 10);
    assert Round(a, 1) == held;
    RoundInBinade(held * NANO, 1, 63);
    SmallIsExact(ms);
    DoubledScales(1000, 63);
    RoundInBinade(ms * TWO_82, 1000, 63);
  }

  // 2^43 seconds, in milliseconds.
  const MILLIS_LIMIT: int := 8_796_093_022_208_000

  /** Beyond 292 years, and up to 278 thousand, durations are one number exactly in one millisecond. */
  lemma MillisecondsDecide(a: nat, b: nat)
    requires I64_LIMIT <= a && I64_LIMIT <= b && a / MILLI < MILLIS_LIMIT && b / MILLI < MILLIS_LIMIT
    ensures Secs(a) == Secs(b) <==> a / MILLI == b / MILLI
  {
    hide Round;
    var m, n := a / MILLI, b / MILLI;
    SmallIsExact(m);
    SmallIsExact(n);
    UnitOfMillis();
    RoundIsNear(m * TWO_82, 1000, 72);
    RoundIsNear(n * TWO_82, 1000, 72);
  }

  lemma UnitOfMillis()
    ensures Doubled(1000, 72) * 1024 == 1000 * TWO_82
  {
    MoreUnits();
    DoubledTenTimes(62);
    DoubledScales(1000, 72);
  }

  // ---------------------------------------------------------------------------------------
  // Negative durations
  // ---------------------------------------------------------------------------------------

  /** A duration of either sign; none that arises is below minus one second. */
  function Signed(n: int): int {
    if n >= 0 then Secs(n) else 0 - Secs(-n)
  }

  lemma NothingIsZero()
    ensures Secs(0) == 0
  {
    hide Round;
    SmallIsExact(0);
  }

  /** Below the first merge, on either side of zero, no two durations become one number. */
  lemma SignedDistinct(a: int, b: int)
    requires -FIRST_MERGE < a < b < FIRST_MERGE
    ensures Signed(a) < Signed(b)
  {
    hide Secs;
    NothingIsZero();
    if a < 0 {
      DistinctBelowFirstMerge(0, -a);
    }
    if b > 0 {
      DistinctBelowFirstMerge(0, b);
    }
    if a >= 0 {
      DistinctBelowFirstMerge(a, b);
    } else if b < 0 {
      DistinctBelowFirstMerge(-b, -a);
    }
  }

  /** The same for durations from minus one second to 292 years that are 2048 nanoseconds apart. */
  lemma SignedSpacedApart(a: int, b: int)
    requires -1_000_000_000 < a && a + 2048 <= b < I64_LIMIT
    ensures Signed(a) < Signed(b)
  {
    hide Secs;
    if a >= 0 {
      SpacedApart(a, b);
    } else if b < 0 {
      SignedDistinct(a, b);
    } else {
      SignedDistinct(a, 0);
      NothingIsZero();
    }
  }

  lemma SignedKeepOrder(a: int, b: int)
    requires -1_000_000_000 < a <= b < I64_LIMIT
    ensures Signed(a) <= Signed(b)
  {
    hide Secs;
    if a >= 0 {
      SecsKeepOrder(a, b);
    } else if b < 0 {
      SecsKeepOrder(-b, -a);
    }
  }
}
