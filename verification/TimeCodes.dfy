/**
 The two six-octet time codes that can lead a packet's secondary header, section 3.2 (unsegmented)
 and section 3.3 (day segmented) of CCSDS 301.0-B-4, and the choice of the instant a packet is
 evaluated at.
 */
module TimeCodes {
  import opened Instants
  import opened Octets
  import opened SpacePackets

  const MILLI: int := 1_000_000
  const MS_PER_DAY: int := 86_400_000

  /** Seconds from 1970 to 1958-01-01. */
  const CCSDS_EPOCH: int := -378_691_200

  datatype TimeFormat = NoTime | Cds | Cuc

  datatype TimeError = TooShort(len: nat) | OutOfRange

  const TIME_FIELD_LEN: nat := 6

  // ---------------------------------------------------------------------------------------
  // 32-bit numbers
  // ---------------------------------------------------------------------------------------

  const TWO_32: int := 0x1_0000_0000

  /** `u32::from_be_bytes` */
  function U32(a: bv8, b: bv8, c: bv8, d: bv8): nat {
    U16(a, b) * 0x1_0000 + U16(c, d)
  }

  /** `u32::to_be_bytes` */
  function BigEndian32(n: nat): (b: Octets)
    ensures |b| == 4
  {
    BigEndian16(n / 0x1_0000) + BigEndian16(n % 0x1_0000)
  }

  lemma BigEndian32RoundTrip(n: nat)
    requires n < TWO_32
    ensures var b := BigEndian32(n); U32(b[0], b[1], b[2], b[3]) == n
  {
    hide BigEndian16, U16;
    BigEndian16RoundTrip(n / 0x1_0000);
    BigEndian16RoundTrip(n % 0x1_0000);
  }

  /** A field of six octets as one big-endian number. */
  function FieldValue(f: Octets): nat
    requires |f| == TIME_FIELD_LEN
  {
    U32(f[0], f[1], f[2], f[3]) * 0x1_0000 + U16(f[4], f[5])
  }

  // ---------------------------------------------------------------------------------------
  // Day segmented time
  // ---------------------------------------------------------------------------------------

  /** `timestamp_millis` */
  function Millis(t: Instant): int {
    t.secs * 1000 + t.nanos / MILLI
  }

  function FromMillis(ms: int): Instant {
    Instant(ms / 1000, ms % 1000 * MILLI)
  }

  // Milliseconds since the CCSDS epoch.
  function CdsCount(t: Instant): int {
    Millis(t) - CCSDS_EPOCH * 1000
  }

  /** `encode_cds` */
  function EncodeCds(t: Instant): (f: Option<Octets>)
    ensures f.Some? ==> |f.value| == TIME_FIELD_LEN
  {
    var n := CdsCount(t);
    if n < 0 then None
    else if n / MS_PER_DAY >= 0x1_0000 then None
    else Some(BigEndian16(n / MS_PER_DAY) + BigEndian32(n % MS_PER_DAY))
  }

  // ---------------------------------------------------------------------------------------
  // Unsegmented time
  // ---------------------------------------------------------------------------------------

  // `(nanos << 16) / 1_000_000_000`, before it is cut to 16 bits.
  function FineOf(nanos: nat): nat {
    nanos * 0x1_0000 / NANO
  }

  // `(fine * 1_000_000_000) >> 16`
  function NanosOf(fine: nat): (n: nat)
    ensures fine < 0x1_0000 ==> n < NANO
  {
    fine * NANO / 0x1_0000
  }

  /** `encode_cuc` */
  function EncodeCuc(t: Instant, taiMinusUtc: int): (f: Option<Octets>)
    ensures f.Some? ==> |f.value| == TIME_FIELD_LEN
  {
    var coarse := t.secs - CCSDS_EPOCH + taiMinusUtc;
    if coarse < 0 || coarse >= TWO_32 then None
    else Some(BigEndian32(coarse) + BigEndian16(FineOf(t.nanos) % 0x1_0000))
  }

  // ---------------------------------------------------------------------------------------
  // Decoding
  // ---------------------------------------------------------------------------------------

  /** `decode_time` */
  function DecodeTime(format: TimeFormat, data: Octets, taiMinusUtc: int): Result<Option<Instant>, TimeError> {
    if format.NoTime? then Ok(None)
    else if |data| < TIME_FIELD_LEN then Err(TimeError.TooShort(|data|))
    else match format
      case Cds =>
        var days, ms := U16(data[0], data[1]), U32(data[2], data[3], data[4], data[5]);
        if ms >= MS_PER_DAY + 1000 then Err(OutOfRange)
        else Ok(Some(FromMillis(CCSDS_EPOCH * 1000 + days * MS_PER_DAY + ms)))
      case Cuc =>
        var coarse, fine := U32(data[0], data[1], data[2], data[3]), U16(data[4], data[5]);
        Ok(Some(Instant(CCSDS_EPOCH + coarse - taiMinusUtc, NanosOf(fine))))
  }

  /** `encode_time` */
  function EncodeTime(format: TimeFormat, t: Instant, taiMinusUtc: int): (f: Option<Octets>)
    ensures f.Some? ==> |f.value| == TIME_FIELD_LEN
  {
    match format
    case Cds => EncodeCds(t)
    case Cuc => EncodeCuc(t, taiMinusUtc)
    case NoTime => None
  }

  // ---------------------------------------------------------------------------------------
  // Day segmented time: round trips
  // ---------------------------------------------------------------------------------------

  // The digits of an encoded field, whatever follows it.
  lemma CdsDigits(t: Instant, rest: Octets)
    requires EncodeCds(t).Some?
    ensures var data := EncodeCds(t).value + rest;
            && U16(data[0], data[1]) == CdsCount(t) / MS_PER_DAY
            && U32(data[2], data[3], data[4], data[5]) == CdsCount(t) % MS_PER_DAY
  {
    hide BigEndian16, U16, U32, BigEndian32, CdsCount;
    BigEndian16RoundTrip(CdsCount(t) / MS_PER_DAY);
    BigEndian32RoundTrip(CdsCount(t) % MS_PER_DAY);
    var a, b := BigEndian16(CdsCount(t) / MS_PER_DAY), BigEndian32(CdsCount(t) % MS_PER_DAY);
    assert (a + b + rest)[2] == b[0] && (a + b + rest)[3] == b[1] && (a + b + rest)[4] == b[2] && (a + b + rest)[5]
        == b[3];
  }

  lemma MillisAreTruncated(t: Instant)
    ensures Position(FromMillis(Millis(t))) == Position(t) - t.nanos % MILLI
    ensures Ordinary(t) ==> FromMillis(Millis(t)) == Instant(t.secs, t.nanos - t.nanos % MILLI)
  {
  }

  /**
   Decoding an encoded instant cuts it to the millisecond; an instant outside 1958 to 2137 is not
   encoded.  Within a leap second the result is on the next second, at the same position.
   */
  lemma CdsRoundTrip(t: Instant, rest: Octets, taiMinusUtc: int)
    ensures EncodeCds(t).Some? <==> 0 <= CdsCount(t) < 0x1_0000 * MS_PER_DAY
    ensures EncodeCds(t).Some? ==>
              var back := DecodeTime(Cds, EncodeCds(t).value + rest, taiMinusUtc);
              && back.Ok? && back.value.Some? && Ordinary(back.value.value)
              && Position(back.value.value) == Position(t) - t.nanos % MILLI
              && (Ordinary(t) ==> back.value.value == Instant(t.secs, t.nanos - t.nanos % MILLI))
  {
    hide U16, U32, BigEndian16, BigEndian32, Millis, FromMillis, Position;
    if EncodeCds(t).Some? {
      CdsDigits(t, rest);
      MillisAreTruncated(t);
      assert CCSDS_EPOCH * 1000 + CdsCount(t) / MS_PER_DAY * MS_PER_DAY + CdsCount(t) % MS_PER_DAY == Millis(t);
      FromMillisIsOrdinary(Millis(t));
    }
  }

  lemma FromMillisIsOrdinary(ms: int)
    ensures Ordinary(FromMillis(ms))
    ensures Millis(FromMillis(ms)) == ms
  {
  }

  lemma U16Injective(a: bv8, b: bv8, c: bv8, d: bv8)
    requires U16(a, b) == U16(c, d)
    ensures a == c && b == d
  {
    OctetIdentity(a, c);
    OctetIdentity(b, d);
  }

  // Equal numbers, equal octets.
  lemma FieldInjective(f: Octets, g: Octets)
    requires |f| == |g| == TIME_FIELD_LEN
    requires U16(f[0], f[1]) == U16(g[0], g[1]) && U16(f[2], f[3]) == U16(g[2], g[3]) && U16(f[4], f[5])
        == U16(g[4], g[5])
    ensures f == g
  {
    hide U16;
    U16Injective(f[0], f[1], g[0], g[1]);
    U16Injective(f[2], f[3], g[2], g[3]);
    U16Injective(f[4], f[5], g[4], g[5]);
  }

  /**
   Which fields are read, and which of them come back when the instant is encoded again: exactly those
   within the day.  A field in the leap second after the day comes back as the start of the next day,
   or not at all on the last day.
   */
  lemma CdsFieldRoundTrip(f: Octets, taiMinusUtc: int)
    requires |f| == TIME_FIELD_LEN
    ensures var days, ms := U16(f[0], f[1]), U32(f[2], f[3], f[4], f[5]);
            var read := DecodeTime(Cds, f, taiMinusUtc);
            && (read.Ok? <==> ms < MS_PER_DAY + 1000)
            && (read.Ok? ==>
                 && read.value.Some? && CdsCount(read.value.value) == days * MS_PER_DAY + ms
                 && (EncodeCds(read.value.value) == Some(f) <==> ms < MS_PER_DAY)
                 && (EncodeCds(read.value.value) == None <==> ms >= MS_PER_DAY && days == 0xFFFF))
  {
    hide U16, BigEndian16, BigEndian32, Millis, FromMillis;
    var days, ms := U16(f[0], f[1]), U32(f[2], f[3], f[4], f[5]);
    if ms < MS_PER_DAY + 1000 {
      var t := DecodeTime(Cds, f, taiMinusUtc).value.value;
      FromMillisIsOrdinary(CCSDS_EPOCH * 1000 + days * MS_PER_DAY + ms);
      assert CdsCount(t) == days * MS_PER_DAY + ms;
      if EncodeCds(t).Some? {
        var g := EncodeCds(t).value;
        CdsDigits(t, []);
        assert g + [] == g;
        if ms < MS_PER_DAY {
          FieldInjective(f, g);
        }
      }
    }
  }

  // ---------------------------------------------------------------------------------------
  // Unsegmented time: round trips
  // ---------------------------------------------------------------------------------------

  lemma CucDigits(t: Instant, taiMinusUtc: int, rest: Octets)
    requires EncodeCuc(t, taiMinusUtc).Some?
    ensures var data := EncodeCuc(t, taiMinusUtc).value + rest;
            && U32(data[0], data[1], data[2], data[3]) == t.secs - CCSDS_EPOCH + taiMinusUtc
            && U16(data[4], data[5]) == FineOf(t.nanos) % 0x1_0000
  {
    hide BigEndian16, U16, U32, BigEndian32, FineOf;
    var coarse, fine := t.secs - CCSDS_EPOCH + taiMinusUtc, FineOf(t.nanos) % 0x1_0000;
    BigEndian32RoundTrip(coarse);
    BigEndian16RoundTrip(fine);
    var a, b := BigEndian32(coarse), BigEndian16(fine);
    assert (a + b + rest)[0] == a[0] && (a + b + rest)[1] == a[1] && (a + b + rest)[2] == a[2] && (a + b + rest)[3]
        == a[3];
    assert (a + b + rest)[4] == b[0] && (a + b + rest)[5] == b[1];
  }

  // The fraction loses less than one 65536th of a second.
  lemma FractionLoss(nanos: nat)
    requires nanos < NANO
    ensures FineOf(nanos) < 0x1_0000
    ensures 0 <= nanos - NanosOf(FineOf(nanos)) <= 15_259
  {
    var fine := FineOf(nanos);
    assert fine * NANO <= nanos * 0x1_0000 < (fine + 1) * NANO;
    assert NanosOf(fine) * 0x1_0000 <= fine * NANO < (NanosOf(fine) + 1) * 0x1_0000;
  }

  // A leap second's fraction has the octets of the second before it.
  lemma LeapFractionWraps(nanos: nat)
    requires NANO <= nanos < 2 * NANO
    ensures FineOf(nanos) % 0x1_0000 == FineOf(nanos - NANO) < 0x1_0000
  {
    FractionLoss(nanos - NANO);
    assert nanos * 0x1_0000 == (nanos - NANO) * 0x1_0000 + 0x1_0000 * NANO;
    assert FineOf(nanos) == FineOf(nanos - NANO) + 0x1_0000;
  }

  /** How far the decoded instant is behind the encoded one. */
  function CucLoss(t: Instant, taiMinusUtc: int): int
    requires EncodeCuc(t, taiMinusUtc).Some?
  {
    match DecodeTime(Cuc, EncodeCuc(t, taiMinusUtc).value, taiMinusUtc)
    case Ok(Some(back)) => Position(t) - Position(back)
    case _ => 0
  }

  /**
   Decoding an encoded instant gives one at or before it, within the same second, by at most 15 259
   nanoseconds, exactly for the instants outside a leap second.  Within one, the fraction does not fit
   its 16 bits and the decoded instant is a whole second early.
   */
  lemma CucRoundTrip(t: Instant, taiMinusUtc: int, rest: Octets)
    requires EncodeCuc(t, taiMinusUtc).Some?
    ensures var back := DecodeTime(Cuc, EncodeCuc(t, taiMinusUtc).value + rest, taiMinusUtc);
            && back.Ok? && back.value.Some? && back.value.value.secs == t.secs && Ordinary(back.value.value)
            && AtOrBefore(back.value.value, t)
            && (Ordinary(t) <==> 0 <= Position(t) - Position(back.value.value) <= 15_259)
            && (!Ordinary(t) ==> NANO <= Position(t) - Position(back.value.value) <= NANO + 15_259)
  {
    hide U16, U32, BigEndian16, BigEndian32, FineOf, NanosOf;
    CucDigits(t, taiMinusUtc, rest);
    if Ordinary(t) {
      FractionLoss(t.nanos);
    } else {
      LeapFractionWraps(t.nanos);
      FractionLoss(t.nanos - NANO);
    }
  }

  /** The bound is met. */
  lemma CucLossIsSharp()
    ensures EncodeCuc(Instant(0, 30_517), 37).Some? && CucLoss(Instant(0, 30_517), 37) == 15_259
  {
    hide U16, U32, BigEndian16, BigEndian32;
    var t := Instant(0, 30_517);
    CucDigits(t, 37, []);
    assert EncodeCuc(t, 37).value + [] == EncodeCuc(t, 37).value;
  }

  // What decoding and encoding again does to the fine part.
  lemma FineAgain(fine: nat)
    requires fine < 0x1_0000
    ensures NanosOf(fine) < NANO
    ensures FineOf(NanosOf(fine)) == if fine % 128 == 0 then fine else fine - 1
  {
    var n := NanosOf(fine);
    assert n * 0x1_0000 <= fine * NANO < (n + 1) * 0x1_0000;
    if fine % 128 == 0 {
      var q := fine / 128;
      assert fine * NANO == q * 1_953_125 * 0x1_0000;
      assert n == q * 1_953_125;
    } else {
      RemainderIsPositive(fine);
      assert (fine - 1) * NANO < n * 0x1_0000 < fine * NANO;
    }
  }

  // 65536 does not divide `fine * 10^9` unless 128 divides `fine`.
  lemma RemainderIsPositive(fine: nat)
    requires fine % 128 != 0
    ensures fine * NANO % 0x1_0000 != 0
  {
    var q, r := fine / 128, fine % 128;
    var m := r * 1_953_125;
    var c, e := m / 128, m % 128;
    OddFactor(r);
    assert fine * NANO == (q * 1_953_125 + c) * 0x1_0000 + 512 * e;
    UniqueRemainder(fine * NANO, q * 1_953_125 + c, 512 * e);
  }

  lemma OddFactor(r: nat)
    requires 0 < r < 128
    ensures r * 1_953_125 % 128 != 0
  {
    var n, k := r * 101, r * 15_258;
    assert r * 1_953_125 == n + 128 * k;
    Modulo128(n, k);
    SmallOddFactor(r);
  }

  lemma Modulo128(n: nat, k: nat)
    ensures (n + 128 * k) % 128 == n % 128
  {
  }

  lemma SmallOddFactor(r: nat)
    requires 0 < r < 128
    ensures r * 101 % 128 != 0
  {
  }

  lemma UniqueRemainder(n: nat, q: nat, e: nat)
    requires n == q * 0x1_0000 + e && e < 0x1_0000
    ensures n % 0x1_0000 == e
  {
  }

  /**
   A decoded field that is encoded again keeps its seconds; its fine part is the same exactly when 128
   divides it, and otherwise one lower.
   */
  lemma CucFieldRoundTrip(f: Octets, taiMinusUtc: int)
    requires |f| == TIME_FIELD_LEN
    ensures var fine := U16(f[4], f[5]);
            var read := DecodeTime(Cuc, f, taiMinusUtc);
            && read.Ok? && read.value.Some?
            && EncodeCuc(read.value.value, taiMinusUtc)
                == Some(f[..4] + BigEndian16(if fine % 128 == 0 then fine else fine - 1))
  {
    hide U16, BigEndian16, NanosOf, FineOf;
    var t, fine := DecodeTime(Cuc, f, taiMinusUtc).value.value, U16(f[4], f[5]);
    FineAgain(fine);
    Octets32(f);
  }

  // Octets are the digits of their number.
  lemma Octets32(f: Octets)
    requires |f| >= 4
    ensures U32(f[0], f[1], f[2], f[3]) < TWO_32
    ensures BigEndian32(U32(f[0], f[1], f[2], f[3])) == f[..4]
  {
    hide BigEndian16, U16;
    Octets16(f[0], f[1]);
    Octets16(f[2], f[3]);
    var n := U32(f[0], f[1], f[2], f[3]);
    assert n / 0x1_0000 == U16(f[0], f[1]) && n % 0x1_0000 == U16(f[2], f[3]);
  }

  lemma Octets16(a: bv8, b: bv8)
    ensures BigEndian16(U16(a, b)) == [a, b]
  {
    hide U16, BigEndian16;
    var d := BigEndian16(U16(a, b));
    BigEndian16RoundTrip(U16(a, b));
    U16Injective(a, b, d[0], d[1]);
  }

  // ---------------------------------------------------------------------------------------
  // What the fields say
  // ---------------------------------------------------------------------------------------

  /** Days of a year of the Gregorian calendar. */
  function DaysOf(year: nat): nat {
    if year % 4 == 0 && (year % 100 != 0 || year % 400 == 0) then 366 else 365
  }

  function DaysBefore(year: nat, from: nat): nat
    requires from <= year
    decreases year - from
  {
    if from == year then 0 else DaysOf(from) + DaysBefore(year, from + 1)
  }

  /** The epoch is as many days before 1970 as the years from 1958 on have. */
  lemma EpochIsTheStartOf1958()
    ensures DaysBefore(1970, 1958) == 4383 && CCSDS_EPOCH == -86_400 * DaysBefore(1970, 1958)
  {
    assert DaysBefore(1970, 1966) == 4 * 365 + 1;
    assert DaysBefore(1970, 1962) == 8 * 365 + 2;
    assert DaysBefore(1970, 1958) == 12 * 365 + 3;
  }

  lemma U32Is(a: bv8, b: bv8, c: bv8, d: bv8)
    ensures U32(a, b, c, d) == a as nat * 16_777_216 + b as nat * 65_536 + c as nat * 256 + d as nat
  {
  }

  /** The days of a day segmented field, its milliseconds, and the milliseconds since 1958 that it says. */
  function DaysIn(f: Octets): nat
    requires |f| >= 6
  {
    f[0] as nat * 256 + f[1] as nat
  }

  function MillisIn(f: Octets): nat
    requires |f| >= 6
  {
    f[2] as nat * 16_777_216 + f[3] as nat * 65_536 + f[4] as nat * 256 + f[5] as nat
  }

  /** The seconds of an unsegmented field, and its 65536ths of a second. */
  function SecondsIn(f: Octets): nat
    requires |f| >= 6
  {
    f[0] as nat * 16_777_216 + f[1] as nat * 65_536 + f[2] as nat * 256 + f[3] as nat
  }

  function FractionIn(f: Octets): nat
    requires |f| >= 6
  {
    f[4] as nat * 256 + f[5] as nat
  }

  /** A field written for `t`: the day, and the millisecond of the day, counted from 1958. */
  lemma CdsFieldIs(t: Instant, f: Octets)
    requires |f| == 6
    ensures EncodeCds(t) == Some(f) <==>
              && DaysIn(f) * 86_400_000 + MillisIn(f) == t.secs * 1000 + t.nanos / 1_000_000 + 378_691_200_000
              && MillisIn(f) < 86_400_000
  {
    hide U16, U32, BigEndian16, BigEndian32, EncodeCds, DaysIn, MillisIn;
    NumbersIn(f);
    var n := CdsCount(t);
    CdsEncodes(t);
    if EncodeCds(t).Some? {
      var g := EncodeCds(t).value;
      CdsDigits(t, []);
      assert g + [] == g;
      if n == DaysIn(f) * MS_PER_DAY + MillisIn(f) && MillisIn(f) < MS_PER_DAY {
        assert n / MS_PER_DAY == DaysIn(f) && n % MS_PER_DAY == MillisIn(f);
        DigitsInjective(f, g);
      }
    }
  }

  lemma DigitsInjective(f: Octets, g: Octets)
    requires |f| == |g| == 6
    requires U16(f[0], f[1]) == U16(g[0], g[1]) && U32(f[2], f[3], f[4], f[5]) == U32(g[2], g[3], g[4], g[5])
    ensures f == g
  {
    hide U16;
    FieldInjective(f, g);
  }

  lemma CdsEncodes(t: Instant)
    ensures EncodeCds(t).Some? <==> 0 <= CdsCount(t) < 0x1_0000 * MS_PER_DAY
  {
    hide BigEndian16, BigEndian32, CdsCount;
  }

  lemma NumbersIn(f: Octets)
    requires |f| >= 6
    ensures DaysIn(f) == U16(f[0], f[1]) < 0x1_0000 && MillisIn(f) == U32(f[2], f[3], f[4], f[5])
    ensures SecondsIn(f) == U32(f[0], f[1], f[2], f[3]) && FractionIn(f) == U16(f[4], f[5]) < 0x1_0000
  {
    U32Is(f[0], f[1], f[2], f[3]);
    U32Is(f[2], f[3], f[4], f[5]);
  }

  /**
   The instant read from a day segmented field, whole milliseconds; a field a second or more past the
   day is not read.
   */
  lemma CdsFieldReads(data: Octets, taiMinusUtc: int, t: Instant)
    requires |data| >= 6
    ensures DecodeTime(Cds, data, taiMinusUtc) == Ok(Some(t)) <==>
              && MillisIn(data) < 86_401_000
              && t.nanos < 1_000_000_000 && t.nanos % 1_000_000 == 0
              && t.secs * 1000 + t.nanos / 1_000_000 == DaysIn(data) * 86_400_000 + MillisIn(data) - 378_691_200_000
  {
    hide U16, U32, DaysIn, MillisIn;
    NumbersIn(data);
  }

  /** A field written for `t`: the second, counted from 1958 in TAI, and the 65536th it is in. */
  lemma CucFieldIs(t: Instant, taiMinusUtc: int, f: Octets)
    requires |f| == 6
    ensures EncodeCuc(t, taiMinusUtc) == Some(f) <==>
              && SecondsIn(f) == t.secs + 378_691_200 + taiMinusUtc
              && var fraction := if t.nanos < 1_000_000_000 then t.nanos else t.nanos - 1_000_000_000;
                 FractionIn(f) * 1_000_000_000 <= fraction * 65_536 < (FractionIn(f) + 1) * 1_000_000_000
  {
    hide U16, U32, BigEndian16, BigEndian32, EncodeCuc, FineOf, SecondsIn, FractionIn;
    NumbersIn(f);
    Octets32(f);
    FineIs(HeldNanos(t), FractionIn(f));
    FractionLoss(HeldNanos(t));
    CucEncodes(t, taiMinusUtc);
    if !Ordinary(t) {
      LeapFractionWraps(t.nanos);
    }
    if EncodeCuc(t, taiMinusUtc).Some? {
      var g := EncodeCuc(t, taiMinusUtc).value;
      CucDigits(t, taiMinusUtc, []);
      assert g + [] == g;
      if SecondsIn(f) == t.secs - CCSDS_EPOCH + taiMinusUtc && FractionIn(f) == FineOf(HeldNanos(t)) {
        WordsInjective(f, g);
      }
    }
  }

  lemma CucEncodes(t: Instant, taiMinusUtc: int)
    ensures EncodeCuc(t, taiMinusUtc).Some? <==> 0 <= t.secs - CCSDS_EPOCH + taiMinusUtc < TWO_32
  {
    hide BigEndian16, BigEndian32, FineOf;
  }

  lemma FineIs(nanos: nat, fine: nat)
    ensures FineOf(nanos) == fine <==> fine * 1_000_000_000 <= nanos * 65_536 < (fine + 1) * 1_000_000_000
  {
  }

  lemma WordsInjective(f: Octets, g: Octets)
    requires |f| == |g| == 6
    requires U32(f[0], f[1], f[2], f[3]) == U32(g[0], g[1], g[2], g[3]) && U16(f[4], f[5]) == U16(g[4], g[5])
    ensures f == g
  {
    hide U16;
    FieldInjective(f, g);
  }

  /** The instant read from an unsegmented field. */
  lemma CucFieldReads(data: Octets, taiMinusUtc: int, t: Instant)
    requires |data| >= 6
    ensures DecodeTime(Cuc, data, taiMinusUtc) == Ok(Some(t)) <==>
              && t.secs == SecondsIn(data) - 378_691_200 - taiMinusUtc
              && t.nanos * 65_536 <= FractionIn(data) * 1_000_000_000 < (t.nanos + 1) * 65_536
  {
    hide U16, U32, SecondsIn, FractionIn;
    NumbersIn(data);
  }

  // ---------------------------------------------------------------------------------------
  // Order
  // ---------------------------------------------------------------------------------------

  lemma CdsValue(t: Instant)
    requires EncodeCds(t).Some?
    ensures FieldValue(EncodeCds(t).value) == CdsCount(t) / MS_PER_DAY * TWO_32 + CdsCount(t) % MS_PER_DAY
  {
    hide U16, BigEndian16, BigEndian32, CdsCount;
    CdsDigits(t, []);
    var f := EncodeCds(t).value;
    assert f + [] == f;
  }

  // The leap second `t` is in runs past `u`, in the second after it.
  predicate OvertakesInCds(t: Instant, u: Instant) {
    u.secs == t.secs + 1 && !Ordinary(t) && (t.nanos - NANO) / MILLI > u.nanos / MILLI
  }

  // `t` has run past the leap second `u` is in, counted from its start.
  predicate OvertakesInCuc(t: Instant, u: Instant) {
    t.secs == u.secs && Ordinary(t) && !Ordinary(u) && FineOf(t.nanos) > FineOf(u.nanos - NANO)
  }

  /**
   Fields compare as numbers the way the instants do, to the millisecond.  So a later instant has a
   smaller field exactly when the earlier one is in a leap second, the later one is in the second after
   it, and its millisecond there is smaller.
   */
  lemma CdsKeepsOrder(t: Instant, u: Instant)
    requires EncodeCds(t).Some? && EncodeCds(u).Some?
    ensures FieldValue(EncodeCds(t).value) <= FieldValue(EncodeCds(u).value) <==> Millis(t) <= Millis(u)
    ensures AtOrBefore(t, u) ==>
              (FieldValue(EncodeCds(t).value) <= FieldValue(EncodeCds(u).value) <==> !OvertakesInCds(t, u))
  {
    hide FieldValue, EncodeCds;
    CdsValue(t);
    CdsValue(u);
    DigitsOrder(CdsCount(t), CdsCount(u));
    if AtOrBefore(t, u) {
      MillisKeepOrder(t, u);
    }
  }

  lemma MillisKeepOrder(t: Instant, u: Instant)
    requires AtOrBefore(t, u)
    ensures Millis(t) <= Millis(u) <==> !OvertakesInCds(t, u)
  {
    assert (t.nanos - NANO) / MILLI == t.nanos / MILLI - 1000;
    assert 0 <= t.nanos / MILLI < 2000 && 0 <= u.nanos / MILLI < 2000;
  }

  lemma DigitsOrder(a: int, b: int)
    ensures a / MS_PER_DAY * TWO_32 + a % MS_PER_DAY <= b / MS_PER_DAY * TWO_32 + b % MS_PER_DAY <==> a <= b
  {
    if a / MS_PER_DAY == b / MS_PER_DAY {
    } else if a < b {
      assert a / MS_PER_DAY + 1 <= b / MS_PER_DAY;
    } else {
      assert b / MS_PER_DAY + 1 <= a / MS_PER_DAY;
    }
  }

  // The fraction as the field holds it: within a leap second, that of the second before.
  function HeldNanos(t: Instant): nat {
    if Ordinary(t) then t.nanos else t.nanos - NANO
  }

  lemma CucValue(t: Instant, taiMinusUtc: int)
    requires EncodeCuc(t, taiMinusUtc).Some?
    ensures FieldValue(EncodeCuc(t, taiMinusUtc).value)
        == (t.secs - CCSDS_EPOCH + taiMinusUtc) * 0x1_0000 + FineOf(HeldNanos(t))
    ensures FineOf(HeldNanos(t)) < 0x1_0000
  {
    hide U16, U32, BigEndian16, BigEndian32, FineOf;
    CucDigits(t, taiMinusUtc, []);
    FractionLoss(HeldNanos(t));
    if !Ordinary(t) {
      LeapFractionWraps(t.nanos);
    }
    var f := EncodeCuc(t, taiMinusUtc).value;
    assert f + [] == f;
  }

  lemma FineKeepsOrder(a: nat, b: nat)
    requires a <= b
    ensures FineOf(a) <= FineOf(b)
  {
  }

  /**
   When a later instant has a smaller field: exactly when both are in one second, only the later one
   in its leap second, and the later one's fraction of it is the smaller, in 65536ths.
   */
  lemma CucOrderExactly(t: Instant, u: Instant, taiMinusUtc: int)
    requires AtOrBefore(t, u)
    requires EncodeCuc(t, taiMinusUtc).Some? && EncodeCuc(u, taiMinusUtc).Some?
    ensures FieldValue(EncodeCuc(t, taiMinusUtc).value) <= FieldValue(EncodeCuc(u, taiMinusUtc).value)
        <==> !OvertakesInCuc(t, u)
  {
    hide FieldValue, EncodeCuc, FineOf;
    CucValue(t, taiMinusUtc);
    CucValue(u, taiMinusUtc);
    if t.secs == u.secs && (Ordinary(t) <==> Ordinary(u)) {
      FineKeepsOrder(HeldNanos(t), HeldNanos(u));
    }
  }

  /** Within a leap second neither code keeps the order. */
  lemma LeapSecondsBreakOrder()
    ensures var t, u, w := Instant(-1, 900_000_000), Instant(-1, 1_500_000_000), Instant(0, 0);
            && AtOrBefore(t, u) && AtOrBefore(u, w)
            && EncodeCuc(t, 37).Some? && EncodeCuc(u, 37).Some?
            && FieldValue(EncodeCuc(t, 37).value) > FieldValue(EncodeCuc(u, 37).value)
            && EncodeCds(u).Some? && EncodeCds(w).Some?
            && FieldValue(EncodeCds(u).value) > FieldValue(EncodeCds(w).value)
  {
    hide U16, U32, BigEndian16, BigEndian32, FieldValue;
    var t, u, w := Instant(-1, 900_000_000), Instant(-1, 1_500_000_000), Instant(0, 0);
    CucOrderExactly(t, u, 37);
    CdsKeepsOrder(u, w);
  }

  // ---------------------------------------------------------------------------------------
  // The instant a packet is evaluated at
  // ---------------------------------------------------------------------------------------

  datatype TimeConfig = TimeConfig(format: TimeFormat, taiMinusUtc: int, maxSkew: real)

  const SKEW_FLAG: nat := 1
  const INVALID_FLAG: nat := 2

  /** What resolving finds: the instant, the flags, the time on board and the length of its field. */
  datatype Resolution = Resolution(instant: Instant, flags: nat, onboard: Option<Instant>, fieldLen: nat)

  // Whole milliseconds between two instants.
  function SkewMillis(t: Instant, u: Instant): nat {
    (if Elapsed(t, u) >= 0 then Elapsed(t, u) else -Elapsed(t, u)) / MILLI
  }

  predicate Trusted(cfg: TimeConfig, t: Instant, receivedAt: Instant) {
    cfg.maxSkew <= 0.0 || SkewMillis(t, receivedAt) as real / 1000.0 <= cfg.maxSkew
  }

  /** Nanoseconds between two instants, whichever is first. */
  function Distance(t: Instant, u: Instant): nat {
    var d := Elapsed(t, u);
    if d < 0 then -d else d
  }

  lemma TrustedExactly(cfg: TimeConfig, t: Instant, receivedAt: Instant)
    ensures Trusted(cfg, t, receivedAt) <==>
              cfg.maxSkew <= 0.0 || (Distance(t, receivedAt) / 1_000_000) as real <= 1000.0 * cfg.maxSkew
  {
    hide Elapsed;
  }

  /** `TelemetryFrame`: what the packet says, and the fields that resolving its time sets. */
  class TelemetryFrame {
    const telemetry: Telemetry
    const receivedAt: Instant
    var flagsV2: nat
    var onboardTime: Option<Instant>
    var timeFieldLen: nat

    constructor (telemetry: Telemetry, receivedAt: Instant)
      ensures this.telemetry == telemetry && this.receivedAt == receivedAt
      ensures flagsV2 == 0 && onboardTime.None? && timeFieldLen == 0
    {
      this.telemetry, this.receivedAt := telemetry, receivedAt;
      flagsV2, onboardTime, timeFieldLen := 0, None, 0;
    }

    /** `user_data` */
    function UserData(): Octets
      reads this
    {
      UserDataOf(telemetry.payload, timeFieldLen)
    }

    /** `resolve_frame_time` */
    method Resolve(cfg: TimeConfig) returns (instant: Instant)
      modifies this
      ensures Resolution(instant, flagsV2, onboardTime, timeFieldLen) == Resolved(cfg, telemetry, receivedAt)
      ensures onboardTime.Some? <==>
                && !cfg.format.NoTime? && telemetry.hasSecondaryHeader
                && DecodeTime(cfg.format, telemetry.payload, cfg.taiMinusUtc).Ok?
      ensures onboardTime.Some? ==>
                && |telemetry.payload| >= 6 && UserData() == telemetry.payload[6..]
                && DecodeTime(cfg.format, telemetry.payload, cfg.taiMinusUtc) == Ok(onboardTime)
      ensures onboardTime.Some? ==>
                && (flagsV2 == 0 <==>
                      || cfg.maxSkew <= 0.0
                      || (Distance(onboardTime.value, receivedAt) / 1_000_000) as real <= 1000.0 * cfg.maxSkew)
                && (flagsV2 == 0 ==> instant == onboardTime.value)
                && (flagsV2 != 0 ==> flagsV2 == 1 && instant == receivedAt)
      ensures onboardTime.None? ==> instant == receivedAt && UserData() == telemetry.payload
      ensures onboardTime.None? ==>
                flagsV2 == if !cfg.format.NoTime? && telemetry.hasSecondaryHeader then 2 else 0
    {
      DecodedIsThere(cfg, telemetry.payload);
      ghost var read := DecodeTime(cfg.format, telemetry.payload, cfg.taiMinusUtc);
      if read.Ok? && read.value.Some? {
        TrustedExactly(cfg, read.value.value, receivedAt);
      }
      hide DecodeTime, Trusted, Distance;
      flagsV2, onboardTime, timeFieldLen := 0, None, 0;
      if cfg.format.NoTime? || !telemetry.hasSecondaryHeader {
        return receivedAt;
      }
      match DecodeTime(cfg.format, telemetry.payload, cfg.taiMinusUtc)
      case Ok(Some(t)) =>
        onboardTime, timeFieldLen := Some(t), TIME_FIELD_LEN;
        if !Trusted(cfg, t, receivedAt) {
          flagsV2 := SKEW_FLAG;
          return receivedAt;
        }
        return t;
      case Ok(None) => return receivedAt;
      case Err(_) =>
        flagsV2 := INVALID_FLAG;
        return receivedAt;
    }
  }

  // A time is only decoded from six octets.
  lemma DecodedIsThere(cfg: TimeConfig, payload: Octets)
    ensures DecodeTime(cfg.format, payload, cfg.taiMinusUtc).Ok? && !cfg.format.NoTime? ==>
              |payload| >= TIME_FIELD_LEN && DecodeTime(cfg.format, payload, cfg.taiMinusUtc).value.Some?
  {
  }

  // What follows the time field.
  function UserDataOf(payload: Octets, fieldLen: nat): Octets {
    if fieldLen <= |payload| then payload[fieldLen..] else []
  }

  function Resolved(cfg: TimeConfig, tm: Telemetry, receivedAt: Instant): Resolution {
    if cfg.format.NoTime? || !tm.hasSecondaryHeader then Resolution(receivedAt, 0, None, 0)
    else match DecodeTime(cfg.format, tm.payload, cfg.taiMinusUtc)
      case Ok(Some(t)) =>
        if Trusted(cfg, t, receivedAt) then Resolution(t, 0, Some(t), TIME_FIELD_LEN)
        else Resolution(receivedAt, SKEW_FLAG, Some(t), TIME_FIELD_LEN)
      case Ok(None) => Resolution(receivedAt, 0, None, 0)
      case Err(_) => Resolution(receivedAt, INVALID_FLAG, None, 0)
  }

  /**
   From the spacecraft to the ground: a packet built with its time code is parsed, its user data are
   what was put in, and, unless it is too far from the time of receipt, it is evaluated at the
   spacecraft's own instant to the resolution of the code.
   */
  lemma TimedPacketIsReadBack(
      cfg: TimeConfig, apid: bv16, seqCount: bv16, t: Instant, userData: Octets, receivedAt: Instant)
    requires Ordinary(t) && !cfg.format.NoTime?
    requires EncodeTime(cfg.format, t, cfg.taiMinusUtc).Some? && |userData| <= 0x1_0000 - TIME_FIELD_LEN
    ensures var packet := EncodeTm(apid, seqCount, true, EncodeTime(cfg.format, t, cfg.taiMinusUtc).value + userData);
            var parsed := ParseTelemetry(packet);
            && parsed.Ok?
            && var found := Resolved(cfg, parsed.value, receivedAt);
               && UserDataOf(parsed.value.payload, found.fieldLen) == userData && found.onboard.Some?
               && 0 <= t.nanos - found.onboard.value.nanos <= (if cfg.format.Cds? then 999_999 else 15_259)
               && found.onboard.value.secs == t.secs
               && var near := || cfg.maxSkew <= 0.0
                              || (Distance(found.onboard.value, receivedAt) / 1_000_000) as real
                                 <= 1000.0 * cfg.maxSkew;
                  && (near ==> found.instant == found.onboard.value && found.flags == 0)
                  && (!near ==> found.instant == receivedAt && found.flags == 1)
  {
    hide EncodeTm, ParseTelemetry, EncodeTime, Distance, Resolved;
    var field := EncodeTime(cfg.format, t, cfg.taiMinusUtc).value;
    var payload := field + userData;
    ParseEncoded(apid, seqCount, true, payload);
    assert payload[TIME_FIELD_LEN..] == userData && payload[..|payload|] == payload;
    var back := EncodedReads(cfg.format, t, cfg.taiMinusUtc, userData);
    DecodedIsResolved(cfg, ParseTelemetry(EncodeTm(apid, seqCount, true, payload)).value, receivedAt, back);
  }

  lemma EncodedReads(format: TimeFormat, t: Instant, taiMinusUtc: int, rest: Octets) returns (back: Instant)
    requires Ordinary(t) && EncodeTime(format, t, taiMinusUtc).Some?
    ensures DecodeTime(format, EncodeTime(format, t, taiMinusUtc).value + rest, taiMinusUtc) == Ok(Some(back))
    ensures back.secs == t.secs && 0 <= t.nanos - back.nanos <= (if format.Cds? then 999_999 else 15_259)
  {
    hide EncodeCds, EncodeCuc, DecodeTime;
    if format.Cds? {
      CdsRoundTrip(t, rest, taiMinusUtc);
    } else {
      CucRoundTrip(t, taiMinusUtc, rest);
    }
    back := DecodeTime(format, EncodeTime(format, t, taiMinusUtc).value + rest, taiMinusUtc).value.value;
  }

  lemma DecodedIsResolved(cfg: TimeConfig, tm: Telemetry, receivedAt: Instant, back: Instant)
    requires !cfg.format.NoTime? && tm.hasSecondaryHeader
    requires DecodeTime(cfg.format, tm.payload, cfg.taiMinusUtc) == Ok(Some(back))
    ensures var found := Resolved(cfg, tm, receivedAt);
            var near := cfg.maxSkew <= 0.0 || (Distance(back, receivedAt) / 1_000_000) as real <= 1000.0 * cfg.maxSkew;
            && found.onboard == Some(back) && found.fieldLen == 6
            && (near ==> found.instant == back && found.flags == 0)
            && (!near ==> found.instant == receivedAt && found.flags == 1)
  {
    TrustedExactly(cfg, back, receivedAt);
    hide DecodeTime, Distance, Trusted;
  }
}
