/**
 The Frame Error Control Field checksum: CRC-16-CCITT, polynomial x^16 + x^12 + x^5 + 1, register
 preset to all ones (section 4.1.6 of CCSDS 132.0-B-3).

 `Crc16` follows the shift-and-xor code on 16-bit words.  Its properties are proved on the word
 seen as a row of 16 bits, where one turn of the inner loop is a plain rewiring of the row.
 */
module Crc {
  import opened Octets

  const PRESET: bv16 := 0xFFFF

  // One turn of the inner loop.
  function Turn(c: bv16): bv16 {
    if c & 0x8000 != 0 then (c << 1) ^ 0x1021 else c << 1
  }

  function Turns(c: bv16, n: nat): bv16
    decreases n
  {
    if n == 0 then c else Turn(Turns(c, n - 1))
  }

  // The register after one more octet.
  function Absorb(c: bv16, b: bv8): bv16 {
    Turns(c ^ ((b as bv16) << 8), 8)
  }

  function AbsorbAll(c: bv16, data: Octets): bv16
    decreases |data|
  {
    if data == [] then c else AbsorbAll(Absorb(c, data[0]), data[1..])
  }

  /** The checksum of `data`. */
  function Crc16(data: Octets): bv16 {
    AbsorbAll(PRESET, data)
  }

  /** `to_be_bytes` of a 16-bit word. */
  function WordOctets(c: bv16): (r: Octets)
    ensures |r| == 2
  {
    [(c >> 8) as bv8, (c & 0xFF) as bv8]
  }

  /** `u16::from_be_bytes`. */
  function WordOf(hi: bv8, lo: bv8): bv16 {
    ((hi as bv16) << 8) | (lo as bv16)
  }

  /** The bit-by-bit loop of the gateway. */
  method Crc16Ccitt(data: Octets) returns (crc: bv16)
    ensures crc == Crc16(data)
  {
    crc := 0xFFFF;
    for i := 0 to |data|
      invariant crc == AbsorbAll(PRESET, data[..i])
    {
      hide Absorb;
      AbsorbAllSplit(PRESET, data[..i], [data[i]]);
      assert data[..i + 1] == data[..i] + [data[i]];
      AbsorbOne(crc, data[i]);
      crc := AbsorbByTurns(crc, data[i]);
    }
    assert data[..|data|] == data;
  }

  method AbsorbByTurns(before: bv16, byte: bv8) returns (crc: bv16)
    ensures crc == Absorb(before, byte)
  {
    hide Turn;
    crc := before ^ ((byte as bv16) << 8);
    ghost var fed := crc;
    for k := 0 to 8
      invariant crc == Turns(fed, k)
    {
      crc := TurnOnce(crc);
    }
  }

  method TurnOnce(c: bv16) returns (crc: bv16)
    ensures crc == Turn(c)
  {
    crc := if c & 0x8000 != 0 then (c << 1) ^ 0x1021 else c << 1;
  }

  lemma AbsorbOne(c: bv16, b: bv8)
    ensures AbsorbAll(c, [b]) == Absorb(c, b)
  {
    hide Absorb;
    assert [b][1..] == [];
  }

  lemma {:induction false} AbsorbAllSplit(c: bv16, a: Octets, b: Octets)
    ensures AbsorbAll(c, a + b) == AbsorbAll(AbsorbAll(c, a), b)
    decreases |a|
  {
    hide Absorb;
    if a == [] {
      assert a + b == b;
    } else {
      AbsorbAllSplit(Absorb(c, a[0]), a[1..], b);
      assert (a + b)[1..] == a[1..] + b;
    }
  }

  // ---------------------------------------------------------------------------------------
  // The register as a row of bits
  // ---------------------------------------------------------------------------------------

  // `x15` is the most significant bit, the coefficient of x^15.
  datatype Row = Row(
    x15: bool, x14: bool, x13: bool, x12: bool, x11: bool, x10: bool, x9: bool, x8: bool,
    x7: bool, x6: bool, x5: bool, x4: bool, x3: bool, x2: bool, x1: bool, x0: bool)

  const ZERO := Row(
    false, false, false, false, false, false, false, false,
    false, false, false, false, false, false, false, false)

  function RowOf(c: bv16): Row {
    Row(c & 0x8000 != 0, c & 0x4000 != 0, c & 0x2000 != 0, c & 0x1000 != 0,
        c & 0x0800 != 0, c & 0x0400 != 0, c & 0x0200 != 0, c & 0x0100 != 0,
        c & 0x0080 != 0, c & 0x0040 != 0, c & 0x0020 != 0, c & 0x0010 != 0,
        c & 0x0008 != 0, c & 0x0004 != 0, c & 0x0002 != 0, c & 0x0001 != 0)
  }

  // One step of the shift register: the bit that falls out re-enters at x^12, x^5 and 1.
  function Shift(r: Row): Row {
    Row(r.x14, r.x13, r.x12, r.x11 != r.x15, r.x10, r.x9, r.x8, r.x7,
        r.x6, r.x5, r.x4 != r.x15, r.x3, r.x2, r.x1, r.x0, r.x15)
  }

  function Shift8(r: Row): Row {
    Shift(Shift(Shift(Shift(Shift(Shift(Shift(Shift(r))))))))
  }

  // An octet is added into the high half of the register.
  function Feed(r: Row, b: BitRow): Row {
    Row(r.x15 != b.b7, r.x14 != b.b6, r.x13 != b.b5, r.x12 != b.b4, r.x11 != b.b3, r.x10 != b.b2, r.x9 != b.b1,
        r.x8 != b.b0,
        r.x7, r.x6, r.x5, r.x4, r.x3, r.x2, r.x1, r.x0)
  }

  function RowAbsorb(r: Row, b: BitRow): Row {
    Shift8(Feed(r, b))
  }

  function RowAbsorbAll(r: Row, data: Octets): Row
    decreases |data|
  {
    if data == [] then r else RowAbsorbAll(RowAbsorb(r, Bits(data[0])), data[1..])
  }

  lemma RowInjective(a: bv16, b: bv16)
    requires RowOf(a) == RowOf(b)
    ensures a == b
  {
  }

  lemma RowOfTurn(c: bv16)
    ensures RowOf(Turn(c)) == Shift(RowOf(c))
  {
  }

  lemma RowOfTurns8(c: bv16)
    ensures RowOf(Turns(c, 8)) == Shift8(RowOf(c))
  {
    hide Turn, Shift, RowOf;
    RowOfTurn(c);
    RowOfTurn(Turns(c, 1));
    RowOfTurn(Turns(c, 2));
    RowOfTurn(Turns(c, 3));
    RowOfTurn(Turns(c, 4));
    RowOfTurn(Turns(c, 5));
    RowOfTurn(Turns(c, 6));
    RowOfTurn(Turns(c, 7));
  }

  // Bit for bit, `r` is `c` with `b` added into the high half.
  predicate FedMasks(c: bv16, b: bv8, r: bv16) {
    && (r & 0x8000 != 0) == ((c & 0x8000 != 0) != (b & 0x80 != 0))
    && (r & 0x4000 != 0) == ((c & 0x4000 != 0) != (b & 0x40 != 0))
    && (r & 0x2000 != 0) == ((c & 0x2000 != 0) != (b & 0x20 != 0))
    && (r & 0x1000 != 0) == ((c & 0x1000 != 0) != (b & 0x10 != 0))
    && (r & 0x0800 != 0) == ((c & 0x0800 != 0) != (b & 0x08 != 0))
    && (r & 0x0400 != 0) == ((c & 0x0400 != 0) != (b & 0x04 != 0))
    && (r & 0x0200 != 0) == ((c & 0x0200 != 0) != (b & 0x02 != 0))
    && (r & 0x0100 != 0) == ((c & 0x0100 != 0) != (b & 0x01 != 0))
    && (r & 0x0080 != 0) == (c & 0x0080 != 0)
    && (r & 0x0040 != 0) == (c & 0x0040 != 0)
    && (r & 0x0020 != 0) == (c & 0x0020 != 0)
    && (r & 0x0010 != 0) == (c & 0x0010 != 0)
    && (r & 0x0008 != 0) == (c & 0x0008 != 0)
    && (r & 0x0004 != 0) == (c & 0x0004 != 0)
    && (r & 0x0002 != 0) == (c & 0x0002 != 0)
    && (r & 0x0001 != 0) == (c & 0x0001 != 0)
  }

  lemma FedMasksOfXor(c: bv16, b: bv8, r: bv16)
    requires r == c ^ ((b as bv16) << 8)
    ensures FedMasks(c, b, r)
  {
  }

  lemma RowOfFed(c: bv16, b: bv8, r: bv16)
    requires FedMasks(c, b, r)
    ensures RowOf(r) == Feed(RowOf(c), Bits(b))
  {
  }

  lemma RowOfAbsorb(c: bv16, b: bv8)
    ensures RowOf(Absorb(c, b)) == RowAbsorb(RowOf(c), Bits(b))
  {
    hide RowOf, FedMasks, Shift8, Turns, Feed, Bits;
    var fed := c ^ ((b as bv16) << 8);
    FedMasksOfXor(c, b, fed);
    RowOfFed(c, b, fed);
    RowOfTurns8(fed);
  }

  lemma {:induction false} RowOfAbsorbAll(c: bv16, data: Octets)
    ensures RowOf(AbsorbAll(c, data)) == RowAbsorbAll(RowOf(c), data)
    decreases |data|
  {
    hide Absorb, RowAbsorb, RowOf, Bits;
    if data != [] {
      RowOfAbsorb(c, data[0]);
      RowOfAbsorbAll(Absorb(c, data[0]), data[1..]);
    }
  }

  // ---------------------------------------------------------------------------------------
  // Error detection
  // ---------------------------------------------------------------------------------------

  lemma ShiftInjective(a: Row, b: Row)
    requires Shift(a) == Shift(b)
    ensures a == b
  {
  }

  lemma FeedInjective(a: Row, b: Row, x: BitRow)
    requires Feed(a, x) == Feed(b, x)
    ensures a == b
  {
  }

  // Every step is a bijection on the register.
  lemma RowAbsorbInjective(a: Row, b: Row, x: BitRow)
    requires RowAbsorb(a, x) == RowAbsorb(b, x)
    ensures a == b
  {
    hide Feed;
    Shift8Injective(Feed(a, x), Feed(b, x));
    FeedInjective(a, b, x);
  }

  lemma Shift8Injective(a: Row, b: Row)
    requires Shift8(a) == Shift8(b)
    ensures a == b
  {
    hide Shift;
    var a2, b2 := Shift(Shift(a)), Shift(Shift(b));
    var a5, b5 := Shift(Shift(Shift(a2))), Shift(Shift(Shift(b2)));
    ShiftInjective(Shift(Shift(a5)), Shift(Shift(b5)));
    ShiftInjective(Shift(a5), Shift(b5));
    ShiftInjective(a5, b5);
    ShiftInjective(Shift(Shift(a2)), Shift(Shift(b2)));
    ShiftInjective(Shift(a2), Shift(b2));
    ShiftInjective(a2, b2);
    ShiftInjective(Shift(a), Shift(b));
    ShiftInjective(a, b);
  }

  lemma {:induction false} RowAbsorbAllInjective(a: Row, b: Row, data: Octets)
    requires RowAbsorbAll(a, data) == RowAbsorbAll(b, data)
    ensures a == b
    decreases |data|
  {
    hide RowAbsorb, Bits;
    if data != [] {
      RowAbsorbAllInjective(RowAbsorb(a, Bits(data[0])), RowAbsorb(b, Bits(data[0])), data[1..]);
      RowAbsorbInjective(a, b, Bits(data[0]));
    }
  }

  predicate SameLowHalf(a: Row, b: Row) {
    && a.x7 == b.x7 && a.x6 == b.x6 && a.x5 == b.x5 && a.x4 == b.x4
    && a.x3 == b.x3 && a.x2 == b.x2 && a.x1 == b.x1 && a.x0 == b.x0
  }

  // Two registers that agree in the low half and still agree there eight shifts later are equal.
  lemma LowHalfDetermines(a: Row, b: Row)
    requires SameLowHalf(a, b) && SameLowHalf(Shift8(a), Shift8(b))
    ensures a == b
  {
  }

  // From one register value, two octets are determined by the register they lead to.
  lemma TwoOctetsInjective(r: Row, x1: BitRow, x2: BitRow, y1: BitRow, y2: BitRow)
    requires RowAbsorb(RowAbsorb(r, x1), x2) == RowAbsorb(RowAbsorb(r, y1), y2)
    ensures x1 == y1 && x2 == y2
  {
    hide Shift8;
    var a, b := RowAbsorb(r, x1), RowAbsorb(r, y1);
    Shift8Injective(Feed(a, x2), Feed(b, y2));
    LowHalfDetermines(Feed(r, x1), Feed(r, y1));
  }

  /** A change confined to two neighbouring octets always changes the checksum. */
  lemma BurstChangesCrc(a: Octets, b: Octets, i: nat)
    requires |a| == |b| && i < |a| && a != b
    requires forall k :: 0 <= k < |a| && k != i && k != i + 1 ==> a[k] == b[k]
    ensures Crc16(a) != Crc16(b)
  {
    hide RowAbsorb, RowOf, Bits, Absorb;
    var r := RowOf(PRESET);
    RowOfAbsorbAll(PRESET, a);
    RowOfAbsorbAll(PRESET, b);
    RowBurst(r, a, b, i);
  }

  lemma {:induction false} RowBurst(r: Row, a: Octets, b: Octets, i: nat)
    requires |a| == |b| && i < |a| && a != b
    requires forall k :: 0 <= k < |a| && k != i && k != i + 1 ==> a[k] == b[k]
    ensures RowAbsorbAll(r, a) != RowAbsorbAll(r, b)
    decreases i
  {
    hide RowAbsorb, Bits;
    if i > 0 {
      RowBurst(RowAbsorb(r, Bits(a[0])), a[1..], b[1..], i - 1);
    } else if |a| == 1 {
      RowBurstAtOne(r, a, b);
    } else {
      RowBurstAtTwo(r, a, b);
    }
  }

  lemma RowBurstAtOne(r: Row, a: Octets, b: Octets)
    requires |a| == |b| == 1 && a != b
    ensures RowAbsorbAll(r, a) != RowAbsorbAll(r, b)
  {
    hide Shift8, Bits;
    assert a == [a[0]] && b == [b[0]] && a[1..] == [] && b[1..] == [];
    assert RowAbsorbAll(r, a) == RowAbsorbAll(RowAbsorb(r, Bits(a[0])), []) == RowAbsorb(r, Bits(a[0]));
    assert RowAbsorbAll(r, b) == RowAbsorbAll(RowAbsorb(r, Bits(b[0])), []) == RowAbsorb(r, Bits(b[0]));
    if RowAbsorbAll(r, a) == RowAbsorbAll(r, b) {
      Shift8Injective(Feed(r, Bits(a[0])), Feed(r, Bits(b[0])));
      BitsInjective(a[0], b[0]);
      assert false;
    }
  }

  lemma RowAbsorbTwo(r: Row, a: Octets)
    requires |a| >= 2
    ensures RowAbsorbAll(r, a) == RowAbsorbAll(RowAbsorb(RowAbsorb(r, Bits(a[0])), Bits(a[1])), a[2..])
  {
    hide RowAbsorb, Bits;
    assert a[1..][1..] == a[2..];
    assert RowAbsorbAll(r, a) == RowAbsorbAll(RowAbsorb(r, Bits(a[0])), a[1..]);
  }

  lemma RowBurstAtTwo(r: Row, a: Octets, b: Octets)
    requires |a| == |b| >= 2 && a != b && a[2..] == b[2..]
    ensures RowAbsorbAll(r, a) != RowAbsorbAll(r, b)
  {
    hide RowAbsorb, Bits;
    assert a == [a[0], a[1]] + a[2..] && b == [b[0], b[1]] + b[2..];
    var x1, x2, y1, y2 := Bits(a[0]), Bits(a[1]), Bits(b[0]), Bits(b[1]);
    if RowAbsorbAll(r, a) == RowAbsorbAll(r, b) {
      RowAbsorbTwo(r, a);
      RowAbsorbTwo(r, b);
      RowAbsorbAllInjective(RowAbsorb(RowAbsorb(r, x1), x2), RowAbsorb(RowAbsorb(r, y1), y2), a[2..]);
      TwoOctetsInjective(r, x1, x2, y1, y2);
      BitsInjective(a[0], b[0]);
      BitsInjective(a[1], b[1]);
      assert false;
    }
  }

  // ---------------------------------------------------------------------------------------
  // A checksum followed by itself
  // ---------------------------------------------------------------------------------------

  function HighHalf(r: Row): BitRow {
    BitRow(r.x15, r.x14, r.x13, r.x12, r.x11, r.x10, r.x9, r.x8)
  }

  function LowHalf(r: Row): BitRow {
    BitRow(r.x7, r.x6, r.x5, r.x4, r.x3, r.x2, r.x1, r.x0)
  }

  // Feeding a register its own two octets, and nothing else, empties it.
  lemma OwnOctetsEmpty(r: Row, hi: BitRow, lo: BitRow)
    ensures RowAbsorb(RowAbsorb(r, hi), lo) == ZERO <==> hi == HighHalf(r) && lo == LowHalf(r)
  {
    OwnOctetsEmptyForward(r);
    if RowAbsorb(RowAbsorb(r, hi), lo) == ZERO {
      TwoOctetsInjective(r, hi, lo, HighHalf(r), LowHalf(r));
    }
  }

  lemma OwnOctetsEmptyForward(r: Row)
    ensures RowAbsorb(RowAbsorb(r, HighHalf(r)), LowHalf(r)) == ZERO
  {
    hide RowAbsorb;
    HighOctetClears(r);
    HighOctetClears(LowHalfRaised(r));
  }

  // The low half moved up, with nothing behind it.
  function LowHalfRaised(r: Row): Row {
    Row(r.x7, r.x6, r.x5, r.x4, r.x3, r.x2, r.x1, r.x0,
        false, false, false, false, false, false, false, false)
  }

  lemma HighOctetClears(r: Row)
    ensures RowAbsorb(r, HighHalf(r)) == LowHalfRaised(r)
  {
    hide Shift;
    var fed := Feed(r, HighHalf(r));
    var half := Shift(Shift(Shift(Shift(fed))));
    assert half == Row(false, false, false, false, r.x7, r.x6, r.x5, r.x4,
                       r.x3, r.x2, r.x1, r.x0, false, false, false, false) by {
      ShiftClear(fed);
      ShiftClear(Shift(fed));
      ShiftClear(Shift(Shift(fed)));
      ShiftClear(Shift(Shift(Shift(fed))));
    }
    ShiftClear(half);
    ShiftClear(Shift(half));
    ShiftClear(Shift(Shift(half)));
    ShiftClear(Shift(Shift(Shift(half))));
  }

  lemma ShiftClear(r: Row)
    requires !r.x15
    ensures Shift(r) == Row(r.x14, r.x13, r.x12, r.x11, r.x10, r.x9, r.x8, r.x7,
                            r.x6, r.x5, r.x4, r.x3, r.x2, r.x1, r.x0, false)
  {
  }

  lemma HalvesOfWord(c: bv16, hi: bv8, lo: bv8)
    requires hi == (c >> 8) as bv8 && lo == (c & 0xFF) as bv8
    ensures Bits(hi) == HighHalf(RowOf(c)) && Bits(lo) == LowHalf(RowOf(c))
  {
  }

  lemma WordOctetsRoundTrip(c: bv16)
    ensures WordOf(WordOctets(c)[0], WordOctets(c)[1]) == c
  {
  }

  lemma OctetsOfWord(hi: bv8, lo: bv8)
    ensures WordOctets(WordOf(hi, lo)) == [hi, lo]
  {
  }

  /** A body and two trailing octets check out exactly when their joint checksum is zero. */
  lemma ResidueIsZero(body: Octets, hi: bv8, lo: bv8)
    ensures Crc16(body + [hi, lo]) == 0 <==> WordOf(hi, lo) == Crc16(body)
  {
    hide RowAbsorb, RowOf, Bits, Absorb, HighHalf, LowHalf, WordOf;
    var c, whole := Crc16(body), Crc16(body + [hi, lo]);
    var own := WordOctets(c);
    RowOfAbsorbAll(PRESET, body + [hi, lo]);
    RowOfAbsorbAll(PRESET, body);
    RowAbsorbAllSplit(RowOf(PRESET), body, [hi, lo]);
    RowAbsorbPair(RowOf(c), hi, lo);
    OwnOctetsEmpty(RowOf(c), Bits(hi), Bits(lo));
    HalvesOfWord(c, own[0], own[1]);
    ZeroRow(whole);
    ResidueOctets(c, hi, lo, own);
  }

  lemma ResidueOctets(c: bv16, hi: bv8, lo: bv8, own: Octets)
    requires own == WordOctets(c)
    ensures Bits(hi) == Bits(own[0]) && Bits(lo) == Bits(own[1]) <==> WordOf(hi, lo) == c
  {
    hide Bits;
    WordOctetsRoundTrip(c);
    OctetsOfWord(hi, lo);
    if Bits(hi) == Bits(own[0]) && Bits(lo) == Bits(own[1]) {
      BitsInjective(hi, own[0]);
      BitsInjective(lo, own[1]);
    }
  }

  lemma ZeroRow(c: bv16)
    ensures RowOf(c) == ZERO <==> c == 0
  {
    if RowOf(c) == ZERO {
      ZeroWordRow();
      RowInjective(c, 0);
    }
  }

  lemma ZeroWordRow()
    ensures RowOf(0) == ZERO
  {
  }

  lemma RowAbsorbPair(r: Row, hi: bv8, lo: bv8)
    ensures RowAbsorbAll(r, [hi, lo]) == RowAbsorb(RowAbsorb(r, Bits(hi)), Bits(lo))
  {
    hide RowAbsorb, Bits;
    assert [hi, lo][2..] == [];
    RowAbsorbTwo(r, [hi, lo]);
  }

  lemma {:induction false} RowAbsorbAllSplit(r: Row, a: Octets, b: Octets)
    ensures RowAbsorbAll(r, a + b) == RowAbsorbAll(RowAbsorbAll(r, a), b)
    decreases |a|
  {
    hide RowAbsorb, Bits;
    if a == [] {
      assert a + b == b;
    } else {
      RowAbsorbAllSplit(RowAbsorb(r, Bits(a[0])), a[1..], b);
      assert (a + b)[1..] == a[1..] + b;
    }
  }

  // ---------------------------------------------------------------------------------------
  // Which errors go unnoticed
  // ---------------------------------------------------------------------------------------

  /** The error pattern that turns `a` into `b`. */
  function Difference(a: Octets, b: Octets): (d: Octets)
    requires |a| == |b|
    ensures |d| == |a|
    decreases |a|
  {
    if a == [] then [] else [a[0] ^ b[0]] + Difference(a[1..], b[1..])
  }

  function AddRows(a: Row, b: Row): Row {
    Row(a.x15 != b.x15, a.x14 != b.x14, a.x13 != b.x13, a.x12 != b.x12,
        a.x11 != b.x11, a.x10 != b.x10, a.x9 != b.x9, a.x8 != b.x8,
        a.x7 != b.x7, a.x6 != b.x6, a.x5 != b.x5, a.x4 != b.x4,
        a.x3 != b.x3, a.x2 != b.x2, a.x1 != b.x1, a.x0 != b.x0)
  }

  function AddBits(a: BitRow, b: BitRow): BitRow {
    BitRow(a.b7 != b.b7, a.b6 != b.b6, a.b5 != b.b5, a.b4 != b.b4,
           a.b3 != b.b3, a.b2 != b.b2, a.b1 != b.b1, a.b0 != b.b0)
  }

  // Bit for bit, `c` is the sum of `a` and `b`.
  predicate SumMasks(a: bv8, b: bv8, c: bv8) {
    && (c & 0x80 != 0) == ((a & 0x80 != 0) != (b & 0x80 != 0))
    && (c & 0x40 != 0) == ((a & 0x40 != 0) != (b & 0x40 != 0))
    && (c & 0x20 != 0) == ((a & 0x20 != 0) != (b & 0x20 != 0))
    && (c & 0x10 != 0) == ((a & 0x10 != 0) != (b & 0x10 != 0))
    && (c & 0x08 != 0) == ((a & 0x08 != 0) != (b & 0x08 != 0))
    && (c & 0x04 != 0) == ((a & 0x04 != 0) != (b & 0x04 != 0))
    && (c & 0x02 != 0) == ((a & 0x02 != 0) != (b & 0x02 != 0))
    && (c & 0x01 != 0) == ((a & 0x01 != 0) != (b & 0x01 != 0))
  }

  lemma SumMasksOfXor(a: bv8, b: bv8, c: bv8)
    requires c == a ^ b
    ensures SumMasks(a, b, c)
  {
  }

  lemma BitsOfSum(a: bv8, b: bv8, c: bv8)
    requires SumMasks(a, b, c)
    ensures Bits(c) == AddBits(Bits(a), Bits(b))
  {
  }

  lemma BitsOfXor(a: bv8, b: bv8)
    ensures Bits(a ^ b) == AddBits(Bits(a), Bits(b))
  {
    hide Bits, SumMasks;
    SumMasksOfXor(a, b, a ^ b);
    BitsOfSum(a, b, a ^ b);
  }

  lemma ShiftAdds(a: Row, b: Row)
    ensures Shift(AddRows(a, b)) == AddRows(Shift(a), Shift(b))
  {
  }

  lemma Shift8Adds(a: Row, b: Row)
    ensures Shift8(AddRows(a, b)) == AddRows(Shift8(a), Shift8(b))
  {
    hide Shift, AddRows;
    var a4, b4 := Shift(Shift(Shift(Shift(a)))), Shift(Shift(Shift(Shift(b))));
    ShiftAdds(a, b);
    ShiftAdds(Shift(a), Shift(b));
    ShiftAdds(Shift(Shift(a)), Shift(Shift(b)));
    ShiftAdds(Shift(Shift(Shift(a))), Shift(Shift(Shift(b))));
    ShiftAdds(a4, b4);
    ShiftAdds(Shift(a4), Shift(b4));
    ShiftAdds(Shift(Shift(a4)), Shift(Shift(b4)));
    ShiftAdds(Shift(Shift(Shift(a4))), Shift(Shift(Shift(b4))));
  }

  lemma FeedAdds(a: Row, b: Row, x: BitRow, y: BitRow)
    ensures Feed(AddRows(a, b), AddBits(x, y)) == AddRows(Feed(a, x), Feed(b, y))
  {
  }

  lemma RowAbsorbAdds(a: Row, b: Row, x: BitRow, y: BitRow)
    ensures RowAbsorb(AddRows(a, b), AddBits(x, y)) == AddRows(RowAbsorb(a, x), RowAbsorb(b, y))
  {
    hide Shift8, Feed, AddRows, AddBits;
    FeedAdds(a, b, x, y);
    Shift8Adds(Feed(a, x), Feed(b, y));
  }

  lemma {:induction false} RowAbsorbAllAdds(a: Row, b: Row, x: Octets, y: Octets)
    requires |x| == |y|
    ensures RowAbsorbAll(AddRows(a, b), Difference(x, y)) == AddRows(RowAbsorbAll(a, x), RowAbsorbAll(b, y))
    decreases |x|
  {
    hide RowAbsorb, Bits, AddRows, AddBits;
    if x != [] {
      var d := Difference(x, y);
      assert d[1..] == Difference(x[1..], y[1..]);
      BitsOfXor(x[0], y[0]);
      RowAbsorbAdds(a, b, Bits(x[0]), Bits(y[0]));
      RowAbsorbAllAdds(RowAbsorb(a, Bits(x[0])), RowAbsorb(b, Bits(y[0])), x[1..], y[1..]);
    }
  }

  lemma SumIsZero(a: Row, b: Row)
    ensures AddRows(a, b) == ZERO <==> a == b
  {
  }

  /**
   An error goes unnoticed exactly when the error pattern alone, run through an empty register,
   leaves it empty: detection depends on the pattern and not on the data it hits.
   */
  lemma UnnoticedErrors(a: Octets, b: Octets)
    requires |a| == |b|
    ensures Crc16(a) == Crc16(b) <==> AbsorbAll(0, Difference(a, b)) == 0
  {
    hide RowAbsorb, RowOf, Bits, Absorb, AddRows;
    var r := RowOf(PRESET);
    RowOfAbsorbAll(PRESET, a);
    RowOfAbsorbAll(PRESET, b);
    RowOfAbsorbAll(0, Difference(a, b));
    RowAbsorbAllAdds(r, r, a, b);
    SumIsZero(r, r);
    SumIsZero(RowOf(Crc16(a)), RowOf(Crc16(b)));
    ZeroWordRow();
    ZeroRow(AbsorbAll(0, Difference(a, b)));
    if RowOf(Crc16(a)) == RowOf(Crc16(b)) {
      RowInjective(Crc16(a), Crc16(b));
    }
  }

  // ---------------------------------------------------------------------------------------
  // The table-driven form of the fixture generator
  // ---------------------------------------------------------------------------------------

  // One turn of the generator's table loop, whose register keeps the bits shifted out at the top.
  function WideTurn(c: bv32): bv32 {
    if c & 0x8000 != 0 then (c << 1) ^ 0x1021 else c << 1
  }

  function WideTurns(c: bv32, n: nat): bv32
    decreases n
  {
    if n == 0 then c else WideTurn(WideTurns(c, n - 1))
  }

  function Low16(c: bv32): bv16 {
    (c & 0xFFFF) as bv16
  }

  function TableEntry(i: bv8): bv16 {
    Low16(WideTurns((i as bv32) << 8, 8))
  }

  // One octet of the table-driven loop.
  function TableAbsorb(c: bv16, b: bv8): bv16 {
    (c << 8) ^ TableEntry(((c >> 8) as bv8) ^ b)
  }

  function TableCrc16(data: Octets): bv16
    decreases |data|
  {
    if data == [] then PRESET else TableAbsorb(TableCrc16(data[..|data| - 1]), data[|data| - 1])
  }

  lemma Low16OfTurn(c: bv32)
    ensures Low16(WideTurn(c)) == Turn(Low16(c))
  {
    hide *;
    if c & 0x8000 != 0 {
      Low16OfSetTurn(c, Low16(c));
    } else {
      Low16OfClearTurn(c, Low16(c));
    }
  }

  lemma Low16OfSetTurn(c: bv32, low: bv16)
    requires c & 0x8000 != 0 && low == Low16(c)
    ensures Low16(WideTurn(c)) == Turn(low)
  {
    hide *;
    assert WideTurn(c) == (c << 1) ^ 0x1021 by { SetWideTurn(c); }
    assert Turn(low) == (low << 1) ^ 0x1021 by { SetLow16(c); SetTurn(low); }
    Low16OfTapped(c);
  }

  lemma Low16OfClearTurn(c: bv32, low: bv16)
    requires c & 0x8000 == 0 && low == Low16(c)
    ensures Low16(WideTurn(c)) == Turn(low)
  {
    hide *;
    assert WideTurn(c) == c << 1 by { ClearWideTurn(c); }
    assert Turn(low) == low << 1 by { ClearLow16(c); ClearTurn(low); }
    Low16OfUntapped(c);
  }

  lemma ClearWideTurn(c: bv32)
    requires c & 0x8000 == 0
    ensures WideTurn(c) == c << 1
  {
  }

  lemma ClearTurn(c: bv16)
    requires c & 0x8000 == 0
    ensures Turn(c) == c << 1
  {
  }

  lemma ClearLow16(c: bv32)
    requires c & 0x8000 == 0
    ensures Low16(c) & 0x8000 == 0
  {
  }

  lemma Low16OfUntapped(c: bv32)
    ensures Low16(c << 1) == Low16(c) << 1
  {
  }

  lemma SetWideTurn(c: bv32)
    requires c & 0x8000 != 0
    ensures WideTurn(c) == (c << 1) ^ 0x1021
  {
  }

  lemma SetTurn(c: bv16)
    requires c & 0x8000 != 0
    ensures Turn(c) == (c << 1) ^ 0x1021
  {
  }

  lemma SetLow16(c: bv32)
    requires c & 0x8000 != 0
    ensures Low16(c) & 0x8000 != 0
  {
  }

  lemma Low16OfTapped(c: bv32)
    ensures Low16((c << 1) ^ 0x1021) == (Low16(c) << 1) ^ 0x1021
  {
  }

  lemma {:induction false} Low16OfTurns(c: bv32, n: nat)
    ensures Low16(WideTurns(c, n)) == Turns(Low16(c), n)
    decreases n
  {
    hide WideTurn, Turn, Low16;
    if n > 0 {
      Low16OfTurns(c, n - 1);
      Low16OfTurn(WideTurns(c, n - 1));
    }
  }

  // The register an octet alone would leave after entering at the top.
  function Raised(b: BitRow): Row {
    Feed(ZERO, b)
  }

  lemma RowOfTableEntry(i: bv8)
    ensures RowOf(TableEntry(i)) == Shift8(Raised(Bits(i)))
  {
    hide RowOf, Turns, WideTurns, Low16, Shift8, Raised, Bits;
    Low16OfTurns((i as bv32) << 8, 8);
    RaisedOctet(i, Low16((i as bv32) << 8));
    RowOfTurns8(Low16((i as bv32) << 8));
  }

  lemma RaisedOctet(i: bv8, c: bv16)
    requires c == Low16((i as bv32) << 8)
    ensures RowOf(c) == Raised(Bits(i))
  {
  }

  // Bit for bit, `r` is `c` moved up by one octet plus `t`.
  predicate TableMasks(c: bv16, t: bv16, r: bv16) {
    && (r & 0x8000 != 0) == ((c & 0x0080 != 0) != (t & 0x8000 != 0))
    && (r & 0x4000 != 0) == ((c & 0x0040 != 0) != (t & 0x4000 != 0))
    && (r & 0x2000 != 0) == ((c & 0x0020 != 0) != (t & 0x2000 != 0))
    && (r & 0x1000 != 0) == ((c & 0x0010 != 0) != (t & 0x1000 != 0))
    && (r & 0x0800 != 0) == ((c & 0x0008 != 0) != (t & 0x0800 != 0))
    && (r & 0x0400 != 0) == ((c & 0x0004 != 0) != (t & 0x0400 != 0))
    && (r & 0x0200 != 0) == ((c & 0x0002 != 0) != (t & 0x0200 != 0))
    && (r & 0x0100 != 0) == ((c & 0x0001 != 0) != (t & 0x0100 != 0))
    && (r & 0x0080 != 0) == (t & 0x0080 != 0)
    && (r & 0x0040 != 0) == (t & 0x0040 != 0)
    && (r & 0x0020 != 0) == (t & 0x0020 != 0)
    && (r & 0x0010 != 0) == (t & 0x0010 != 0)
    && (r & 0x0008 != 0) == (t & 0x0008 != 0)
    && (r & 0x0004 != 0) == (t & 0x0004 != 0)
    && (r & 0x0002 != 0) == (t & 0x0002 != 0)
    && (r & 0x0001 != 0) == (t & 0x0001 != 0)
  }

  lemma TableMasksOfXor(c: bv16, t: bv16, r: bv16)
    requires r == (c << 8) ^ t
    ensures TableMasks(c, t, r)
  {
  }

  lemma RowOfTableSum(c: bv16, t: bv16, r: bv16)
    requires TableMasks(c, t, r)
    ensures RowOf(r) == AddRows(LowHalfRaised(RowOf(c)), RowOf(t))
  {
  }

  lemma TopOctet(c: bv16, b: bv8, i: bv8)
    requires i == (c >> 8) as bv8
    ensures Bits(i ^ b) == AddBits(HighHalf(RowOf(c)), Bits(b))
  {
    hide AddBits, HighHalf, RowOf, Bits;
    BitsOfXor(i, b);
    HalvesOfWord(c, i, (c & 0xFF) as bv8);
  }

  // The low half is not touched by eight shifts other than by moving up.
  lemma SplitRegister(r: Row, b: BitRow)
    ensures RowAbsorb(r, b) == AddRows(LowHalfRaised(r), Shift8(Raised(AddBits(HighHalf(r), b))))
  {
    hide RowAbsorb, Shift8, AddRows, AddBits, HighHalf, LowHalfRaised;
    var own, rest := HighHalf(r), AddBits(HighHalf(r), b);
    AddNothing(r);
    AddTwice(own, b);
    assert RowAbsorb(ZERO, rest) == Shift8(Raised(rest)) by { RowAbsorbCases(ZERO, rest); }
    RowAbsorbAdds(r, ZERO, own, rest);
    HighOctetClears(r);
  }

  lemma AddNothing(r: Row)
    ensures AddRows(r, ZERO) == r
  {
  }

  lemma AddTwice(own: BitRow, b: BitRow)
    ensures AddBits(own, AddBits(own, b)) == b
  {
  }

  lemma RowAbsorbCases(r: Row, b: BitRow)
    ensures RowAbsorb(r, b) == Shift8(Feed(r, b))
  {
  }

  lemma TableStep(c: bv16, b: bv8)
    ensures TableAbsorb(c, b) == Absorb(c, b)
  {
    hide *;
    var top := (c >> 8) as bv8;
    var i := top ^ b;
    var t := TableEntry(i);
    var sum := (c << 8) ^ t;
    assert TableAbsorb(c, b) == sum by { TableAbsorbIs(c, b, i, sum); }
    TopOctet(c, b, top);
    TableMasksOfXor(c, t, sum);
    TableStepRows(c, b, i, t, sum);
    RowInjective(sum, Absorb(c, b));
  }

  lemma TableAbsorbIs(c: bv16, b: bv8, i: bv8, sum: bv16)
    requires i == ((c >> 8) as bv8) ^ b && sum == (c << 8) ^ TableEntry(i)
    ensures TableAbsorb(c, b) == sum
  {
    hide TableEntry;
  }

  lemma TableStepRows(c: bv16, b: bv8, i: bv8, t: bv16, sum: bv16)
    requires t == TableEntry(i) && TableMasks(c, t, sum)
    requires Bits(i) == AddBits(HighHalf(RowOf(c)), Bits(b))
    ensures RowOf(sum) == RowOf(Absorb(c, b))
  {
    hide *;
    RowOfTableEntry(i);
    RowOfTableSum(c, t, sum);
    SplitRegister(RowOf(c), Bits(b));
    RowOfAbsorb(c, b);
  }

  /** The fixture generator's table-driven checksum is the gateway's bit-by-bit checksum. */
  lemma {:induction false} TableEqualsBitwise(data: Octets)
    ensures TableCrc16(data) == Crc16(data)
    decreases |data|
  {
    hide TableAbsorb, Absorb;
    if data != [] {
      var body, last := data[..|data| - 1], data[|data| - 1];
      TableEqualsBitwise(body);
      TableStep(Crc16(body), last);
      assert data == body + [last];
      AbsorbAllSplit(PRESET, body, [last]);
      AbsorbOne(Crc16(body), last);
    }
  }

  method BuildTable() returns (table: array<bv16>)
    ensures fresh(table) && table.Length == 256
    ensures forall i: bv8 :: table[i as int] == TableEntry(i)
  {
    hide WideTurn, Low16;
    table := new bv16[256];
    var i: bv8 := 0;
    for n := 0 to 256
      invariant n < 256 ==> i as int == n
      invariant forall k: bv8 :: k as int < n ==> table[k as int] == TableEntry(k)
    {
      table[n] := EntryByTurns(i);
      forall k: bv8 | k as int < n + 1 ensures table[k as int] == TableEntry(k) {
        if k as int == n {
          OctetIdentity(k, i);
        }
      }
      IncrementModulo256(i);
      i := Next(i);
    }
  }

  method EntryByTurns(i: bv8) returns (entry: bv16)
    ensures entry == TableEntry(i)
  {
    hide WideTurn, Low16;
    var c := (i as bv32) << 8;
    for k := 0 to 8
      invariant c == WideTurns((i as bv32) << 8, k)
    {
      c := WideTurnOnce(c);
    }
    entry := Mask16(c);
  }

  method WideTurnOnce(c: bv32) returns (r: bv32)
    ensures r == WideTurn(c)
  {
    r := if c & 0x8000 != 0 then (c << 1) ^ 0x1021 else c << 1;
  }

  method Mask16(c: bv32) returns (r: bv16)
    ensures r == Low16(c)
  {
    r := (c & 0xFFFF) as bv16;
  }

  method Crc16ByTable(table: array<bv16>, data: Octets) returns (crc: bv16)
    requires table.Length == 256
    requires forall i: bv8 :: table[i as int] == TableEntry(i)
    ensures crc == Crc16(data)
  {
    hide TableAbsorb;
    crc := 0xFFFF;
    for k := 0 to |data|
      invariant crc == TableCrc16(data[..k])
    {
      crc := TableAbsorbOnce(table, crc, data[k]);
      assert data[..k + 1][..k] == data[..k];
    }
    assert data[..|data|] == data;
    TableEqualsBitwise(data);
  }

  method TableAbsorbOnce(table: array<bv16>, before: bv16, byte: bv8) returns (crc: bv16)
    requires table.Length == 256
    requires forall i: bv8 :: table[i as int] == TableEntry(i)
    ensures crc == TableAbsorb(before, byte)
  {
    hide TableEntry;
    var index := ((before >> 8) as bv8) ^ byte;
    crc := (before << 8) ^ table[index as int];
  }
}
