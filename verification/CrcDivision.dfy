/**
 What the checksum is: the remainder of a division.  The bits of the data and 16 zeros behind them are
 the dividend, its first 16 bits inverted; the divisor is x^16 + x^12 + x^5 + 1; and the division is
 the one done on paper, without carries.
 */
module CrcDivision {
  import opened BitStrings
  import opened Bursts
  import opened Crc
  import opened Octets

  /** x^16 + x^12 + x^5 + 1, coefficient of x^16 first. */
  function Divisor(): (d: seq<bool>)
    ensures |d| == 17
  {
    seq(17, i => i == 16 - 16 || i == 16 - 12 || i == 16 - 5 || i == 16 - 0)
  }

  function Xor(a: seq<bool>, b: seq<bool>): (r: seq<bool>)
    requires |a| == |b|
    ensures |r| == |a|
  {
    seq(|a|, i requires 0 <= i < |a| => a[i] != b[i])
  }

  /** Long division: the divisor is subtracted wherever the leading bit is set. */
  function Remainder(dividend: seq<bool>): (r: seq<bool>)
    requires |dividend| >= 16
    ensures |r| == 16
    decreases |dividend|
  {
    if |dividend| == 16 then dividend
    else if dividend[0] then Remainder(Xor(dividend[..17], Divisor())[1..] + dividend[17..])
    else Remainder(dividend[1..])
  }

  function Zeros(n: nat): (r: seq<bool>)
    ensures |r| == n && forall i :: 0 <= i < n ==> !r[i]
  {
    seq(n, i => false)
  }

  /** The data, 16 zeros behind them, and the first 16 of all these bits inverted. */
  function Dividend(data: Octets): (r: seq<bool>)
    ensures |r| == 8 * |data| + 16
  {
    var bits := BitsOf(data) + Zeros(16);
    seq(|bits|, i requires 0 <= i < |bits| => bits[i] != (i < 16))
  }

  // ---------------------------------------------------------------------------------------
  // The register divides
  // ---------------------------------------------------------------------------------------

  function RowList(r: Row): (s: seq<bool>)
    ensures |s| == 16
  {
    seq(16, i => RowBit(r, i))
  }

  // Bit `i` from the left.
  function RowBit(r: Row, i: int): bool {
    if i < 8 then OctetBit(HighHalf(r), i) else OctetBit(LowHalf(r), i - 8)
  }

  function OctetBit(b: BitRow, i: int): bool {
    if i == 0 then b.b7 else if i == 1 then b.b6 else if i == 2 then b.b5 else if i == 3 then b.b4
    else if i == 4 then b.b3 else if i == 5 then b.b2 else if i == 6 then b.b1 else b.b0
  }

  // `r` added to the first 16 bits of `bits` with 16 zeros behind them.
  function With(r: Row, bits: seq<bool>): (d: seq<bool>)
    ensures |d| == |bits| + 16
  {
    var all, own := bits + Zeros(16), RowList(r);
    seq(|all|, i requires 0 <= i < |all| => if i < 16 then all[i] != own[i] else all[i])
  }

  // One bit less to divide.
  lemma TakeDivides(r: Row, bits: seq<bool>)
    requires bits != []
    ensures Remainder(With(r, bits)) == Remainder(With(Take(r, bits[0]), bits[1..]))
  {
    var d, t := With(r, bits), With(Take(r, bits[0]), bits[1..]);
    if d[0] {
      SubtractedIsTaken(r, bits);
    } else {
      ShiftedIsTaken(r, bits);
    }
  }

  // After the first 17 bits nothing is touched.
  lemma TailStays(r: Row, s: Row, bits: seq<bool>)
    requires bits != []
    ensures With(r, bits)[17..] == With(s, bits[1..])[16..]
  {
    var all, rest := bits + Zeros(16), bits[1..] + Zeros(16);
    assert all[1..] == rest;
  }

  lemma ShiftedIsTaken(r: Row, bits: seq<bool>)
    requires bits != [] && !With(r, bits)[0]
    ensures With(r, bits)[1..] == With(Take(r, bits[0]), bits[1..])
  {
    var t := Take(r, bits[0]);
    var d, e := With(r, bits), With(t, bits[1..]);
    var all, rest := bits + Zeros(16), bits[1..] + Zeros(16);
    assert all[1..] == rest;
    TailStays(r, t, bits);
    FirstBits(r, bits);
    TakenBits(r, bits[0]);
    forall i | 0 <= i < 16 ensures d[i + 1] == e[i] {
      assert rest[i] == all[i + 1];
    }
    assert d[1..][..16] == e[..16];
    assert d[1..] == d[1..][..16] + d[17..] && e == e[..16] + e[16..];
  }

  lemma SubtractedIsTaken(r: Row, bits: seq<bool>)
    requires bits != [] && With(r, bits)[0]
    ensures Xor(With(r, bits)[..17], Divisor())[1..] + With(r, bits)[17..] == With(Take(r, bits[0]), bits[1..])
  {
    var t := Take(r, bits[0]);
    var d, e := With(r, bits), With(t, bits[1..]);
    var x := Xor(d[..17], Divisor());
    var all, rest := bits + Zeros(16), bits[1..] + Zeros(16);
    assert all[1..] == rest;
    TailStays(r, t, bits);
    FirstBits(r, bits);
    TakenBits(r, bits[0]);
    forall i | 0 <= i < 16 ensures x[i + 1] == e[i] {
      assert rest[i] == all[i + 1];
    }
    assert x[1..] == e[..16];
    assert e == e[..16] + e[16..];
  }

  lemma FirstBits(r: Row, bits: seq<bool>)
    requires bits != []
    ensures With(r, bits)[0] == (bits[0] != r.x15)
    ensures With(r, bits)[16] == (bits + Zeros(16))[16]
  {
  }

  // The register moved up by one, `f` fed in at x^12, x^5 and 1.
  function Moved(r: Row, f: bool): Row {
    Row(r.x14, r.x13, r.x12, r.x11 != f, r.x10, r.x9, r.x8, r.x7, r.x6, r.x5, r.x4 != f, r.x3, r.x2, r.x1, r.x0, f)
  }

  lemma TakenRow(r: Row, b: bool)
    ensures Take(r, b) == Moved(r, b != r.x15)
  {
  }

  lemma MovedHigh(r: Row, f: bool, i: nat)
    requires i < 7
    ensures OctetBit(HighHalf(Moved(r, f)), i) == (OctetBit(HighHalf(r), i + 1) != (i == 3 && f))
  {
  }

  lemma MovedAcross(r: Row, f: bool)
    ensures OctetBit(HighHalf(Moved(r, f)), 7) == OctetBit(LowHalf(r), 0)
    ensures OctetBit(LowHalf(Moved(r, f)), 7) == f
  {
  }

  lemma MovedLow(r: Row, f: bool, i: nat)
    requires i < 7
    ensures OctetBit(LowHalf(Moved(r, f)), i) == (OctetBit(LowHalf(r), i + 1) != (i == 2 && f))
  {
  }

  // One bit of the register after one more, next to the register shifted and the divisor.
  lemma TakenBit(r: Row, b: bool, i: nat)
    requires i < 15
    ensures RowBit(Take(r, b), i) == (RowBit(r, i + 1) != ((i == 3 || i == 10) && (b != r.x15)))
  {
    TakenRow(r, b);
    hide Take, OctetBit, HighHalf, LowHalf, Moved;
    if i < 7 {
      MovedHigh(r, b != r.x15, i);
    } else if i == 7 {
      MovedAcross(r, b != r.x15);
    } else {
      MovedLow(r, b != r.x15, i - 8);
    }
  }

  lemma LastBit(r: Row, b: bool)
    ensures RowBit(Take(r, b), 15) == (b != r.x15)
  {
    TakenRow(r, b);
    hide Take, OctetBit, HighHalf, LowHalf, Moved;
    MovedAcross(r, b != r.x15);
  }

  lemma TakenBits(r: Row, b: bool)
    ensures var own, t := RowList(r), RowList(Take(r, b));
            && (forall i :: 0 <= i < 15 ==> t[i] == (own[i + 1] != (Divisor()[i + 1] && (b != r.x15))))
            && t[15] == (b != r.x15) && Divisor()[16] && Divisor()[0]
  {
    hide Take, RowBit;
    LastBit(r, b);
    var own, t := RowList(r), RowList(Take(r, b));
    forall i | 0 <= i < 15 ensures t[i] == (own[i + 1] != (Divisor()[i + 1] && (b != r.x15))) {
      TakenBit(r, b, i);
    }
  }

  lemma {:induction false} TakesDivide(r: Row, bits: seq<bool>)
    ensures RowList(Takes(r, bits)) == Remainder(With(r, bits))
    decreases |bits|
  {
    hide Take, RowList;
    if bits == [] {
      assert With(r, bits) == RowList(r);
    } else {
      hide Remainder, With;
      TakeDivides(r, bits);
      TakesDivide(Take(r, bits[0]), bits[1..]);
    }
  }

  lemma PresetInverts(data: Octets)
    ensures With(RowOf(PRESET), BitsOf(data)) == Dividend(data)
  {
    hide BitsOf;
    var own := RowList(RowOf(PRESET));
    assert forall i :: 0 <= i < 16 ==> own[i];
  }

  // A word is the number its row writes.
  lemma WordIsItsRow(c: bv16)
    ensures c as nat == Value(RowList(RowOf(c)))
  {
    hide Value, Bits, BitList, RowOf;
    var o := WordOctets(c);
    WordOctetsRoundTrip(c);
    WordIsU16(o[0], o[1]);
    U16IsItsBits(o[0], o[1]);
    BitsOfTwo(o[0], o[1]);
    assert o == [o[0], o[1]];
    RowIsItsOctets(c);
  }

  lemma WordIsU16(hi: bv8, lo: bv8)
    ensures WordOf(hi, lo) as nat == U16(hi, lo)
  {
    JoinedOctets(hi, lo);
  }

  lemma RowIsItsOctets(c: bv16)
    ensures RowList(RowOf(c)) == BitList(Bits(WordOctets(c)[0])) + BitList(Bits(WordOctets(c)[1]))
  {
    hide RowOf, Bits;
    var o := WordOctets(c);
    assert o[0] == (c >> 8) as bv8 && o[1] == (c & 0xFF) as bv8;
    HalvesOfWord(c, o[0], o[1]);
    RowInHalves(RowOf(c));
  }

  lemma RowInHalves(r: Row)
    ensures RowList(r) == BitList(HighHalf(r)) + BitList(LowHalf(r))
  {
    hide BitList, OctetBit;
    forall i | 0 <= i < 16 ensures RowList(r)[i] == (BitList(HighHalf(r)) + BitList(LowHalf(r)))[i] {
      if i < 8 {
        BitListAt(HighHalf(r), i);
      } else {
        BitListAt(LowHalf(r), i - 8);
      }
    }
  }

  lemma BitListAt(b: BitRow, i: nat)
    requires i < 8
    ensures BitList(b)[i] == OctetBit(b, i)
  {
  }

  /** The checksum of any data is the remainder of this division. */
  lemma ChecksumIsRemainder(data: Octets)
    ensures Crc16(data) as nat == Value(Remainder(Dividend(data)))
  {
    hide Value, Remainder, BitsOf, RowOf, Takes, RowAbsorbAll, Dividend;
    WordIsItsRow(Crc16(data));
    RowOfAbsorbAll(PRESET, data);
    AllTaken(RowOf(PRESET), data);
    TakesDivide(RowOf(PRESET), BitsOf(data));
    PresetInverts(data);
  }

  /** The checksum of nothing is 0xFFFF. */
  lemma ChecksumOfNothing()
    ensures Crc16([]) == 0xFFFF
  {
  }

  // Eight turns, one by one.
  lemma AbsorbedIn8(
      c: bv16, b: bv8, t0: bv16, t1: bv16, t2: bv16, t3: bv16, t4: bv16, t5: bv16, t6: bv16, t7: bv16, t8: bv16)
    requires t0 == c ^ ((b as bv16) << 8) && t1 == Turn(t0) && t2 == Turn(t1) && t3 == Turn(t2) && t4 == Turn(t3)
    requires t5 == Turn(t4) && t6 == Turn(t5) && t7 == Turn(t6) && t8 == Turn(t7)
    ensures Absorb(c, b) == t8
  {
    hide Turn;
    assert Turns(t0, 2) == t2;
    assert Turns(t0, 4) == t4;
    assert Turns(t0, 6) == t6;
  }

  lemma Absorbed1()
    ensures Absorb(0xFFFF, 0x31) == 0xC782
  {
    AbsorbedIn8(0xFFFF, 0x31, 0xCEFF, 0x8DDF, 0x0B9F, 0x173E, 0x2E7C, 0x5CF8, 0xB9F0, 0x63C1, 0xC782);
  }

  lemma Absorbed2()
    ensures Absorb(0xC782, 0x32) == 0x3DBA
  {
    AbsorbedIn8(0xC782, 0x32, 0xF582, 0xFB25, 0xE66B, 0xDCF7, 0xA9CF, 0x43BF, 0x877E, 0x1EDD, 0x3DBA);
  }

  lemma Absorbed3()
    ensures Absorb(0x3DBA, 0x33) == 0x5BCE
  {
    AbsorbedIn8(0x3DBA, 0x33, 0x0EBA, 0x1D74, 0x3AE8, 0x75D0, 0xEBA0, 0xC761, 0x9EE3, 0x2DE7, 0x5BCE);
  }

  lemma Absorbed4()
    ensures Absorb(0x5BCE, 0x34) == 0x5349
  {
    AbsorbedIn8(0x5BCE, 0x34, 0x6FCE, 0xDF9C, 0xAF19, 0x4E13, 0x9C26, 0x286D, 0x50DA, 0xA1B4, 0x5349);
  }

  lemma Absorbed5()
    ensures Absorb(0x5349, 0x35) == 0x4560
  {
    AbsorbedIn8(0x5349, 0x35, 0x6649, 0xCC92, 0x8905, 0x022B, 0x0456, 0x08AC, 0x1158, 0x22B0, 0x4560);
  }

  lemma Absorbed6()
    ensures Absorb(0x4560, 0x36) == 0x2EF4
  {
    AbsorbedIn8(0x4560, 0x36, 0x7360, 0xE6C0, 0xDDA1, 0xAB63, 0x46E7, 0x8DCE, 0x0BBD, 0x177A, 0x2EF4);
  }

  lemma Absorbed7()
    ensures Absorb(0x2EF4, 0x37) == 0x7718
  {
    AbsorbedIn8(0x2EF4, 0x37, 0x19F4, 0x33E8, 0x67D0, 0xCFA0, 0x8F61, 0x0EE3, 0x1DC6, 0x3B8C, 0x7718);
  }

  lemma Absorbed8()
    ensures Absorb(0x7718, 0x38) == 0xA12B
  {
    AbsorbedIn8(0x7718, 0x38, 0x4F18, 0x9E30, 0x2C41, 0x5882, 0xB104, 0x7229, 0xE452, 0xD885, 0xA12B);
  }

  lemma Absorbed9()
    ensures Absorb(0xA12B, 0x39) == 0x29B1
  {
    AbsorbedIn8(0xA12B, 0x39, 0x982B, 0x2077, 0x40EE, 0x81DC, 0x1399, 0x2732, 0x4E64, 0x9CC8, 0x29B1);
  }

  lemma After1()
    ensures AbsorbAll(0xFFFF, [0x31]) == 0xC782
  {
    hide Absorb;
    AbsorbAllSplit(0xFFFF, [], [0x31]);
    AbsorbOne(0xFFFF, 0x31);
    Absorbed1();
    assert [] + [0x31]
        == [0x31];
  }

  lemma After2()
    ensures AbsorbAll(0xFFFF, [0x31, 0x32]) == 0x3DBA
  {
    hide Absorb;
    After1();
    AbsorbAllSplit(0xFFFF, [0x31], [0x32]);
    AbsorbOne(0xC782, 0x32);
    Absorbed2();
    assert [0x31] + [0x32]
        == [0x31, 0x32];
  }

  lemma After3()
    ensures AbsorbAll(0xFFFF, [0x31, 0x32, 0x33]) == 0x5BCE
  {
    hide Absorb;
    After2();
    AbsorbAllSplit(0xFFFF, [0x31, 0x32], [0x33]);
    AbsorbOne(0x3DBA, 0x33);
    Absorbed3();
    assert [0x31, 0x32] + [0x33]
        == [0x31, 0x32, 0x33];
  }

  lemma After4()
    ensures AbsorbAll(0xFFFF, [0x31, 0x32, 0x33, 0x34]) == 0x5349
  {
    hide Absorb;
    After3();
    AbsorbAllSplit(0xFFFF, [0x31, 0x32, 0x33], [0x34]);
    AbsorbOne(0x5BCE, 0x34);
    Absorbed4();
    assert [0x31, 0x32, 0x33] + [0x34]
        == [0x31, 0x32, 0x33, 0x34];
  }

  lemma After5()
    ensures AbsorbAll(0xFFFF, [0x31, 0x32, 0x33, 0x34, 0x35]) == 0x4560
  {
    hide Absorb;
    After4();
    AbsorbAllSplit(0xFFFF, [0x31, 0x32, 0x33, 0x34], [0x35]);
    AbsorbOne(0x5349, 0x35);
    Absorbed5();
    assert [0x31, 0x32, 0x33, 0x34] + [0x35]
        == [0x31, 0x32, 0x33, 0x34, 0x35];
  }

  lemma After6()
    ensures AbsorbAll(0xFFFF, [0x31, 0x32, 0x33, 0x34, 0x35, 0x36]) == 0x2EF4
  {
    hide Absorb;
    After5();
    AbsorbAllSplit(0xFFFF, [0x31, 0x32, 0x33, 0x34, 0x35], [0x36]);
    AbsorbOne(0x4560, 0x36);
    Absorbed6();
    assert [0x31, 0x32, 0x33, 0x34, 0x35] + [0x36]
        == [0x31, 0x32, 0x33, 0x34, 0x35, 0x36];
  }

  lemma After7()
    ensures AbsorbAll(0xFFFF, [0x31, 0x32, 0x33, 0x34, 0x35, 0x36, 0x37]) == 0x7718
  {
    hide Absorb;
    After6();
    AbsorbAllSplit(0xFFFF, [0x31, 0x32, 0x33, 0x34, 0x35, 0x36], [0x37]);
    AbsorbOne(0x2EF4, 0x37);
    Absorbed7();
    assert [0x31, 0x32, 0x33, 0x34, 0x35, 0x36] + [0x37]
        == [0x31, 0x32, 0x33, 0x34, 0x35, 0x36, 0x37];
  }

  lemma After8()
    ensures AbsorbAll(0xFFFF, [0x31, 0x32, 0x33, 0x34, 0x35, 0x36, 0x37, 0x38]) == 0xA12B
  {
    hide Absorb;
    After7();
    AbsorbAllSplit(0xFFFF, [0x31, 0x32, 0x33, 0x34, 0x35, 0x36, 0x37], [0x38]);
    AbsorbOne(0x7718, 0x38);
    Absorbed8();
    assert [0x31, 0x32, 0x33, 0x34, 0x35, 0x36, 0x37] + [0x38]
        == [0x31, 0x32, 0x33, 0x34, 0x35, 0x36, 0x37, 0x38];
  }

  lemma After9()
    ensures AbsorbAll(0xFFFF, [0x31, 0x32, 0x33, 0x34, 0x35, 0x36, 0x37, 0x38, 0x39]) == 0x29B1
  {
    hide Absorb;
    After8();
    AbsorbAllSplit(0xFFFF, [0x31, 0x32, 0x33, 0x34, 0x35, 0x36, 0x37, 0x38], [0x39]);
    AbsorbOne(0xA12B, 0x39);
    Absorbed9();
    assert [0x31, 0x32, 0x33, 0x34, 0x35, 0x36, 0x37, 0x38] + [0x39]
        == [0x31, 0x32, 0x33, 0x34, 0x35, 0x36, 0x37, 0x38, 0x39];
  }

  /** The check value of this checksum: 0x29B1 for the digits from 1 to 9. */
  lemma CheckValue()
    ensures Crc16([0x31, 0x32, 0x33, 0x34, 0x35, 0x36, 0x37, 0x38, 0x39]) == 0x29B1
  {
    After9();
  }
}
