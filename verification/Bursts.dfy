/**
 The checksum bit by bit: the register takes one bit at a time, most significant first, and no error
 burst of up to 16 bits, wherever it starts, leaves it as it was.
 */
module Bursts {
  import opened BitStrings
  import opened Crc
  import opened Octets
  import TmFrame

  // The register after one more bit.
  function Take(r: Row, b: bool): Row {
    Shift(r.(x15 := r.x15 != b))
  }

  function Takes(r: Row, bits: seq<bool>): Row
    decreases |bits|
  {
    if bits == [] then r else Takes(Take(r, bits[0]), bits[1..])
  }

  // ---------------------------------------------------------------------------------------
  // An octet is eight bits
  // ---------------------------------------------------------------------------------------

  // The bits of an octet still to come, moved up.
  function Up(b: BitRow): BitRow {
    BitRow(b.b6, b.b5, b.b4, b.b3, b.b2, b.b1, b.b0, false)
  }

  lemma FirstBit(r: Row, b: BitRow)
    ensures Shift(Feed(r, b)) == Feed(Take(r, b.b7), Up(b))
  {
  }

  lemma NothingFed(r: Row)
    ensures Feed(r, BitRow(false, false, false, false, false, false, false, false)) == r
  {
  }

  lemma OctetIsEightBits(r: Row, b: BitRow)
    ensures RowAbsorb(r, b) ==
      Take(Take(Take(Take(Take(Take(Take(Take(r, b.b7), b.b6), b.b5), b.b4), b.b3), b.b2), b.b1), b.b0)
  {
    hide Take, Feed, Shift;
    var r1 := Take(r, b.b7);
    var r2 := Take(r1, b.b6);
    var r3 := Take(r2, b.b5);
    var r4 := Take(r3, b.b4);
    var r5 := Take(r4, b.b3);
    var r6 := Take(r5, b.b2);
    var r7 := Take(r6, b.b1);
    var b1 := Up(b);
    var b2 := Up(b1);
    var b3 := Up(b2);
    var b4 := Up(b3);
    var b5 := Up(b4);
    var b6 := Up(b5);
    var b7 := Up(b6);
    FirstBit(r, b);
    FirstBit(r1, b1);
    FirstBit(r2, b2);
    FirstBit(r3, b3);
    FirstBit(r4, b4);
    FirstBit(r5, b5);
    FirstBit(r6, b6);
    FirstBit(r7, b7);
    NothingFed(Take(r7, b.b0));
  }

  lemma {:induction false} TakesSplit(r: Row, x: seq<bool>, y: seq<bool>)
    ensures Takes(r, x + y) == Takes(Takes(r, x), y)
    decreases |x|
  {
    hide Take;
    if x == [] {
      assert x + y == y;
    } else {
      TakesSplit(Take(r, x[0]), x[1..], y);
      assert (x + y)[1..] == x[1..] + y;
    }
  }

  lemma TakesOne(r: Row, bits: seq<bool>)
    requires bits != []
    ensures Takes(r, bits) == Takes(Take(r, bits[0]), bits[1..])
  {
  }

  lemma TakesNone(r: Row)
    ensures Takes(r, []) == r
  {
  }

  lemma OctetTaken(r: Row, b: BitRow)
    ensures RowAbsorb(r, b) == Takes(r, BitList(b))
  {
    hide Take, RowAbsorb, Takes;
    OctetIsEightBits(r, b);
    TakesOne(r, BitList(b));
    var r1 := Take(r, b.b7);
    TakesOne(r1, [b.b6, b.b5, b.b4, b.b3, b.b2, b.b1, b.b0]);
    var r2 := Take(r1, b.b6);
    TakesOne(r2, [b.b5, b.b4, b.b3, b.b2, b.b1, b.b0]);
    var r3 := Take(r2, b.b5);
    TakesOne(r3, [b.b4, b.b3, b.b2, b.b1, b.b0]);
    var r4 := Take(r3, b.b4);
    TakesOne(r4, [b.b3, b.b2, b.b1, b.b0]);
    var r5 := Take(r4, b.b3);
    TakesOne(r5, [b.b2, b.b1, b.b0]);
    var r6 := Take(r5, b.b2);
    TakesOne(r6, [b.b1, b.b0]);
    var r7 := Take(r6, b.b1);
    TakesOne(r7, [b.b0]);
    TakesNone(Take(r7, b.b0));
    assert BitList(b)[1..] == [b.b6, b.b5, b.b4, b.b3, b.b2, b.b1, b.b0];
    assert [b.b6, b.b5, b.b4, b.b3, b.b2, b.b1, b.b0][1..] == [b.b5, b.b4, b.b3, b.b2, b.b1, b.b0];
    assert [b.b5, b.b4, b.b3, b.b2, b.b1, b.b0][1..] == [b.b4, b.b3, b.b2, b.b1, b.b0];
    assert [b.b4, b.b3, b.b2, b.b1, b.b0][1..] == [b.b3, b.b2, b.b1, b.b0];
    assert [b.b3, b.b2, b.b1, b.b0][1..] == [b.b2, b.b1, b.b0];
    assert [b.b2, b.b1, b.b0][1..] == [b.b1, b.b0];
    assert [b.b1, b.b0][1..] == [b.b0] && [b.b0][1..] == [];
  }

  lemma {:induction false} AllTaken(r: Row, data: Octets)
    ensures RowAbsorbAll(r, data) == Takes(r, BitsOf(data))
    decreases |data|
  {
    hide RowAbsorb, BitList, Bits;
    if data == [] {
      TakesNone(r);
    } else {
      OctetTaken(r, Bits(data[0]));
      AllTaken(RowAbsorb(r, Bits(data[0])), data[1..]);
      TakesSplit(r, BitList(Bits(data[0])), BitsOf(data[1..]));
    }
  }

  // ---------------------------------------------------------------------------------------
  // Bursts
  // ---------------------------------------------------------------------------------------

  lemma TakeInjective(a: Row, b: Row, x: bool)
    requires Take(a, x) == Take(b, x)
    ensures a == b
  {
  }

  lemma {:induction false} TakesInjective(a: Row, b: Row, bits: seq<bool>)
    requires Takes(a, bits) == Takes(b, bits)
    ensures a == b
    decreases |bits|
  {
    hide Take;
    if bits != [] {
      TakesInjective(Take(a, bits[0]), Take(b, bits[0]), bits[1..]);
      TakeInjective(a, b, bits[0]);
    }
  }

  function RowOfBits(x: seq<bool>): BitRow
    requires |x| == 8
  {
    BitRow(x[0], x[1], x[2], x[3], x[4], x[5], x[6], x[7])
  }

  lemma OctetOfBits(x: seq<bool>)
    requires |x| == 8
    ensures BitList(RowOfBits(x)) == x
  {
  }

  lemma TwoOctetsOf(x: seq<bool>)
    requires |x| == 16
    ensures x == BitList(RowOfBits(x[..8])) + BitList(RowOfBits(x[8..]))
  {
    hide BitList, RowOfBits;
    OctetOfBits(x[..8]);
    OctetOfBits(x[8..]);
  }

  // From one register value, 16 bits are determined by the register they lead to.
  lemma SixteenBitsInjective(r: Row, x: seq<bool>, y: seq<bool>)
    requires |x| == |y| == 16 && Takes(r, x) == Takes(r, y)
    ensures x == y
  {
    hide Takes, RowAbsorb, BitList, RowOfBits;
    var x1, x2, y1, y2 := RowOfBits(x[..8]), RowOfBits(x[8..]), RowOfBits(y[..8]), RowOfBits(y[8..]);
    TwoOctetsOf(x);
    TwoOctetsOf(y);
    TakesSplit(r, BitList(x1), BitList(x2));
    TakesSplit(r, BitList(y1), BitList(y2));
    OctetTaken(r, x1);
    OctetTaken(r, y1);
    OctetTaken(RowAbsorb(r, x1), x2);
    OctetTaken(RowAbsorb(r, y1), y2);
    TwoOctetsInjective(r, x1, x2, y1, y2);
  }

  lemma BurstChangesRegister(r: Row, x: seq<bool>, y: seq<bool>, from: nat)
    requires |x| == |y| && from + 16 <= |x| && x != y
    requires forall k :: 0 <= k < |x| && !(from <= k < from + 16) ==> x[k] == y[k]
    ensures Takes(r, x) != Takes(r, y)
  {
    hide Takes;
    var x1, x2, x3 := x[..from], x[from..from + 16], x[from + 16..];
    var y1, y2, y3 := y[..from], y[from..from + 16], y[from + 16..];
    assert x == x1 + x2 + x3 && y == y1 + y2 + y3 && x1 == y1 && x3 == y3;
    TakesSplit(r, x1 + x2, x3);
    TakesSplit(r, y1 + y2, y3);
    TakesSplit(r, x1, x2);
    TakesSplit(r, y1, y2);
    if Takes(r, x) == Takes(r, y) {
      TakesInjective(Takes(r, x1 + x2), Takes(r, y1 + y2), x3);
      SixteenBitsInjective(Takes(r, x1), x2, y2);
    }
  }

  lemma {:induction false} BitsOfInjective(a: Octets, b: Octets)
    requires |a| == |b| && BitsOf(a) == BitsOf(b)
    ensures a == b
  {
    hide Bits;
    if a != [] {
      assert BitsOf(a)[..8] == BitList(Bits(a[0])) && BitsOf(b)[..8] == BitList(Bits(b[0]));
      assert BitsOf(a)[8..] == BitsOf(a[1..]) && BitsOf(b)[8..] == BitsOf(b[1..]);
      SameBits(Bits(a[0]), Bits(b[0]));
      BitsInjective(a[0], b[0]);
      BitsOfInjective(a[1..], b[1..]);
    }
  }

  lemma SameBits(x: BitRow, y: BitRow)
    requires BitList(x) == BitList(y)
    ensures x == y
  {
    assert x.b7 == BitList(x)[0] && x.b6 == BitList(x)[1] && x.b5 == BitList(x)[2] && x.b4 == BitList(x)[3];
    assert x.b3 == BitList(x)[4] && x.b2 == BitList(x)[5] && x.b1 == BitList(x)[6] && x.b0 == BitList(x)[7];
  }

  /**
   A change confined to 16 consecutive bits, which may begin in the middle of an octet and reach over
   three, always changes the checksum.
   */
  lemma BurstOf16BitsChangesCrc(a: Octets, b: Octets, from: nat)
    requires |a| == |b| && a != b
    requires forall k :: 0 <= k < 8 * |a| && !(from <= k < from + 16) ==> BitsOf(a)[k] == BitsOf(b)[k]
    ensures Crc16(a) != Crc16(b)
  {
    hide RowOf, BitsOf, RowAbsorbAll, Takes;
    if |a| == 1 {
      BurstChangesCrc(a, b, 0);
    } else {
      var r := RowOf(PRESET);
      RowOfAbsorbAll(PRESET, a);
      RowOfAbsorbAll(PRESET, b);
      AllTaken(r, a);
      AllTaken(r, b);
      if BitsOf(a) == BitsOf(b) {
        BitsOfInjective(a, b);
      }
      BurstChangesRegister(r, BitsOf(a), BitsOf(b), if from + 16 <= 8 * |a| then from else 8 * |a| - 16);
    }
  }

  /** Such a change, anywhere in a frame, is always caught. */
  lemma BurstOf16BitsIsRejected(sent: Octets, received: Octets, from: nat)
    requires TmFrame.ParseFrame(sent, true).Ok?
    requires |received| == |sent| && received != sent
    requires forall k :: 0 <= k < 8 * |sent| && !(from <= k < from + 16) ==> BitsOf(received)[k] == BitsOf(sent)[k]
    ensures TmFrame.ParseFrame(received, true).Err? && TmFrame.ParseFrame(received, true).error.FecfMismatch?
  {
    hide TmFrame.ParseBody, Crc16, WordOf, TmFrame.DecodeHeader, BitsOf;
    TmFrame.FecfTest(sent);
    TmFrame.FecfTest(received);
    BurstOf16BitsChangesCrc(sent, received, from);
  }
}
