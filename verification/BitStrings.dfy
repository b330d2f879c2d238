/**
 Octets as the bits that are sent, most significant first, and bits as numbers.
 */
module BitStrings {
  import opened Octets

  function BitList(b: BitRow): (r: seq<bool>)
    ensures |r| == 8
  {
    [b.b7, b.b6, b.b5, b.b4, b.b3, b.b2, b.b1, b.b0]
  }

  /** The bits of `data`, in the order they are sent. */
  function BitsOf(data: Octets): (r: seq<bool>)
    ensures |r| == 8 * |data|
  {
    if data == [] then [] else BitList(Bits(data[0])) + BitsOf(data[1..])
  }

  /** The number with these binary digits. */
  function Value(bits: seq<bool>): nat {
    if bits == [] then 0 else 2 * Value(bits[..|bits| - 1]) + if bits[|bits| - 1] then 1 else 0
  }

  lemma ValueOneMore(bits: seq<bool>, b: bool)
    ensures Value(bits + [b]) == 2 * Value(bits) + if b then 1 else 0
  {
    assert (bits + [b])[..|bits|] == bits;
  }

  lemma ValueOfNone()
    ensures Value([]) == 0
  {
  }

  lemma ValueOfEight(b7: bool, b6: bool, b5: bool, b4: bool, b3: bool, b2: bool, b1: bool, b0: bool)
    ensures Value([b7, b6, b5, b4, b3, b2, b1, b0]) ==
      (if b7 then 128 else 0) + (if b6 then 64 else 0) + (if b5 then 32 else 0) + (if b4 then 16 else 0)
      + (if b3 then 8 else 0) + (if b2 then 4 else 0) + (if b1 then 2 else 0) + (if b0 then 1 else 0)
  {
    hide Value;
    ValueOfNone();
    ValueOneMore([], b7);
    ValueOneMore([b7], b6);
    ValueOneMore([b7, b6], b5);
    ValueOneMore([b7, b6, b5], b4);
    ValueOneMore([b7, b6, b5, b4], b3);
    ValueOneMore([b7, b6, b5, b4, b3], b2);
    ValueOneMore([b7, b6, b5, b4, b3, b2], b1);
    ValueOneMore([b7, b6, b5, b4, b3, b2, b1], b0);
    assert [] + [b7] == [b7] && [b7] + [b6] == [b7, b6] && [b7, b6] + [b5] == [b7, b6, b5];
    assert [b7, b6, b5] + [b4] == [b7, b6, b5, b4] && [b7, b6, b5, b4] + [b3] == [b7, b6, b5, b4, b3];
    assert [b7, b6, b5, b4, b3] + [b2] == [b7, b6, b5, b4, b3, b2];
    assert [b7, b6, b5, b4, b3, b2] + [b1] == [b7, b6, b5, b4, b3, b2, b1];
    assert [b7, b6, b5, b4, b3, b2, b1] + [b0] == [b7, b6, b5, b4, b3, b2, b1, b0];
  }

  lemma SumOfBits(b: bv8)
    ensures b as nat == (if b & 0x80 != 0 then 128 else 0) + (if b & 0x40 != 0 then 64 else 0)
      + (if b & 0x20 != 0 then 32 else 0) + (if b & 0x10 != 0 then 16 else 0) + (if b & 0x08 != 0 then 8 else 0)
      + (if b & 0x04 != 0 then 4 else 0) + (if b & 0x02 != 0 then 2 else 0) + (if b & 0x01 != 0 then 1 else 0)
  {
  }

  /** An octet is the number its bits write. */
  lemma OctetIsItsBits(b: bv8)
    ensures Value(BitList(Bits(b))) == b as nat
  {
    hide Value;
    SumOfBits(b);
    var r := Bits(b);
    ValueOfEight(r.b7, r.b6, r.b5, r.b4, r.b3, r.b2, r.b1, r.b0);
  }

  lemma ValueOfEightMore(a: seq<bool>, b: seq<bool>)
    requires |b| == 8
    ensures Value(a + b) == 256 * Value(a) + Value(b)
  {
    hide Value, Power;
    ValueOfMore(a, b);
    PowersOfTwo();
  }

  function Power(n: nat): nat {
    if n == 0 then 1 else 2 * Power(n - 1)
  }

  lemma PowersOfTwo()
    ensures Power(8) == 256
  {
    assert Power(4) == 16;
  }

  lemma {:induction false} ValueOfMore(a: seq<bool>, b: seq<bool>)
    ensures Value(a + b) == Value(a) * Power(|b|) + Value(b)
    decreases |b|
  {
    hide Value, Power;
    if b == [] {
      assert a + b == a;
      ValueOfNone();
      PowerOfNone();
    } else {
      var n := |b| - 1;
      ValueOfMore(a, b[..n]);
      ValueOneMore(a + b[..n], b[n]);
      ValueOneMore(b[..n], b[n]);
      assert a + b == a + b[..n] + [b[n]] && b == b[..n] + [b[n]];
      PowerOfOneMore(n);
      Regroup(Value(a), Power(n));
    }
  }

  lemma Regroup(a: nat, b: nat)
    ensures 2 * (a * b) == a * (2 * b)
  {
  }

  lemma PowerOfNone()
    ensures Power(0) == 1
  {
  }

  lemma PowerOfOneMore(n: nat)
    ensures Power(n + 1) == 2 * Power(n)
  {
  }

  /** Two octets read big-endian are the number their 16 bits write. */
  lemma U16IsItsBits(hi: bv8, lo: bv8)
    ensures U16(hi, lo) == Value(BitsOf([hi, lo]))
  {
    hide Value, Bits, BitList;
    OctetIsItsBits(hi);
    OctetIsItsBits(lo);
    ValueOfEightMore(BitList(Bits(hi)), BitList(Bits(lo)));
    BitsOfTwo(hi, lo);
  }

  lemma BitsOfTwo(a: bv8, b: bv8)
    ensures BitsOf([a, b]) == BitList(Bits(a)) + BitList(Bits(b))
  {
    hide Bits, BitList;
    assert [a, b][1..] == [b] && [b][1..] == [];
  }

  lemma {:induction false} BitsOfAppend(a: Octets, b: Octets)
    ensures BitsOf(a + b) == BitsOf(a) + BitsOf(b)
    decreases |a|
  {
    hide Bits, BitList;
    if a == [] {
      assert a + b == b;
    } else {
      BitsOfAppend(a[1..], b);
      assert (a + b)[1..] == a[1..] + b;
    }
  }

  /** Two octets joined to a word are the same number. */
  lemma JoinedOctets(hi: bv8, lo: bv8)
    ensures (((hi as bv16) << 8) | (lo as bv16)) as nat == hi as nat * 256 + lo as nat
  {
  }
}
