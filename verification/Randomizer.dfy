/**
 The CCSDS pseudo-randomizer: h(x) = x^8 + x^7 + x^5 + x^3 + 1, all-ones seed, most significant
 bit first (section 10 of CCSDS 131.0-B-4).

 `PnBit` is the unbounded output of the shift register, given by its recurrence.  The gateway
 keeps one period of 255 octets in a table and cycles through it; the fixture generator runs a
 packed register for as many octets as it needs.
 */
module Randomizer {
  import opened Octets

  const PERIOD := 255

  /** Bit `k` of the pseudo-random sequence. */
  function PnBit(k: nat): bool {
    k < 8 || (PnBit(k - 8) != PnBit(k - 5)) != (PnBit(k - 3) != PnBit(k - 1))
  }

  function BitValue(b: bool): bv8 {
    if b then 1 else 0
  }

  // Bit `r` of an octet, counted from the top.
  function Place(acc: bv8, bit: bv8, r: nat): bv8
    requires r < 8
  {
    acc | (bit << (7 - r))
  }

  // The first `n` bits from bit `k` on, placed from the top of an octet downwards.
  function PackBits(k: nat, n: nat): bv8
    requires n <= 8
  {
    if n == 0 then 0 else Place(PackBits(k, n - 1), BitValue(PnBit(k + n - 1)), n - 1)
  }

  /** Octet `i` of the pseudo-random sequence. */
  function PnOctet(i: nat): bv8 {
    PackBits(8 * i, 8)
  }

  /** `data` with the sequence added to it. */
  function Randomize(data: Octets): (r: Octets)
    ensures |r| == |data|
  {
    seq(|data|, i requires 0 <= i < |data| => data[i] ^ PnOctet(i))
  }

  /** The same call randomizes and derandomizes. */
  lemma RandomizeTwice(data: Octets)
    ensures Randomize(Randomize(data)) == data
  {
    hide PnOctet;
    forall i | 0 <= i < |data| ensures Randomize(Randomize(data))[i] == data[i] {
      XorTwice(data[i], PnOctet(i));
    }
  }

  lemma XorTwice(a: bv8, b: bv8)
    ensures (a ^ b) ^ b == a
  {
  }

  // ---------------------------------------------------------------------------------------
  // The period
  // ---------------------------------------------------------------------------------------

  // The register while it puts out bit `k`: that bit and the seven after it.
  function Window(k: nat): BitRow {
    BitRow(PnBit(k), PnBit(k + 1), PnBit(k + 2), PnBit(k + 3), PnBit(k + 4), PnBit(k + 5), PnBit(k + 6), PnBit(k + 7))
  }

  // One step of the register; `StepN` is N steps in one.
  function Step(w: BitRow): BitRow {
    BitRow(w.b6, w.b5, w.b4, w.b3, w.b2, w.b1, w.b0, ((w.b7 != w.b4) != w.b2) != w.b0)
  }

  function Step2(w: BitRow): BitRow {
    BitRow(w.b5, w.b4, w.b3, w.b2, w.b1, w.b0, ((w.b7 != w.b4) != w.b2) != w.b0,
        (((((w.b7 != w.b6) != w.b4) != w.b3) != w.b2) != w.b1) != w.b0)
  }

  function Step4(w: BitRow): BitRow {
    BitRow(w.b3, w.b2, w.b1, w.b0, ((w.b7 != w.b4) != w.b2) != w.b0,
        (((((w.b7 != w.b6) != w.b4) != w.b3) != w.b2) != w.b1) != w.b0,
        ((((w.b7 != w.b6) != w.b5) != w.b4) != w.b3) != w.b1, ((((w.b6 != w.b5) != w.b4) != w.b3) != w.b2) != w.b0)
  }

  function Step8(w: BitRow): BitRow {
    BitRow(
      ((w.b7 != w.b4) != w.b2) != w.b0,
      (((((w.b7 != w.b6) != w.b4) != w.b3) != w.b2) != w.b1) != w.b0,
      ((((w.b7 != w.b6) != w.b5) != w.b4) != w.b3) != w.b1,
      ((((w.b6 != w.b5) != w.b4) != w.b3) != w.b2) != w.b0,
      (((w.b7 != w.b5) != w.b3) != w.b1) != w.b0,
      w.b7 != w.b6,
      w.b6 != w.b5,
      w.b5 != w.b4)
  }

  lemma TwiceStep(w: BitRow)
    ensures Step(Step(w)) == Step2(w)
  {
  }

  lemma TwiceStep2(w: BitRow)
    ensures Step2(Step2(w)) == Step4(w)
  {
  }

  lemma TwiceStep4(w: BitRow)
    ensures Step4(Step4(w)) == Step8(w)
  {
  }

  lemma NextWindow(k: nat)
    ensures Window(k + 1) == Step(Window(k))
  {
  }

  lemma WindowAfter2(k: nat)
    ensures Window(k + 2) == Step2(Window(k))
  {
    hide *;
    NextWindow(k);
    NextWindow(k + 1);
    TwiceStep(Window(k));
  }

  lemma WindowAfter4(k: nat)
    ensures Window(k + 4) == Step4(Window(k))
  {
    hide *;
    WindowAfter2(k);
    WindowAfter2(k + 2);
    TwiceStep2(Window(k));
  }

  lemma WindowAfter8(k: nat)
    ensures Window(k + 8) == Step8(Window(k))
  {
    hide *;
    WindowAfter4(k);
    WindowAfter4(k + 4);
    TwiceStep4(Window(k));
  }

  // The register at the start of octet `i`, as the octet it is about to put out.
  lemma OctetWindow(k: nat, w: bv8, next: bv8)
    requires Window(k) == Bits(w) && Step8(Bits(w)) == Bits(next)
    ensures Window(k + 8) == Bits(next)
  {
    hide *;
    WindowAfter8(k);
  }

  lemma OctetsFrom0To8()
    requires Window(0) == Bits(0xFF)
    ensures Window(64) == Bits(0x8E)
  {
    hide Window;
    OctetWindow(0, 0xFF, 0x48);
    OctetWindow(8, 0x48, 0x0E);
    OctetWindow(16, 0x0E, 0xC0);
    OctetWindow(24, 0xC0, 0x9A);
    OctetWindow(32, 0x9A, 0x0D);
    OctetWindow(40, 0x0D, 0x70);
    OctetWindow(48, 0x70, 0xBC);
    OctetWindow(56, 0xBC, 0x8E);
  }

  lemma OctetsFrom8To16()
    requires Window(64) == Bits(0x8E)
    ensures Window(128) == Bits(0x5A)
  {
    hide Window;
    OctetWindow(64, 0x8E, 0x2C);
    OctetWindow(72, 0x2C, 0x93);
    OctetWindow(80, 0x93, 0xAD);
    OctetWindow(88, 0xAD, 0xA7);
    OctetWindow(96, 0xA7, 0xB7);
    OctetWindow(104, 0xB7, 0x46);
    OctetWindow(112, 0x46, 0xCE);
    OctetWindow(120, 0xCE, 0x5A);
  }

  lemma OctetsFrom16To24()
    requires Window(128) == Bits(0x5A)
    ensures Window(192) == Bits(0x0A)
  {
    hide Window;
    OctetWindow(128, 0x5A, 0x97);
    OctetWindow(136, 0x97, 0x7D);
    OctetWindow(144, 0x7D, 0xCC);
    OctetWindow(152, 0xCC, 0x32);
    OctetWindow(160, 0x32, 0xA2);
    OctetWindow(168, 0xA2, 0xBF);
    OctetWindow(176, 0xBF, 0x3E);
    OctetWindow(184, 0x3E, 0x0A);
  }

  lemma OctetsFrom24To31()
    requires Window(192) == Bits(0x0A)
    ensures Window(248) == Bits(0xB1)
  {
    hide Window;
    OctetWindow(192, 0x0A, 0x10);
    OctetWindow(200, 0x10, 0xF1);
    OctetWindow(208, 0xF1, 0x88);
    OctetWindow(216, 0x88, 0x94);
    OctetWindow(224, 0x94, 0xCD);
    OctetWindow(232, 0xCD, 0xEA);
    OctetWindow(240, 0xEA, 0xB1);
  }

  // After 31 octets and seven bits the register holds the seed again.
  lemma SeedReturns()
    ensures Window(PERIOD) == Window(0)
  {
    assert Window(0) == Bits(0xFF);
    hide Window, Step, Step2, Step4;
    OctetsFrom0To8();
    OctetsFrom8To16();
    OctetsFrom16To24();
    OctetsFrom24To31();
    WindowAfter4(248);
    WindowAfter2(252);
    NextWindow(254);
    LastSteps();
  }

  lemma LastSteps()
    ensures Step(Step2(Step4(Bits(0xB1)))) == Bits(0xFF)
  {
  }

  /** The sequence repeats after 255 bits. */
  lemma {:induction false} PnBitPeriod(k: nat)
    ensures PnBit(k + PERIOD) == PnBit(k)
  {
    if k < 8 {
      SeedReturns();
      assert Window(PERIOD) == Window(0);
    } else {
      PnBitPeriod(k - 8);
      PnBitPeriod(k - 5);
      PnBitPeriod(k - 3);
      PnBitPeriod(k - 1);
    }
  }

  lemma {:induction false} PnBitPeriods(k: nat, m: nat)
    ensures PnBit(k + m * PERIOD) == PnBit(k)
  {
    hide PnBit;
    if m == 0 {
      assert k + m * PERIOD == k;
    } else {
      PnBitPeriods(k, m - 1);
      var before := k + (m - 1) * PERIOD;
      assert before + PERIOD == k + m * PERIOD;
      PnBitPeriod(before);
    }
  }

  lemma {:induction false} PackBitsPeriods(k: nat, m: nat, n: nat)
    requires n <= 8
    ensures PackBits(k + m * PERIOD, n) == PackBits(k, n)
  {
    hide PnBit, BitValue, Place;
    if n > 0 {
      PackBitsPeriods(k, m, n - 1);
      PnBitPeriods(k + (n - 1), m);
      assert k + (n - 1) + m * PERIOD == k + m * PERIOD + n - 1;
    }
  }

  /** Cycling through one period of 255 octets never departs from the unbounded sequence. */
  lemma PnOctetCycles(i: nat)
    ensures PnOctet(i) == PnOctet(i % PERIOD)
  {
    hide PnBit, PackBits;
    var q, r := i / PERIOD, i % PERIOD;
    assert 8 * r + 8 * q * PERIOD == 8 * i;
    PackBitsPeriods(8 * r, 8 * q, 8);
  }

  // ---------------------------------------------------------------------------------------
  // The gateway: a table of one period, and the in-place pass
  // ---------------------------------------------------------------------------------------

  function Feedback(s0: bv8, s3: bv8, s5: bv8, s7: bv8): bv8 {
    s0 ^ s3 ^ s5 ^ s7
  }

  lemma FeedbackBits(a: bool, b: bool, c: bool, d: bool)
    ensures Feedback(BitValue(a), BitValue(b), BitValue(c), BitValue(d)) == BitValue((a != b) != (c != d))
  {
  }

  method BuildPnSequence() returns (out: array<bv8>)
    ensures fresh(out) && out.Length == 255
    ensures forall i :: 0 <= i < 255 ==> out[i] == PnOctet(i)
  {
    hide *;
    out := new bv8[255](i => 0);
    var state := new bv8[8](i => 1);
    SeedBits();
    NoBits(8 * 0);
    for i := 0 to 255 * 8
      invariant forall j :: 0 <= j < 8 ==> state[j] == BitValue(PnBit(i + j))
      invariant forall k :: 0 <= k < i / 8 ==> out[k] == PnOctet(k)
      invariant i / 8 < 255 ==> out[i / 8] == PackBits(8 * (i / 8), i % 8)
      invariant forall k :: i / 8 < k < 255 ==> out[k] == 0
    {
      OctetPosition(i);
      var bit := TurnRegister(state, i);
      PlaceBit(out, i / 8, i % 8, bit);
      if i % 8 == 7 {
        WholeOctet(i / 8);
        NoBits(8 * (i / 8 + 1));
      }
    }
  }

  method TurnRegister(state: array<bv8>, ghost i: nat) returns (bit: bv8)
    requires state.Length == 8
    requires forall j :: 0 <= j < 8 ==> state[j] == BitValue(PnBit(i + j))
    modifies state
    ensures bit == BitValue(PnBit(i))
    ensures forall j :: 0 <= j < 8 ==> state[j] == BitValue(PnBit(i + 1 + j))
  {
    hide *;
    bit := state[0];
    var feedback := Feedback(state[0], state[3], state[5], state[7]);
    FeedbackBits(PnBit(i), PnBit(i + 3), PnBit(i + 5), PnBit(i + 7));
    Recurrence(i + 8);
    assert bit == BitValue(PnBit(i + 0));
    ShiftState(state, i);
    state[7] := feedback;
  }

  lemma SeedBits()
    ensures forall j {:trigger PnBit(0 + j)} :: 0 <= j < 8 ==> BitValue(PnBit(0 + j)) == 1
  {
  }

  lemma Recurrence(k: nat)
    requires k >= 8
    ensures PnBit(k) == ((PnBit(k - 8) != PnBit(k - 5)) != (PnBit(k - 3) != PnBit(k - 1)))
  {
  }

  lemma OctetPosition(i: nat)
    ensures 8 * (i / 8) + i % 8 == i
    ensures i % 8 < 7 ==> (i + 1) / 8 == i / 8 && (i + 1) % 8 == i % 8 + 1
    ensures i % 8 == 7 ==> (i + 1) / 8 == i / 8 + 1 && (i + 1) % 8 == 0
  {
  }

  lemma WholeOctet(q: nat)
    ensures PackBits(8 * q, 8) == PnOctet(q)
  {
  }

  lemma NoBits(k: nat)
    ensures PackBits(k, 0) == 0
  {
  }

  method ShiftState(state: array<bv8>, ghost i: nat)
    requires state.Length == 8
    requires forall j :: 0 <= j < 8 ==> state[j] == BitValue(PnBit(i + j))
    modifies state
    ensures forall j :: 0 <= j < 7 ==> state[j] == BitValue(PnBit(i + 1 + j))
  {
    hide *;
    for j := 0 to 7
      invariant forall m :: 0 <= m < j ==> state[m] == BitValue(PnBit(i + 1 + m))
      invariant forall m :: j <= m < 8 ==> state[m] == BitValue(PnBit(i + m))
    {
      state[j] := state[j + 1];
    }
  }

  method PlaceBit(out: array<bv8>, q: nat, r: nat, bit: bv8)
    requires q < out.Length && r < 8
    requires bit == BitValue(PnBit(8 * q + r))
    requires out[q] == PackBits(8 * q, r)
    modifies out
    ensures out[q] == PackBits(8 * q, r + 1)
    ensures forall k :: 0 <= k < out.Length && k != q ==> out[k] == old(out[k])
  {
    hide PnBit, BitValue, Place;
    out[q] := Place(out[q], bit, r);
    assert 8 * q + (r + 1) - 1 == 8 * q + r;
  }

  method CcsdsRandomize(frame: array<bv8>, pn: array<bv8>)
    requires frame != pn && pn.Length == 255
    requires forall i :: 0 <= i < 255 ==> pn[i] == PnOctet(i)
    modifies frame
    ensures forall i :: 0 <= i < frame.Length ==> frame[i] == old(frame[i]) ^ PnOctet(i)
    ensures frame[..] == Randomize(old(frame[..]))
  {
    hide PnOctet;
    for i := 0 to frame.Length
      invariant forall k :: 0 <= k < i ==> frame[k] == old(frame[k]) ^ PnOctet(k)
      invariant forall k :: i <= k < frame.Length ==> frame[k] == old(frame[k])
    {
      PnOctetCycles(i);
      frame[i] := frame[i] ^ pn[i % 255];
    }
  }

  // ---------------------------------------------------------------------------------------
  // The fixture generator: a packed register
  // ---------------------------------------------------------------------------------------

  // The register as the generator keeps it: the oldest bit on top.
  function NextRegister(reg: bv8): bv8 {
    (reg << 1) | (((reg >> 7) ^ (reg >> 4) ^ (reg >> 2) ^ reg) & 1)
  }

  function TopBit(reg: bv8): bv8 {
    (reg >> 7) & 1
  }

  function Append(byte: bv8, bit: bv8): bv8 {
    (byte << 1) | bit
  }

  lemma NextRegisterStepsWindow(reg: bv8)
    ensures Bits(NextRegister(reg)) == Step(Bits(reg))
  {
  }

  lemma TopBitOfRegister(reg: bv8)
    ensures TopBit(reg) == BitValue(Bits(reg).b7)
  {
  }

  // Appending eight bits at the bottom places each where the table does.
  lemma AppendEight(b0: bv8, b1: bv8, b2: bv8, b3: bv8, b4: bv8, b5: bv8, b6: bv8, b7: bv8)
    ensures Append(Append(Append(Append(Append(Append(Append(Append(0, b0), b1), b2), b3), b4), b5), b6), b7)
         == Place(Place(Place(Place(Place(Place(Place(Place(0, b0, 0), b1, 1), b2, 2), b3, 3), b4, 4), b5, 5), b6, 6),
             b7, 7)
  {
  }

  function ShiftInBits(k: nat, n: nat): bv8 {
    if n == 0 then 0 else Append(ShiftInBits(k, n - 1), BitValue(PnBit(k + n - 1)))
  }

  lemma ShiftInBitsIsOctet(i: nat)
    ensures ShiftInBits(8 * i, 8) == PnOctet(i)
  {
    hide *;
    var k := 8 * i;
    WholeOctet(i);
    EightPacked(k);
    EightShiftedIn(k);
    AppendEight(BitValue(PnBit(k + 0)), BitValue(PnBit(k + 1)), BitValue(PnBit(k + 2)), BitValue(PnBit(k + 3)),
                BitValue(PnBit(k + 4)), BitValue(PnBit(k + 5)), BitValue(PnBit(k + 6)), BitValue(PnBit(k + 7)));
  }

  lemma EightPacked(k: nat)
    ensures PackBits(k, 8)
         == Place(Place(Place(Place(Place(Place(Place(Place(0, BitValue(PnBit(k + 0)), 0), BitValue(PnBit(k + 1)), 1),
             BitValue(PnBit(k + 2)), 2), BitValue(PnBit(k + 3)), 3), BitValue(PnBit(k + 4)), 4),
             BitValue(PnBit(k + 5)), 5), BitValue(PnBit(k + 6)), 6), BitValue(PnBit(k + 7)), 7)
  {
    hide *;
    NoBits(k);
    OneMorePacked(k, 0);
    OneMorePacked(k, 1);
    OneMorePacked(k, 2);
    OneMorePacked(k, 3);
    OneMorePacked(k, 4);
    OneMorePacked(k, 5);
    OneMorePacked(k, 6);
    OneMorePacked(k, 7);
  }

  lemma EightShiftedIn(k: nat)
    ensures ShiftInBits(k, 8)
         == Append(Append(Append(Append(Append(Append(Append(Append(0, BitValue(PnBit(k + 0))),
             BitValue(PnBit(k + 1))), BitValue(PnBit(k + 2))), BitValue(PnBit(k + 3))), BitValue(PnBit(k + 4))),
             BitValue(PnBit(k + 5))), BitValue(PnBit(k + 6))), BitValue(PnBit(k + 7)))
  {
    hide *;
    NothingShiftedIn(k);
    OneMoreShiftedIn(k, 0);
    OneMoreShiftedIn(k, 1);
    OneMoreShiftedIn(k, 2);
    OneMoreShiftedIn(k, 3);
    OneMoreShiftedIn(k, 4);
    OneMoreShiftedIn(k, 5);
    OneMoreShiftedIn(k, 6);
    OneMoreShiftedIn(k, 7);
  }

  lemma OneMorePacked(k: nat, n: nat)
    requires n < 8
    ensures PackBits(k, n + 1) == Place(PackBits(k, n), BitValue(PnBit(k + n)), n)
  {
    hide Place, BitValue, PnBit;
  }

  /** `pn_bytes`: as many octets as asked for, from a packed register. */
  method PnBytes(n: nat) returns (out: Octets)
    ensures |out| == n
    ensures forall i :: 0 <= i < n ==> out[i] == PnOctet(i)
  {
    hide *;
    var reg: bv8 := 0xFF;
    out := [];
    SeedWindow();
    for i := 0 to n
      invariant |out| == i && Bits(reg) == Window(8 * i)
      invariant forall k :: 0 <= k < i ==> out[k] == PnOctet(k)
    {
      var byte: bv8 := 0;
      NothingShiftedIn(8 * i);
      for j := 0 to 8
        invariant Bits(reg) == Window(8 * i + j)
        invariant byte == ShiftInBits(8 * i, j)
      {
        var bit := TopBit(reg);
        TopBitOfRegister(reg);
        WindowTop(8 * i + j);
        NextRegisterStepsWindow(reg);
        NextWindow(8 * i + j);
        reg := NextRegister(reg);
        byte := Append(byte, bit);
        OneMoreShiftedIn(8 * i, j);
      }
      ShiftInBitsIsOctet(i);
      out := out + [byte];
    }
  }

  lemma SeedWindow()
    ensures Window(0) == Bits(0xFF)
  {
  }

  lemma WindowTop(k: nat)
    ensures Window(k).b7 == PnBit(k)
  {
  }

  lemma NothingShiftedIn(k: nat)
    ensures ShiftInBits(k, 0) == 0
  {
  }

  lemma OneMoreShiftedIn(k: nat, n: nat)
    ensures ShiftInBits(k, n + 1) == Append(ShiftInBits(k, n), BitValue(PnBit(k + n)))
  {
    hide Append, BitValue, PnBit;
  }

  // ---------------------------------------------------------------------------------------
  // The sequence itself
  // ---------------------------------------------------------------------------------------

  lemma PlacedBits(x0: bool, x1: bool, x2: bool, x3: bool, x4: bool, x5: bool, x6: bool, x7: bool, b: bv8)
    requires b == Append(Append(Append(Append(
                    Append(Append(Append(Append(0, BitValue(x0)), BitValue(x1)), BitValue(x2)), BitValue(x3)),
                    BitValue(x4)), BitValue(x5)), BitValue(x6)), BitValue(x7))
    ensures Bits(b) == BitRow(x0, x1, x2, x3, x4, x5, x6, x7)
  {
  }

  /** The bits of octet `i`, from the top, are bits `8 i` to `8 i + 7` of the sequence. */
  lemma OctetHoldsItsBits(i: nat)
    ensures Bits(PnOctet(i)) == Window(8 * i)
  {
    hide *;
    ShiftInBitsIsOctet(i);
    EightShiftedIn(8 * i);
    WindowIs(8 * i);
    PlacedBits(PnBit(8 * i), PnBit(8 * i + 1), PnBit(8 * i + 2), PnBit(8 * i + 3), PnBit(8 * i + 4), PnBit(8 * i + 5),
               PnBit(8 * i + 6), PnBit(8 * i + 7), PnOctet(i));
  }

  lemma WindowIs(k: nat)
    ensures Window(k) == BitRow(PnBit(k), PnBit(k + 1), PnBit(k + 2), PnBit(k + 3),
                                PnBit(k + 4), PnBit(k + 5), PnBit(k + 6), PnBit(k + 7))
  {
    hide PnBit;
  }

  lemma OctetIs(i: nat, b: bv8)
    requires Window(8 * i) == Bits(b)
    ensures PnOctet(i) == b
  {
    hide *;
    OctetHoldsItsBits(i);
    BitsInjective(PnOctet(i), b);
  }

  /** The sequence begins FF 48 0E C0 9A 0D 70 BC. */
  lemma SequenceBegins()
    ensures PnOctet(0) == 0xFF && PnOctet(1) == 0x48 && PnOctet(2) == 0x0E && PnOctet(3) == 0xC0
    ensures PnOctet(4) == 0x9A && PnOctet(5) == 0x0D && PnOctet(6) == 0x70 && PnOctet(7) == 0xBC
  {
    SeedWindow();
    hide Window, PnOctet;
    OctetWindow(0, 0xFF, 0x48);
    OctetWindow(8, 0x48, 0x0E);
    OctetWindow(16, 0x0E, 0xC0);
    OctetWindow(24, 0xC0, 0x9A);
    OctetWindow(32, 0x9A, 0x0D);
    OctetWindow(40, 0x0D, 0x70);
    OctetWindow(48, 0x70, 0xBC);
    OctetIs(0, 0xFF);
    OctetIs(1, 0x48);
    OctetIs(2, 0x0E);
    OctetIs(3, 0xC0);
    OctetIs(4, 0x9A);
    OctetIs(5, 0x0D);
    OctetIs(6, 0x70);
    OctetIs(7, 0xBC);
  }

  lemma ZeroXor(b: bv8)
    ensures 0 ^ b == b
  {
  }

  /**
   A frame of zeros, of any length, becomes the sequence from its beginning: what the packed register
   of the fixture generator puts out.
   */
  lemma ZerosBecomeTheSequence(zeros: Octets, generated: Octets)
    requires |generated| == |zeros| && forall i :: 0 <= i < |zeros| ==> zeros[i] == 0
    requires forall i :: 0 <= i < |generated| ==> generated[i] == PnOctet(i)
    ensures Randomize(zeros) == generated
    ensures forall i :: 0 <= i < |zeros| && i < 8 ==>
              Randomize(zeros)[i] == [0xFF, 0x48, 0x0E, 0xC0, 0x9A, 0x0D, 0x70, 0xBC][i]
  {
    hide PnOctet;
    SequenceBegins();
    forall i | 0 <= i < |zeros| ensures Randomize(zeros)[i] == generated[i] {
      ZeroXor(PnOctet(i));
    }
  }

  /** The gateway's pass over a frame of zeros and the fixture generator's octets, side by side. */
  method RandomizedZeros(n: nat) returns (gateway: array<bv8>, generated: Octets)
    ensures gateway.Length == n && gateway[..] == generated
  {
    gateway := new bv8[n](i => 0);
    var pn := BuildPnSequence();
    CcsdsRandomize(gateway, pn);
    generated := PnBytes(n);
    hide PnOctet;
    forall i | 0 <= i < n ensures gateway[i] == generated[i] {
      ZeroXor(PnOctet(i));
    }
  }
}
