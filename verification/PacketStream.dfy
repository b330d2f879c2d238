/**
 Packets laid end to end in a channel's octet stream, and the slots of that stream that frames
 carry: where packets start and end, which frames they touch, and what pointer a frame has.
 */
module PacketStream {
  import opened Octets
  import opened Reassembly
  import opened SpacePackets
  import TmFrame

  /** Where packet `j` starts in the stream; `|packets|` gives the end of the stream. */
  function Offset(packets: seq<Octets>, j: nat): nat
    requires j <= |packets|
  {
    |Flatten(packets[..j])|
  }

  /** The stretch of the stream one frame carries; an idle frame carries none. */
  datatype Slot = Slot(lo: nat, hi: nat)

  /** The slots of consecutive frames lie end to end from the start of the stream. */
  predicate Tiled(log: seq<Slot>) {
    && (forall k :: 0 <= k < |log| ==> log[k].lo <= log[k].hi)
    && (log != [] ==> log[0].lo == 0)
    && (forall k :: 0 < k < |log| ==> log[k].lo == log[k - 1].hi)
  }

  function Carried(log: seq<Slot>): nat {
    if log == [] then 0 else log[|log| - 1].hi
  }

  /** The first packet that starts at or after `x`. */
  function FirstStart(packets: seq<Octets>, x: nat): (j: nat)
    ensures j <= |packets|
    ensures forall i :: 0 <= i < j ==> Offset(packets, i) < x
    ensures j < |packets| ==> Offset(packets, j) >= x
  {
    FirstStartFrom(packets, x, 0)
  }

  function FirstStartFrom(packets: seq<Octets>, x: nat, i: nat): (j: nat)
    requires i <= |packets| && forall k :: 0 <= k < i ==> Offset(packets, k) < x
    ensures i <= j <= |packets|
    ensures forall k :: 0 <= k < j ==> Offset(packets, k) < x
    ensures j < |packets| ==> Offset(packets, j) >= x
    decreases |packets| - i
  {
    if i == |packets| || Offset(packets, i) >= x then i else FirstStartFrom(packets, x, i + 1)
  }

  /** The first header pointer of the frame that carries `slot`. */
  function PointerFor(packets: seq<Octets>, slot: Slot): nat {
    if slot.lo == slot.hi then TmFrame.FHP_IDLE
    else
      var j := FirstStart(packets, slot.lo);
      if j < |packets| && Offset(packets, j) < slot.hi then Offset(packets, j) - slot.lo
      else TmFrame.FHP_NO_PACKET_START
  }

  // ---------------------------------------------------------------------------------------
  // Offsets
  // ---------------------------------------------------------------------------------------

  lemma OffsetNext(packets: seq<Octets>, j: nat)
    requires j < |packets|
    ensures Offset(packets, j + 1) == Offset(packets, j) + |packets[j]|
  {
    assert packets[..j + 1] == packets[..j] + [packets[j]];
    FlattenAppend(packets[..j], [packets[j]]);
    FlattenOne(packets[j]);
  }

  lemma FlattenOne(p: Octets)
    ensures Flatten([p]) == p
  {
    assert Flatten([p]) == p + Flatten([p][1..]);
    assert [p][1..] == [];
  }

  lemma OffsetEnds(packets: seq<Octets>)
    ensures Offset(packets, 0) == 0 && Offset(packets, |packets|) == |Flatten(packets)|
  {
    assert packets[..0] == [] && packets[..|packets|] == packets;
  }

  lemma {:induction false} OffsetMonotone(packets: seq<Octets>, i: nat, j: nat)
    requires i <= j <= |packets|
    ensures Offset(packets, i) <= Offset(packets, j)
    decreases j
  {
    if i < j {
      OffsetMonotone(packets, i, j - 1);
      OffsetNext(packets, j - 1);
    }
  }

  // Packets `i` up to `j`, cut out of the stream.
  lemma StretchOfPackets(packets: seq<Octets>, i: nat, j: nat)
    requires i <= j <= |packets|
    ensures Offset(packets, i) <= Offset(packets, j) <= |Flatten(packets)|
    ensures Flatten(packets)[Offset(packets, i)..Offset(packets, j)] == Flatten(packets[i..j])
  {
    hide Flatten;
    var a, b, c := packets[..i], packets[i..j], packets[j..];
    assert packets == a + b + c && packets[..j] == a + b;
    FlattenAppend(a, b);
    FlattenAppend(a + b, c);
    var s := Flatten(packets);
    assert s == Flatten(a) + Flatten(b) + Flatten(c);
    assert s[|Flatten(a)|..|Flatten(a)| + |Flatten(b)|] == Flatten(b);
  }

  // Packets packed later do not move the ones already there.
  lemma OffsetStable(packets: seq<Octets>, more: seq<Octets>, j: nat)
    requires j <= |packets|
    ensures Offset(packets + more, j) == Offset(packets, j)
  {
    assert (packets + more)[..j] == packets[..j];
  }

  /** Packing more changes neither the octets nor the pointer of a slot already filled. */
  lemma SlotStable(packets: seq<Octets>, more: seq<Octets>, slot: Slot)
    requires slot.lo <= slot.hi <= |Flatten(packets)|
    ensures Flatten(packets) <= Flatten(packets + more)
    ensures PointerFor(packets + more, slot) == PointerFor(packets, slot)
  {
    FlattenAppend(packets, more);
    var j, k := FirstStart(packets, slot.lo), FirstStart(packets + more, slot.lo);
    forall i | 0 <= i <= |packets| ensures Offset(packets + more, i) == Offset(packets, i) {
      OffsetStable(packets, more, i);
    }
    if j < |packets| {
      assert k == j;
    } else if k < |packets + more| {
      assert k >= |packets|;
      OffsetMonotone(packets + more, |packets|, k);
      OffsetEnds(packets);
    }
  }

  // ---------------------------------------------------------------------------------------
  // Well-formed streams
  // ---------------------------------------------------------------------------------------

  predicate AllWellFormed(packets: seq<Octets>) {
    forall j :: 0 <= j < |packets| ==> WellFormed(packets[j])
  }

  /** How many packets have ended by position `x`. */
  function Floor(packets: seq<Octets>, x: nat): (b: nat)
    ensures b <= |packets| && Offset(packets, b) <= x
    ensures b < |packets| ==> x < Offset(packets, b + 1)
  {
    assert packets[..0] == [];
    FloorFrom(packets, x, 0)
  }

  function FloorFrom(packets: seq<Octets>, x: nat, i: nat): (b: nat)
    requires i <= |packets| && Offset(packets, i) <= x
    ensures b <= |packets| && Offset(packets, b) <= x
    ensures b < |packets| ==> x < Offset(packets, b + 1)
    decreases |packets| - i
  {
    if i == |packets| || x < Offset(packets, i + 1) then i else FloorFrom(packets, x, i + 1)
  }

  lemma {:induction false} OffsetStrict(packets: seq<Octets>, i: nat, j: nat)
    requires AllWellFormed(packets) && i < j <= |packets|
    ensures Offset(packets, i) < Offset(packets, j)
  {
    hide HasVersion0, DeclaredLength;
    OffsetNext(packets, i);
    OffsetMonotone(packets, i + 1, j);
  }

  lemma OrderByOffset(packets: seq<Octets>, i: nat, j: nat)
    requires AllWellFormed(packets) && i <= |packets| && j <= |packets|
    ensures i < j <==> Offset(packets, i) < Offset(packets, j)
  {
    hide AllWellFormed;
    if i < j {
      OffsetStrict(packets, i, j);
    } else {
      OffsetMonotone(packets, j, i);
    }
  }

  /** Floor and first start, side by side: at most the packet in progress lies between them. */
  lemma FloorAndFirst(packets: seq<Octets>, x: nat)
    requires AllWellFormed(packets) && x <= |Flatten(packets)|
    ensures var b, f := Floor(packets, x), FirstStart(packets, x);
            && b <= f <= b + 1
            && (f == b <==> Offset(packets, b) == x)
  {
    hide AllWellFormed, Floor, FirstStart;
    var b, f := Floor(packets, x), FirstStart(packets, x);
    OffsetEnds(packets);
    if f < |packets| {
      OrderByOffset(packets, b, f);
      if b < |packets| { OrderByOffset(packets, f, b + 1); }
    }
    if b < |packets| {
      assert x < Offset(packets, b + 1);
    }
    if f < b {
      OrderByOffset(packets, f, b);
    }
  }

  lemma FloorMonotone(packets: seq<Octets>, x: nat, y: nat)
    requires AllWellFormed(packets) && x <= y
    ensures Floor(packets, x) <= Floor(packets, y)
  {
    hide AllWellFormed, Floor;
    var a, b := Floor(packets, x), Floor(packets, y);
    if b < a {
      OrderByOffset(packets, b, a);
      OffsetMonotone(packets, b + 1, a);
    }
  }

  lemma FirstMonotone(packets: seq<Octets>, x: nat, y: nat)
    requires x <= y
    ensures FirstStart(packets, x) <= FirstStart(packets, y)
  {
    hide FirstStart;
    var a, b := FirstStart(packets, x), FirstStart(packets, y);
    if b < |packets| {
      assert Offset(packets, b) >= y;
    }
  }

  lemma FloorOfOffset(packets: seq<Octets>, j: nat)
    requires AllWellFormed(packets) && j <= |packets|
    ensures Floor(packets, Offset(packets, j)) == j
  {
    hide AllWellFormed, Floor;
    var b := Floor(packets, Offset(packets, j));
    OrderByOffset(packets, j, b);
    if b < |packets| { OrderByOffset(packets, j, b + 1); }
  }

  lemma PrefixIsIncomplete(p: Octets, n: nat)
    requires WellFormed(p) && n < |p|
    ensures Incomplete(p[..n])
  {
    hide VersionOf, U16;
    if n >= PACKET_HEADER_LEN {
      assert p[..n][..PACKET_HEADER_LEN] == p[..PACKET_HEADER_LEN];
      SameHeader(p, p[..n]);
    }
  }

  // What lies between the last packet end and `x` is the start of one packet.
  lemma RestIsIncomplete(packets: seq<Octets>, x: nat)
    requires AllWellFormed(packets) && x <= |Flatten(packets)|
    ensures Incomplete(Flatten(packets)[Offset(packets, Floor(packets, x))..x])
  {
    hide WellFormed, Incomplete, Floor;
    var s, b := Flatten(packets), Floor(packets, x);
    OffsetEnds(packets);
    if b == |packets| {
      assert s[Offset(packets, b)..x] == [];
      EmptyIsIncomplete();
    } else {
      StretchOfPackets(packets, b, b + 1);
      FlattenOne(packets[b]);
      assert packets[b..b + 1] == [packets[b]];
      var n := x - Offset(packets, b);
      assert s[Offset(packets, b)..x] == packets[b][..n];
      OffsetNext(packets, b);
      PrefixIsIncomplete(packets[b], n);
    }
  }

  /** From a packet start to any later point, exactly the packets that have ended come off. */
  lemma CutStream(packets: seq<Octets>, i: nat, x: nat)
    requires AllWellFormed(packets) && i <= |packets| && Offset(packets, i) <= x <= |Flatten(packets)|
    ensures var s, b := Flatten(packets), Floor(packets, x);
            i <= b && Cut(s[Offset(packets, i)..x]) == Cutting(packets[i..b], s[Offset(packets, b)..x], false)
  {
    hide WellFormed, Incomplete, Floor, Cut, AllWellFormed, Offset;
    var s, b := Flatten(packets), Floor(packets, x);
    FloorOfOffset(packets, i);
    FloorMonotone(packets, Offset(packets, i), x);
    StretchOfPackets(packets, i, b);
    var from, mid := Offset(packets, i), Offset(packets, b);
    JoinStretches(s, from, mid, x);
    RestIsIncomplete(packets, x);
    SubsequenceWellFormed(packets, i, b);
    CutJoined(packets[i..b], s[mid..x]);
  }

  lemma JoinStretches(s: Octets, from: nat, mid: nat, to: nat)
    requires from <= mid <= to <= |s|
    ensures s[from..to] == s[from..mid] + s[mid..to]
  {
  }

  lemma SubsequenceWellFormed(packets: seq<Octets>, i: nat, j: nat)
    requires AllWellFormed(packets) && i <= j <= |packets|
    ensures forall q :: q in packets[i..j] ==> WellFormed(q)
  {
    hide WellFormed;
  }
}
