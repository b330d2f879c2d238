/**
 Which losses are local: exactly those that show in the 8-bit frame counter.  For any set of received
 frames with a hidden loss there is a sender's log, and packets in it, for which locality fails.
 */
module LossExactly {
  import opened LossLocality
  import opened Octets
  import opened PacketStream
  import opened Reassembly
  import opened SpacePackets
  import TmFrame

  /** What a sender may have packed and sent, and what arrived of it. */
  ghost predicate Scene(packets: seq<Octets>, log: seq<Slot>, received: seq<nat>, parts: seq<Part>) {
    && AllWellFormed(packets) && Tiled(log)
    && (forall k :: 0 <= k < |log| ==> log[k].hi - log[k].lo <= TmFrame.FHP_IDLE)
    && Receives(packets, log, received, parts)
  }

  // A nonzero multiple of 256 frames is missing before `received[m]`.
  predicate Hidden(received: seq<nat>, m: nat) {
    && 0 < m < |received| && received[m - 1] + 1 < received[m]
    && (received[m] - received[m - 1] - 1) % 256 == 0
  }

  // ---------------------------------------------------------------------------------------
  // The witness
  // ---------------------------------------------------------------------------------------

  // Idle frames up to frame `x`; then a packet in frames `x` and `x + 1` and one in frames `x + 2` and
  // `y`, with idle frames between these and after them.
  function SlotOf(x: nat, y: nat, k: nat): Slot {
    if k < x then Slot(0, 0)
    else if k == x then Slot(0, 7)
    else if k == x + 1 then Slot(7, 14)
    else if k == x + 2 then Slot(14, 21)
    else if k < y then Slot(21, 21)
    else if k == y then Slot(21, 28)
    else Slot(28, 28)
  }

  function LogAround(x: nat, y: nat, n: nat): (log: seq<Slot>)
    ensures |log| == n && forall k :: 0 <= k < n ==> log[k] == SlotOf(x, y, k)
  {
    seq(n, k requires 0 <= k < n => SlotOf(x, y, k))
  }

  lemma LogIsTiled(x: nat, y: nat, n: nat)
    requires x + 2 < y
    ensures Tiled(LogAround(x, y, n))
  {
  }

  function PartAt(packets: seq<Octets>, x: nat, y: nat, k: nat): Part {
    var slot, s := SlotOf(x, y, k), Flatten(packets);
    Part(CountAt(k), PointerFor(packets, slot), if slot.hi <= |s| then s[slot.lo..slot.hi] else [])
  }

  function PartsAt(packets: seq<Octets>, x: nat, y: nat, received: seq<nat>): (parts: seq<Part>)
    ensures |parts| == |received|
    ensures forall i :: 0 <= i < |received| ==> parts[i] == PartAt(packets, x, y, received[i])
  {
    seq(|received|, i requires 0 <= i < |received| => PartAt(packets, x, y, received[i]))
  }

  // What each frame of the witness is to the receiver.
  lemma PartsAre(p: Octets, q: Octets, x: nat, y: nat, k: nat)
    requires |p| == |q| == 14 && x + 2 < y
    ensures k < x || k > y ==> PartAt([p, q], x, y, k).pointer == TmFrame.FHP_IDLE
    ensures k == x ==> PartAt([p, q], x, y, k) == Part(CountAt(x), 0, p[..7])
    ensures k == y ==> PartAt([p, q], x, y, k) == Part(CountAt(y), TmFrame.FHP_NO_PACKET_START, q[7..])
  {
    hide CountAt;
    OffsetsOfTwo(p, q);
    var packets := [p, q];
    assert FirstStart(packets, 0) == 0;
    assert FirstStart(packets, 21) == 2;
    assert (p + q)[0..7] == p[..7] && (p + q)[21..28] == q[7..];
  }

  lemma SceneOfWitness(p: Octets, q: Octets, x: nat, y: nat, n: nat, received: seq<nat>)
    requires WellFormed(p) && WellFormed(q) && |p| == |q| == 14 && x + 2 < y
    requires Increasing(received) && forall i :: 0 <= i < |received| ==> received[i] < n
    ensures Scene([p, q], LogAround(x, y, n), received, PartsAt([p, q], x, y, received))
  {
    hide WellFormed, CountAt, PointerFor;
    LogIsTiled(x, y, n);
    OffsetsOfTwo(p, q);
  }

  // ---------------------------------------------------------------------------------------
  // What the receiver makes of it
  // ---------------------------------------------------------------------------------------

  // An idle frame on a channel that holds nothing.
  lemma IdleOnEmpty(vc: Vc, part: Part)
    requires vc.pending == [] && part.pointer == TmFrame.FHP_IDLE
    ensures var r := Receive(vc, part);
            r.packets == [] && r.vc.pending == [] && (!vc.inSync ==> !r.vc.inSync)
  {
  }

  lemma RunGoesOn(parts: seq<Part>, i: nat)
    requires i < |parts|
    ensures var o, r := Run(parts[..i]), Receive(Run(parts[..i]).vc, parts[i]);
            Run(parts[..i + 1]).vc == r.vc && Run(parts[..i + 1]).packets == o.packets + r.packets
  {
    hide Receive;
    assert parts[..i + 1][..i] == parts[..i];
  }

  lemma {:induction false} IdleAtFirst(parts: seq<Part>, i: nat)
    requires i <= |parts| && forall l :: 0 <= l < i ==> parts[l].pointer == TmFrame.FHP_IDLE
    ensures var o := Run(parts[..i]); o.packets == [] && o.vc.pending == [] && !o.vc.inSync
    decreases i
  {
    hide Receive;
    if i > 0 {
      IdleAtFirst(parts, i - 1);
      RunGoesOn(parts, i - 1);
      IdleOnEmpty(Run(parts[..i - 1]).vc, parts[i - 1]);
    }
  }

  lemma {:induction false} IdleAtLast(parts: seq<Part>, m: nat, i: nat)
    requires m <= i <= |parts| && Run(parts[..m]).vc.pending == []
    requires forall l :: m <= l < i ==> parts[l].pointer == TmFrame.FHP_IDLE
    ensures Run(parts[..i]).packets == Run(parts[..m]).packets && Run(parts[..i]).vc.pending == []
    decreases i
  {
    hide Receive, Run;
    if i > m {
      IdleAtLast(parts, m, i - 1);
      RunGoesOn(parts, i - 1);
      IdleOnEmpty(Run(parts[..i - 1]).vc, parts[i - 1]);
    }
  }

  lemma ForgedPacketComesOut(p: Octets, q: Octets, received: seq<nat>, m: nat)
    requires WellFormed(p) && |p| == |q| == 14 && Increasing(received) && Hidden(received, m)
    ensures Run(PartsAt([p, q], received[m - 1], received[m], received)).packets == [p[..7] + q[7..]]
  {
    hide WellFormed, Receive, Run, PartAt, CountAt;
    var x, y := received[m - 1], received[m];
    var parts := PartsAt([p, q], x, y, received);
    forall i | 0 <= i < |received| ensures i < m - 1 || i > m ==> parts[i].pointer == TmFrame.FHP_IDLE {
      PartsAre(p, q, x, y, received[i]);
    }
    PartsAre(p, q, x, y, x);
    PartsAre(p, q, x, y, y);
    CountAtCollides(y, x + 1);
    CountOfNext(x);
    IdleAtFirst(parts, m - 1);
    RunGoesOn(parts, m - 1);
    PacketOpens(Run(parts[..m - 1]).vc, p, 7, parts[m - 1]);
    RunGoesOn(parts, m);
    PacketCloses(p, 7, q[7..], CountAt(x), parts[m]);
    IdleAtLast(parts, m + 1, |parts|);
    assert parts[..|parts|] == parts;
  }

  lemma CountOfNext(x: nat)
    ensures CountAt(x + 1) == Next(CountAt(x))
  {
  }

  lemma NothingIsIntact(p: Octets, q: Octets, received: seq<nat>, m: nat, n: nat)
    requires |p| == |q| == 14 && Increasing(received) && Hidden(received, m) && received[m] < n
    ensures IntactBelow([p, q], LogAround(received[m - 1], received[m], n), received, 2) == []
  {
    hide Offset, Touches;
    var x, y := received[m - 1], received[m];
    var packets, log := [p, q], LogAround(x, y, n);
    OffsetsOfTwo(p, q);
    BetweenIsMissing(received, m, x + 1);
    BetweenIsMissing(received, m, x + 2);
    assert Touches(log[x + 1], Offset(packets, 0), Offset(packets, 1)) by { TouchedBy(7, 14, 0, 14); }
    assert Touches(log[x + 2], Offset(packets, 1), Offset(packets, 2)) by { TouchedBy(14, 21, 14, 28); }
    assert !Intact(packets, log, received, 0) && !Intact(packets, log, received, 1);
    assert IntactBelow(packets, log, received, 0) == [] && IntactBelow(packets, log, received, 1) == [];
  }

  lemma BetweenIsMissing(received: seq<nat>, m: nat, k: nat)
    requires Increasing(received) && 0 < m < |received| && received[m - 1] < k < received[m]
    ensures k !in received
  {
    forall i | 0 <= i < |received| ensures received[i] != k {
      assert i < m - 1 ==> received[i] < received[m - 1];
      assert i > m ==> received[m] < received[i];
    }
  }

  /** Any received frames with a hidden loss: a scene in which a packet comes out that was never sent. */
  lemma HiddenLossBreaks(received: seq<nat>, m: nat) returns (packets: seq<Octets>, log: seq<Slot>, parts: seq<Part>)
    requires Increasing(received) && Hidden(received, m)
    ensures Scene(packets, log, received, parts)
    ensures Run(parts).packets != IntactBelow(packets, log, received, |packets|)
  {
    hide WellFormed, IdlePacket, Scene, Run, IntactBelow, IsIdle;
    IdlePacketIsIdle(14);
    var p := IdlePacket(14);
    var x, y, n := received[m - 1], received[m], received[|received| - 1] + 1;
    packets, log, parts := [p, p], LogAround(x, y, n), PartsAt([p, p], x, y, received);
    forall i | 0 <= i < |received| ensures received[i] < n {
      assert i < |received| - 1 ==> received[i] < received[|received| - 1];
    }
    SceneOfWitness(p, p, x, y, n, received);
    ForgedPacketComesOut(p, p, received, m);
    NothingIsIntact(p, p, received, m, n);
  }

  /**
   Loss locality exactly: of the frames in `received`, whatever was packed and sent, just the packets
   that touch no missing frame come out, if and only if no run of missing frames between two received
   ones is a nonzero multiple of 256 long.
   */
  lemma LocalityExactly(received: seq<nat>)
    requires Increasing(received)
    ensures (forall packets: seq<Octets>, log: seq<Slot>, parts: seq<Part> :: Scene(packets, log, received, parts) ==>
              Run(parts).packets == IntactBelow(packets, log, received, |packets|))
        <==> LossesShow(received)
  {
    hide Run, IntactBelow, Scene, LossesShow, Hidden, Increasing;
    if LossesShow(received) {
      forall packets: seq<Octets>, log: seq<Slot>, parts: seq<Part> | Scene(packets, log, received, parts)
        ensures Run(parts).packets == IntactBelow(packets, log, received, |packets|)
      {
        ShownLossIsLocal(packets, log, received, parts);
      }
    } else {
      var m := HiddenAt(received);
      var packets, log, parts := HiddenLossBreaks(received, m);
    }
  }

  lemma ShownLossIsLocal(packets: seq<Octets>, log: seq<Slot>, received: seq<nat>, parts: seq<Part>)
    requires Scene(packets, log, received, parts) && LossesShow(received)
    ensures Run(parts).packets == IntactBelow(packets, log, received, |packets|)
  {
    hide Run, IntactBelow, AllWellFormed, Tiled, Receives, LossesShow;
    LossIsLocal(packets, log, received, parts);
  }

  lemma HiddenAt(received: seq<nat>) returns (m: nat)
    requires !LossesShow(received)
    ensures Hidden(received, m)
  {
    m :| 0 < m < |received| && received[m - 1] < received[m]
         && (received[m] - received[m - 1] - 1) % 256 == 0 && received[m] != received[m - 1] + 1;
  }
}
