/**
 Packet reassembly on one virtual channel: what `TmDeframer::accept` and `drain_packets` do to a
 channel's state, as functions, and what holds of every run of frames.
 */
module Reassembly {
  import opened Octets
  import opened SpacePackets
  import TmFrame

  /** The reassembly state of one virtual channel. */
  datatype Vc = Vc(pending: Octets, inSync: bool, lastCount: Option<bv8>)

  const FRESH := Vc([], false, None)

  /** What one accepted frame means to its channel. */
  datatype Part = Part(count: bv8, pointer: nat, data: Octets)

  /** The state after a frame, the packets cut out of it (idle ones included) and the counters' increments. */
  datatype Outcome = Outcome(vc: Vc, packets: seq<Octets>, gaps: nat, idleFrames: nat, dropped: nat)

  /** The packets at the front of a buffer, what is left, and whether alignment was found to be wrong. */
  datatype Cutting = Cutting(packets: seq<Octets>, rest: Octets, lost: bool)

  /** `drain_packets` on the octets of a buffer. */
  function Cut(p: Octets): Cutting
    decreases |p|
  {
    if |p| < PACKET_HEADER_LEN then Cutting([], p, false)
    else if !HasVersion0(p) then Cutting([], [], true)
    else if |p| < DeclaredLength(p) then Cutting([], p, false)
    else
      var n := DeclaredLength(p);
      var c := Cut(p[n..]);
      Cutting([p[..n]] + c.packets, c.rest, c.lost)
  }

  // A partial packet that `lose_sync` would abandon.
  function Partial(vc: Vc): nat {
    if vc.pending != [] then 1 else 0
  }

  function LoseSync(vc: Vc): Vc {
    vc.(pending := [], inSync := false)
  }

  // Appends `data` to the buffer and drains it.
  function Drain(vc: Vc, data: Octets): Outcome {
    var c := Cut(vc.pending + data);
    if c.lost then Outcome(LoseSync(vc), c.packets, 0, 0, 1)
    else Outcome(vc.(pending := c.rest), c.packets, 0, 0, 0)
  }

  function Nothing(vc: Vc): Outcome {
    Outcome(vc, [], 0, 0, 0)
  }

  predicate IsOffset(pointer: nat) {
    pointer != TmFrame.FHP_IDLE && pointer != TmFrame.FHP_NO_PACKET_START
  }

  /** The part of `accept` after the channel's frame counter has been checked. */
  function Extract(vc: Vc, part: Part): Outcome {
    if part.pointer == TmFrame.FHP_IDLE then Outcome(vc, [], 0, 1, 0)
    else if part.pointer == TmFrame.FHP_NO_PACKET_START then
      if vc.inSync then Drain(vc, part.data) else Nothing(vc)
    else if part.pointer >= |part.data| then Outcome(LoseSync(vc), [], 0, 0, Partial(vc))
    else
      var before := if vc.inSync then Drain(vc, part.data[..part.pointer]) else Nothing(vc);
      var after := Drain(Vc([], true, vc.lastCount), part.data[part.pointer..]);
      Outcome(after.vc, before.packets + after.packets, 0, 0,
              before.dropped + (if vc.inSync then Partial(before.vc) else 0) + after.dropped)
  }

  predicate IsGap(vc: Vc, part: Part) {
    vc.lastCount.Some? && part.count != Next(vc.lastCount.value)
  }

  // The channel state once the frame counter has been looked at.
  function Counted(vc: Vc, part: Part): Vc {
    if IsGap(vc, part) then Vc([], false, Some(part.count)) else vc.(lastCount := Some(part.count))
  }

  /** `accept`, from the channel's frame counter on. */
  function Receive(vc: Vc, part: Part): Outcome {
    var o := Extract(Counted(vc, part), part);
    if IsGap(vc, part) then o.(gaps := 1, dropped := Partial(vc) + o.dropped) else o
  }

  /** A fresh channel fed the frames `parts`. */
  function Run(parts: seq<Part>): Outcome {
    if parts == [] then Nothing(FRESH)
    else
      var n := |parts| - 1;
      var o := Run(parts[..n]);
      var r := Receive(o.vc, parts[n]);
      Outcome(r.vc, o.packets + r.packets, o.gaps + r.gaps, o.idleFrames + r.idleFrames, o.dropped + r.dropped)
  }

  // ---------------------------------------------------------------------------------------
  // Cutting packets off the front of a buffer
  // ---------------------------------------------------------------------------------------

  /** The start of a packet whose end is still to come. */
  predicate Incomplete(p: Octets) {
    |p| < PACKET_HEADER_LEN || (HasVersion0(p) && |p| < DeclaredLength(p))
  }

  // A buffer with a whole packet in front.
  predicate HasPacket(p: Octets) {
    |p| >= PACKET_HEADER_LEN && HasVersion0(p) && |p| >= DeclaredLength(p)
  }

  lemma FrontIsWellFormed(p: Octets)
    requires HasPacket(p)
    ensures WellFormed(p[..DeclaredLength(p)])
  {
    hide VersionOf, U16;
    var q := p[..DeclaredLength(p)];
    assert q[..PACKET_HEADER_LEN] == p[..PACKET_HEADER_LEN];
    SameHeader(p, q);
  }

  lemma CutFront(p: Octets)
    requires HasPacket(p)
    ensures var n, c := DeclaredLength(p), Cut(p[DeclaredLength(p)..]);
            Cut(p) == Cutting([p[..n]] + c.packets, c.rest, c.lost)
  {
  }

  lemma CutStops(p: Octets)
    requires !HasPacket(p)
    ensures Cut(p) == if Incomplete(p) then Cutting([], p, false) else Cutting([], [], true)
  {
  }

  /** Whatever the buffer holds, only well-formed packets come off, in order and back to back. */
  lemma {:induction false} CutPartitions(p: Octets)
    ensures forall q :: q in Cut(p).packets ==> WellFormed(q)
    ensures Incomplete(Cut(p).rest)
    ensures Cut(p).lost ==> Cut(p).rest == [] && Flatten(Cut(p).packets) <= p
    ensures !Cut(p).lost ==> Flatten(Cut(p).packets) + Cut(p).rest == p
    decreases |p|
  {
    hide HasVersion0, DeclaredLength, WellFormed, Incomplete, Cut;
    EmptyIsIncomplete();
    if HasPacket(p) {
      var n := DeclaredLength(p);
      CutFront(p);
      CutPartitions(p[n..]);
      FrontIsWellFormed(p);
      assert Cut(p).packets[0] == p[..n] && Cut(p).packets[1..] == Cut(p[n..]).packets;
      assert p == p[..n] + p[n..];
    } else {
      CutStops(p);
    }
  }

  /** Well-formed packets followed by an incomplete one are cut exactly where they were joined. */
  lemma {:induction false} CutJoined(packets: seq<Octets>, tail: Octets)
    requires forall q :: q in packets ==> WellFormed(q)
    requires Incomplete(tail)
    ensures Cut(Flatten(packets) + tail) == Cutting(packets, tail, false)
    decreases |packets|
  {
    hide VersionOf, U16;
    if packets == [] {
      assert Flatten(packets) + tail == tail;
    } else {
      var p := packets[0];
      assert p in packets && WellFormed(p);
      var s := Flatten(packets) + tail;
      assert s == p + (Flatten(packets[1..]) + tail);
      assert s[..PACKET_HEADER_LEN] == p[..PACKET_HEADER_LEN];
      SameHeader(s, p);
      assert s[..|p|] == p && s[|p|..] == Flatten(packets[1..]) + tail;
      CutJoined(packets[1..], tail);
      assert packets == [p] + packets[1..];
    }
  }

  // ---------------------------------------------------------------------------------------
  // What holds of the channel state in every run
  // ---------------------------------------------------------------------------------------

  /** An out-of-sync channel holds nothing, and what is held is less than one packet. */
  predicate ValidVc(vc: Vc) {
    (!vc.inSync ==> vc.pending == []) && Incomplete(vc.pending)
  }

  lemma DrainKeepsValid(vc: Vc, data: Octets)
    requires vc.inSync
    ensures ValidVc(Drain(vc, data).vc)
    ensures forall q :: q in Drain(vc, data).packets ==> WellFormed(q)
  {
    hide WellFormed, Incomplete, Cut;
    CutPartitions(vc.pending + data);
    EmptyIsIncomplete();
  }

  lemma EmptyIsIncomplete()
    ensures Incomplete([])
  {
  }

  lemma ReceiveKeepsValid(vc: Vc, part: Part)
    requires ValidVc(vc)
    ensures ValidVc(Receive(vc, part).vc)
    ensures forall q :: q in Receive(vc, part).packets ==> WellFormed(q)
  {
    hide WellFormed, Incomplete, Drain;
    EmptyIsIncomplete();
    var v := Counted(vc, part);
    if v.inSync {
      DrainKeepsValid(v, part.data);
      if part.pointer <= |part.data| {
        DrainKeepsValid(v, part.data[..part.pointer]);
      }
    }
    if part.pointer <= |part.data| {
      DrainKeepsValid(Vc([], true, v.lastCount), part.data[part.pointer..]);
    }
  }

  lemma {:induction false} RunKeepsValid(parts: seq<Part>)
    ensures ValidVc(Run(parts).vc)
    ensures forall q :: q in Run(parts).packets ==> WellFormed(q)
  {
    hide WellFormed, Incomplete, Receive;
    EmptyIsIncomplete();
    if parts != [] {
      var n := |parts| - 1;
      RunKeepsValid(parts[..n]);
      ReceiveKeepsValid(Run(parts[..n]).vc, parts[n]);
    }
  }
}
