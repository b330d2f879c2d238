/**
 `TmFrameBuilder`: packs Space Packets into frames of fixed length, one queue per virtual channel.

 Ghost fields remember, per channel, every packet ever packed, the slot of the packet stream each
 frame carries, and the frames themselves.  `Valid` ties them to the real fields: every frame built
 so far is the one `LossLocality` and `EndToEnd` reason about.
 */
module Builder {
  import opened Octets
  import opened PacketStream
  import Layouts
  import SpacePackets
  import TmFrame

  const CHANNELS := 8

  /** The queue of one virtual channel. */
  datatype BuilderVc = BuilderVc(frameCount: bv8, queued: Octets, starts: seq<nat>, emitted: nat)

  /** Everything a channel was given and everything it produced. */
  datatype History = History(packed: seq<Octets>, log: seq<Slot>, sent: seq<Octets>)

  const NOTHING := History([], [], [])

  /** What all frames of one channel have in common. */
  datatype Link = Link(spacecraftId: bv16, vcid: nat, dataLength: nat, fecf: bool)

  predicate IsTenBit(x: bv16) {
    x & 0x3FF == x
  }

  function TenBits(x: bv16): bv16 {
    x & 0x3FF
  }

  predicate ValidLink(l: Link) {
    IsTenBit(l.spacecraftId) && l.vcid < CHANNELS && 2 <= l.dataLength <= 2042
  }

  function HeaderFor(l: Link, mc: bv8, count: bv8, pointer: nat): TmFrame.Header {
    TmFrame.Header(0, l.spacecraftId, l.vcid, false, mc, count, false, false, pointer)
  }

  function Filler(n: nat): Octets {
    seq(n, i => 0x55)
  }

  /** The data field of the frame that carries `slot`. */
  function DataFor(packed: seq<Octets>, slot: Slot, n: nat): Octets {
    if slot.lo == slot.hi then Filler(n)
    else if slot.lo <= slot.hi <= |Flatten(packed)| then Flatten(packed)[slot.lo..slot.hi]
    else []
  }

  /** `raw` is frame `count` of its channel and carries `slot`. */
  ghost predicate IsFrame(l: Link, packed: seq<Octets>, slot: Slot, count: bv8, raw: Octets)
    requires ValidLink(l)
  {
    var pointer := PointerFor(packed, slot);
    && pointer < 0x800
    && exists mc: bv8 :: raw == TmFrame.Assemble(HeaderFor(l, mc, count, pointer), [],
        DataFor(packed, slot, l.dataLength), [], l.fecf)
  }

  /** The frames a channel has sent are those of its log. */
  ghost predicate SentFromLog(l: Link, h: History)
    requires ValidLink(l)
  {
    && Tiled(h.log) && Carried(h.log) <= |Flatten(h.packed)|
    && (forall k :: 0 <= k < |h.log| ==> h.log[k].hi == h.log[k].lo || h.log[k].hi == h.log[k].lo + l.dataLength)
    && |h.sent| == |h.log|
    && (forall k :: 0 <= k < |h.log| ==> IsFrame(l, h.packed, h.log[k], CountAt(k), h.sent[k]))
  }

  /** The queue holds the octets not yet sent and knows where packets start in them. */
  ghost predicate QueueMatches(b: BuilderVc, h: History) {
    && b.emitted == Carried(h.log) <= |Flatten(h.packed)|
    && b.queued == Flatten(h.packed)[b.emitted..]
    && b.frameCount == CountAt(|h.log|)
    && StartsMatch(b.starts, h.packed, b.emitted)
  }

  // The remembered starts are those of the last packets; the forgotten ones lie before `emitted`.
  ghost predicate StartsMatch(starts: seq<nat>, packed: seq<Octets>, emitted: nat) {
    && |starts| <= |packed|
    && (forall i :: |packed| - |starts| <= i < |packed| ==> starts[i - (|packed| - |starts|)] == Offset(packed, i))
    && (forall i :: 0 <= i < |packed| - |starts| ==> Offset(packed, i) < emitted)
  }

  // ---------------------------------------------------------------------------------------
  // Queueing
  // ---------------------------------------------------------------------------------------

  lemma SentFromLogGrows(l: Link, h: History, more: seq<Octets>)
    requires ValidLink(l) && SentFromLog(l, h)
    ensures SentFromLog(l, h.(packed := h.packed + more))
  {
    var packed := h.packed + more;
    FlattenAppend(h.packed, more);
    forall k | 0 <= k < |h.log| ensures IsFrame(l, packed, h.log[k], CountAt(k), h.sent[k]) {
      SlotWithinCarried(h.log, k);
      SlotStable(h.packed, more, h.log[k]);
      FrameStable(l, h.packed, packed, h.log[k], CountAt(k), h.sent[k]);
    }
  }

  lemma FrameStable(l: Link, packed: seq<Octets>, packed': seq<Octets>, slot: Slot, count: bv8, raw: Octets)
    requires ValidLink(l) && IsFrame(l, packed, slot, count, raw)
    requires slot.lo <= slot.hi <= |Flatten(packed)| && Flatten(packed) <= Flatten(packed')
    requires PointerFor(packed', slot) == PointerFor(packed, slot)
    ensures IsFrame(l, packed', slot, count, raw)
  {
    hide PointerFor, TmFrame.Assemble;
    assert Flatten(packed')[slot.lo..slot.hi] == Flatten(packed)[slot.lo..slot.hi];
  }

  lemma {:induction false} SlotWithinCarried(log: seq<Slot>, k: nat)
    requires Tiled(log) && k < |log|
    ensures log[k].lo <= log[k].hi <= Carried(log)
    decreases |log| - k
  {
    if k < |log| - 1 {
      SlotWithinCarried(log, k + 1);
    }
  }

  lemma QueueOne(b: BuilderVc, h: History, p: Octets)
    requires QueueMatches(b, h)
    ensures QueueMatches(b.(starts := b.starts + [b.emitted + |b.queued|], queued := b.queued + p),
                         h.(packed := h.packed + [p]))
  {
    var packed := h.packed + [p];
    FlattenAppend(h.packed, [p]);
    FlattenOne(p);
    assert Flatten(packed)[b.emitted..] == b.queued + p;
    OffsetEnds(h.packed);
    forall i | 0 <= i <= |h.packed| ensures Offset(packed, i) == Offset(h.packed, i) {
      OffsetStable(h.packed, [p], i);
    }
  }

  // ---------------------------------------------------------------------------------------
  // Building a frame
  // ---------------------------------------------------------------------------------------

  // Once starts before the frame are forgotten, the front one gives the pointer.
  lemma FrontGivesPointer(starts: seq<nat>, packed: seq<Octets>, lo: nat, n: nat)
    requires StartsMatch(starts, packed, lo) && (starts != [] ==> starts[0] >= lo) && n > 0
    ensures PointerFor(packed, Slot(lo, lo + n)) ==
            if starts != [] && starts[0] < lo + n then starts[0] - lo else TmFrame.FHP_NO_PACKET_START
  {
    hide FirstStart;
    var f, j := |packed| - |starts|, FirstStart(packed, lo);
    if starts != [] {
      assert starts[0] == starts[f - f] == Offset(packed, f);
      assert j == f;
    } else {
      assert j == |packed|;
    }
  }

  lemma ForgetStart(starts: seq<nat>, packed: seq<Octets>, emitted: nat)
    requires StartsMatch(starts, packed, emitted) && starts != [] && starts[0] < emitted
    ensures StartsMatch(starts[1..], packed, emitted)
  {
    var f := |packed| - |starts|;
    assert starts[0] == starts[f - f] == Offset(packed, f);
    forall i | f + 1 <= i < |packed| ensures starts[1..][i - (f + 1)] == Offset(packed, i) {
      assert starts[1..][i - (f + 1)] == starts[i - f];
    }
  }

  lemma FrameCarriesSlot(l: Link, packed: seq<Octets>, slot: Slot, count: bv8, mc: bv8, raw: Octets)
    requires ValidLink(l) && PointerFor(packed, slot) < 0x800
    requires raw == TmFrame.Assemble(HeaderFor(l, mc, count, PointerFor(packed, slot)), [],
        DataFor(packed, slot, l.dataLength), [], l.fecf)
    ensures IsFrame(l, packed, slot, count, raw)
  {
  }

  // The log gains the slot of a frame just built.
  lemma LogGrows(l: Link, h: History, slot: Slot, raw: Octets)
    requires ValidLink(l) && SentFromLog(l, h)
    requires slot.lo == Carried(h.log) && (slot.hi == slot.lo || slot.hi == slot.lo + l.dataLength)
    requires slot.hi <= |Flatten(h.packed)|
    requires IsFrame(l, h.packed, slot, CountAt(|h.log|), raw)
    ensures SentFromLog(l, History(h.packed, h.log + [slot], h.sent + [raw]))
  {
    hide IsFrame;
  }

  lemma EmittedMatches(b: BuilderVc, h: History, n: nat, raw: Octets)
    requires QueueMatches(b, h) && n <= |b.queued|
    ensures QueueMatches(BuilderVc(Next(b.frameCount), b.queued[n..], b.starts, b.emitted + n),
                         History(h.packed, h.log + [Slot(b.emitted, b.emitted + n)], h.sent + [raw]))
  {
    assert Flatten(h.packed)[b.emitted..][n..] == Flatten(h.packed)[b.emitted + n..];
  }

  // The channel stays valid when the front of its queue becomes a frame.
  lemma EmittedFrame(l: Link, b: BuilderVc, h: History, raw: Octets, mc: bv8, fhp: nat, data: Octets)
    requires ChannelValid(l, b, h) && |b.queued| >= l.dataLength
    requires fhp == PointerFor(h.packed, Slot(b.emitted, b.emitted + l.dataLength)) < 0x800
    requires data == b.queued[..l.dataLength]
    requires raw == TmFrame.Assemble(HeaderFor(l, mc, b.frameCount, fhp), [], data, [], l.fecf)
    ensures var n := l.dataLength;
            ChannelValid(l, BuilderVc(Next(b.frameCount), b.queued[n..], b.starts, b.emitted + n), Sent(h, n, raw))
  {
    hide Tiled, SentFromLog, IsFrame, StartsMatch, PointerFor, TmFrame.Assemble, IsTenBit;
    var n := l.dataLength;
    var slot := Slot(b.emitted, b.emitted + n);
    assert data == Flatten(h.packed)[slot.lo..slot.hi];
    FrameCarriesSlot(l, h.packed, slot, CountAt(|h.log|), mc, raw);
    LogGrows(l, h, slot, raw);
    EmittedMatches(b, h, n, raw);
  }

  ghost predicate ChannelValid(l: Link, b: BuilderVc, h: History) {
    ValidLink(l) && SentFromLog(l, h) && QueueMatches(b, h)
  }

  /** A channel's history once a frame of `n` octets of packet data has been sent. */
  function Sent(h: History, n: nat, raw: Octets): History {
    History(h.packed, h.log + [Slot(Carried(h.log), Carried(h.log) + n)], h.sent + [raw])
  }

  lemma QueuedPacket(l: Link, b: BuilderVc, h: History, p: Octets)
    requires ChannelValid(l, b, h)
    ensures ChannelValid(l, b.(starts := b.starts + [b.emitted + |b.queued|], queued := b.queued + p),
        h.(packed := h.packed + [p]))
  {
    hide SentFromLog, QueueMatches;
    QueueOne(b, h, p);
    SentFromLogGrows(l, h, [p]);
  }

  lemma QueueIsRest(l: Link, b: BuilderVc, h: History)
    requires ChannelValid(l, b, h)
    ensures Carried(h.log) <= |Flatten(h.packed)| && b.queued == Flatten(h.packed)[Carried(h.log)..]
  {
  }

  lemma SentGrows(h: History, n: nat, raw: Octets)
    ensures var h' := Sent(h, n, raw);
            h'.packed == h.packed && h'.sent == h.sent + [raw] && h.log <= h'.log
  {
  }

  lemma OneMoreProduct(n: nat, k: nat)
    ensures n * (k + 1) == n * k + n
  {
  }

  // The channel stays valid when an idle frame goes out.
  lemma IdledFrame(l: Link, b: BuilderVc, h: History, raw: Octets, mc: bv8)
    requires ChannelValid(l, b, h)
    requires raw == TmFrame.Assemble(HeaderFor(l, mc, b.frameCount, TmFrame.FHP_IDLE), [], Filler(l.dataLength), [],
        l.fecf)
    ensures ChannelValid(l, b.(frameCount := Next(b.frameCount)), Sent(h, 0, raw))
  {
    hide Tiled, SentFromLog, IsFrame, StartsMatch, TmFrame.Assemble, IsTenBit;
    var slot := Slot(b.emitted, b.emitted);
    FrameCarriesSlot(l, h.packed, slot, CountAt(|h.log|), mc, raw);
    LogGrows(l, h, slot, raw);
  }

  lemma QueueFacts(l: Link, b: BuilderVc, h: History)
    requires ChannelValid(l, b, h)
    ensures b.emitted == Carried(h.log) && StartsMatch(b.starts, h.packed, b.emitted)
    ensures |Flatten(h.packed)| == b.emitted + |b.queued|
  {
  }

  lemma StartsForgotten(l: Link, b: BuilderVc, h: History, starts: seq<nat>)
    requires ChannelValid(l, b, h) && StartsMatch(starts, h.packed, b.emitted)
    ensures ChannelValid(l, b.(starts := starts), h)
  {
    hide SentFromLog, StartsMatch;
  }

  const EMPTY_QUEUE := BuilderVc(0, [], [], 0)

  lemma NothingIsValid(l: Link)
    requires ValidLink(l)
    ensures ChannelValid(l, EMPTY_QUEUE, NOTHING)
  {
  }

  lemma MaskedIsTenBit(x: bv16)
    ensures IsTenBit(TenBits(x))
  {
  }

  lemma TenBitsIs(x: bv16)
    ensures TenBits(x) as nat == x as nat % 1024
  {
    Layouts.LowTen(x);
  }

  // ---------------------------------------------------------------------------------------
  // The order of building
  // ---------------------------------------------------------------------------------------

  /** A frame by its place: the `index`th one sent on channel `vcid`. */
  datatype Arrival = Arrival(vcid: nat, index: nat)

  /** Which frames of channel `v` are among `arrivals`, in that order. */
  function IndicesOn(arrivals: seq<Arrival>, v: nat): seq<nat> {
    if arrivals == [] then []
    else
      var a := arrivals[|arrivals| - 1];
      IndicesOn(arrivals[..|arrivals| - 1], v) + (if a.vcid == v then [a.index] else [])
  }

  /** 0, 1, 2, ... */
  function Upto(n: nat): (r: seq<nat>)
    ensures |r| == n && forall i :: 0 <= i < n ==> r[i] == i
  {
    seq(n, i => i)
  }

  /** The frame has this master channel count. */
  predicate HasMasterCount(raw: Octets, mc: bv8) {
    |raw| > TmFrame.PRIMARY_HEADER_LEN && raw[2] == mc
  }

  // The `m`th frame built is a frame of its channel, with the `m`th master channel count.
  predicate BuiltAt(order: seq<Arrival>, history: seq<History>, m: nat)
    requires m < |order|
  {
    var a := order[m];
    && a.vcid < |history| && a.index < |history[a.vcid].sent|
    && HasMasterCount(history[a.vcid].sent[a.index], CountAt(m))
  }

  /** `order` holds every frame sent once, in the order of building. */
  predicate InBuildOrder(order: seq<Arrival>, mc: bv8, history: seq<History>) {
    && mc == CountAt(|order|)
    && (forall m :: 0 <= m < |order| ==> BuiltAt(order, history, m))
    && (forall v :: 0 <= v < |history| ==> IndicesOn(order, v) == Upto(|history[v].sent|))
  }

  lemma NothingBuilt(history: seq<History>)
    requires forall v :: 0 <= v < |history| ==> history[v] == NOTHING
    ensures InBuildOrder([], 0, history)
  {
  }

  // One more frame, on channel `v`.
  lemma OrderGrows(order: seq<Arrival>, mc: bv8, history: seq<History>, v: nat, h: History, raw: Octets)
    requires InBuildOrder(order, mc, history) && v < |history|
    requires h.sent == history[v].sent + [raw] && HasMasterCount(raw, mc)
    ensures InBuildOrder(order + [Arrival(v, |history[v].sent|)], Next(mc), history[v := h])
  {
    hide HasMasterCount, Next;
    var a := Arrival(v, |history[v].sent|);
    var order', history' := order + [a], history[v := h];
    assert order'[..|order|] == order;
    forall m | 0 <= m < |order'| ensures BuiltAt(order', history', m) {
      if m < |order| {
        assert BuiltAt(order, history, m);
      }
    }
    forall u | 0 <= u < |history'| ensures IndicesOn(order', u) == Upto(|history'[u].sent|) {
      assert IndicesOn(order', u) == IndicesOn(order, u) + if u == v then [a.index] else [];
    }
  }

  // Packing does not build.
  lemma OrderStays(order: seq<Arrival>, mc: bv8, history: seq<History>, v: nat, h: History)
    requires InBuildOrder(order, mc, history) && v < |history| && h.sent == history[v].sent
    ensures InBuildOrder(order, mc, history[v := h])
  {
    hide HasMasterCount, IndicesOn;
    var history' := history[v := h];
    forall m | 0 <= m < |order| ensures BuiltAt(order, history', m) {
      assert BuiltAt(order, history, m);
    }
  }

  lemma AssembledHasMasterCount(l: Link, mc: bv8, count: bv8, pointer: nat, data: Octets)
    requires l.vcid < CHANNELS && pointer < 0x800 && data != []
    ensures HasMasterCount(TmFrame.Assemble(HeaderFor(l, mc, count, pointer), [], data, [], l.fecf), mc)
  {
    hide TmFrame.Crc.Crc16, TmFrame.Crc.WordOctets;
    var h := HeaderFor(l, mc, count, pointer);
    var head := TmFrame.HeaderOctets(h);
    assert head[2] == mc;
    assert TmFrame.Assemble(h, [], data, [], l.fecf)[2] == head[2];
  }

  // ---------------------------------------------------------------------------------------
  // The builder
  // ---------------------------------------------------------------------------------------

  class TmFrameBuilder {
    const spacecraftId: bv16
    const frameLength: nat
    const fecf: bool
    var mcCount: bv8
    const vc: array<BuilderVc>

    ghost var history: seq<History>
    ghost var order: seq<Arrival>

    ghost predicate Valid()
      reads this, vc
    {
      && IsTenBit(spacecraftId) && TmFrame.FRAME_MIN_LEN + TmFrame.FECF_LEN <= frameLength <= TmFrame.FRAME_MAX_LEN
      && vc.Length == |history| == CHANNELS
      && (forall v :: 0 <= v < CHANNELS ==> ChannelValid(LinkOf(v), vc[v], history[v]))
      && InBuildOrder(order, mcCount, history)
    }

    function LinkOf(v: nat): Link
      requires TmFrame.FRAME_MIN_LEN + TmFrame.FECF_LEN <= frameLength
    {
      Link(spacecraftId, v, DataFieldLen(), fecf)
    }

    /** `TmFrameBuilder::new(..).with_fecf(..)`: the frame length is clamped. */
    constructor (spacecraftId: bv16, frameLength: nat, fecf: bool)
      ensures Valid() && fresh(vc)
      ensures this.spacecraftId as nat == spacecraftId as nat % 1024 && this.fecf == fecf
      ensures this.frameLength == if frameLength < 10 then 10 else if frameLength > 2048 then 2048 else frameLength
      ensures mcCount == 0 && forall v :: 0 <= v < CHANNELS ==> history[v] == NOTHING
    {
      this.spacecraftId := TenBits(spacecraftId);
      this.frameLength := if frameLength < TmFrame.FRAME_MIN_LEN + TmFrame.FECF_LEN
          then TmFrame.FRAME_MIN_LEN + TmFrame.FECF_LEN
                          else if frameLength > TmFrame.FRAME_MAX_LEN then TmFrame.FRAME_MAX_LEN else frameLength;
      this.fecf := fecf;
      mcCount := 0;
      vc := new BuilderVc[CHANNELS](i => EMPTY_QUEUE);
      history := seq(CHANNELS, i => NOTHING);
      order := [];
      new;
      NothingBuilt(history);
      hide ChannelValid, IsTenBit, TenBits;
      MaskedIsTenBit(spacecraftId);
      TenBitsIs(spacecraftId);
      forall v | 0 <= v < CHANNELS ensures ChannelValid(LinkOf(v), vc[v], history[v]) {
        NothingIsValid(LinkOf(v));
      }
    }

    /** `data_field_len`: octets of packet data in each frame. */
    function DataFieldLen(): (n: nat)
      requires TmFrame.FRAME_MIN_LEN + TmFrame.FECF_LEN <= frameLength
    {
      frameLength - TmFrame.PRIMARY_HEADER_LEN - (if fecf then TmFrame.FECF_LEN else 0)
    }

    // Other channels are left alone.
    twostate predicate OnlyChannel(v: nat)
      requires old(vc.Length == |history| == CHANNELS)
      reads this, vc
    {
      && |history| == CHANNELS
      && forall u :: 0 <= u < CHANNELS && u != v ==> vc[u] == old(vc[u]) && history[u] == old(history[u])
    }

    /** `frame`: header, data and checksum, with the master and channel counters stepped. */
    method Frame(v: nat, fhp: nat, data: Octets) returns (raw: Octets)
      requires TmFrame.FRAME_MIN_LEN + TmFrame.FECF_LEN <= frameLength
      requires vc.Length == CHANNELS && v < CHANNELS && fhp < 0x800
      modifies this`mcCount, vc
      ensures raw == TmFrame.Assemble(HeaderFor(LinkOf(v), old(mcCount), old(vc[v]).frameCount, fhp), [], data, [],
          fecf)
      ensures vc[v] == old(vc[v]).(frameCount := Next(old(vc[v]).frameCount))
      ensures forall u :: 0 <= u < CHANNELS && u != v ==> vc[u] == old(vc[u])
      ensures mcCount == Next(old(mcCount))
    {
      var header := TmFrame.Header(0, spacecraftId, v, false, mcCount, vc[v].frameCount, false, false, fhp);
      mcCount := Next(mcCount);
      vc[v] := vc[v].(frameCount := Next(vc[v].frameCount));
      var body := TmFrame.HeaderOctets(header) + data;
      if fecf {
        raw := body + TmFrame.Crc.WordOctets(TmFrame.Crc.Crc16(body));
      } else {
        raw := body;
      }
      assert TmFrame.HeaderOctets(header) + [] + data + [] == body;
    }

    // The loop that drops starts lying before the frame about to be built.
    static method ForgetStarts(starts: seq<nat>, lo: nat, ghost packed: seq<Octets>) returns (kept: seq<nat>)
      requires StartsMatch(starts, packed, lo)
      ensures StartsMatch(kept, packed, lo) && (kept != [] ==> kept[0] >= lo)
    {
      hide StartsMatch;
      kept := starts;
      while kept != [] && kept[0] < lo
        invariant StartsMatch(kept, packed, lo)
        decreases |kept|
      {
        ForgetStart(kept, packed, lo);
        kept := kept[1..];
      }
    }

    /** `emit_frame`: the next full frame of channel `v`. */
    method EmitFrame(v: nat) returns (raw: Octets)
      requires Valid() && v < CHANNELS && |vc[v].queued| >= DataFieldLen()
      modifies this, vc
      ensures Valid() && OnlyChannel(v)
      ensures history[v] == Sent(old(history[v]), DataFieldLen(), raw)
      ensures vc[v].queued == old(vc[v]).queued[DataFieldLen()..]
    {
      hide ChannelValid, StartsMatch, PointerFor, TmFrame.Assemble, IsTenBit, Carried, HeaderFor, Sent, Next,
           InBuildOrder, HasMasterCount;
      var n, b := DataFieldLen(), vc[v];
      ghost var h, l := history[v], LinkOf(v);
      QueueFacts(l, b, h);
      var starts := ForgetStarts(b.starts, b.emitted, h.packed);
      ghost var kept := b.(starts := starts);
      StartsForgotten(l, b, h, starts);
      FrontGivesPointer(starts, h.packed, b.emitted, n);
      var fhp := if starts != [] && starts[0] < b.emitted + n then starts[0] - b.emitted
          else TmFrame.FHP_NO_PACKET_START;
      var data := b.queued[..n];
      vc[v] := BuilderVc(b.frameCount, b.queued[n..], starts, b.emitted + n);
      raw := Frame(v, fhp, data);
      AssembledHasMasterCount(l, old(mcCount), b.frameCount, fhp, data);
      SentGrows(h, n, raw);
      OrderGrows(order, old(mcCount), history, v, Sent(h, n, raw), raw);
      order := order + [Arrival(v, |h.sent|)];
      history := history[v := Sent(h, n, raw)];
      EmittedFrame(l, kept, h, raw, old(mcCount), fhp, data);
    }

    /** `pack`: queues `packets` on a channel and returns every frame that is now full. */
    method Pack(vcid: nat, packets: seq<Octets>) returns (out: seq<Octets>)
      requires Valid()
      modifies this, vc
      ensures Valid() && OnlyChannel(vcid % CHANNELS)
      ensures var v := vcid % CHANNELS;
              var h, h' := old(history[v]), history[v];
              && h'.packed == h.packed + packets && h'.sent == h.sent + out && h.log <= h'.log
              && Carried(h'.log) <= |Flatten(h'.packed)| && vc[v].queued == Flatten(h'.packed)[Carried(h'.log)..]
              && |vc[v].queued| < DataFieldLen()
              && |old(vc[v]).queued| + |Flatten(packets)| == DataFieldLen() * |out| + |vc[v].queued|
    {
      hide ChannelValid, IsTenBit, InBuildOrder, Sent, Flatten;
      var v := vcid % CHANNELS;
      QueuePackets(v, packets);
      label queued:
      out := [];
      while |vc[v].queued| >= DataFieldLen()
        invariant Valid() && OnlyChannel(v)
        invariant history[v].packed == old@queued(history[v]).packed
        invariant history[v].sent == old@queued(history[v]).sent + out
        invariant old@queued(history[v]).log <= history[v].log
        invariant |old@queued(vc[v]).queued| == DataFieldLen() * |out| + |vc[v].queued|
        decreases |vc[v].queued|
      {
        ghost var h := history[v];
        var raw := EmitFrame(v);
        SentGrows(h, DataFieldLen(), raw);
        OneMoreProduct(DataFieldLen(), |out|);
        out := out + [raw];
      }
      QueueIsRest(LinkOf(v), vc[v], history[v]);
    }

    // The loop of `pack` that appends the packets to the queue.
    method QueuePackets(v: nat, packets: seq<Octets>)
      requires Valid() && v < CHANNELS
      modifies this`history, vc
      ensures Valid() && OnlyChannel(v)
      ensures history[v] == old(history[v]).(packed := old(history[v]).packed + packets)
      ensures |vc[v].queued| == |old(vc[v]).queued| + |Flatten(packets)|
    {
      hide ChannelValid, IsTenBit, InBuildOrder, Flatten;
      ghost var h := history[v];
      OffsetEnds(packets);
      assert h.packed + packets[..0] == h.packed;
      for i := 0 to |packets|
        invariant Valid() && OnlyChannel(v)
        invariant history[v] == h.(packed := h.packed + packets[..i])
        invariant |vc[v].queued| == |old(vc[v]).queued| + |Flatten(packets[..i])|
      {
        QueuePacket(v, packets[i]);
        assert packets[..i + 1] == packets[..i] + [packets[i]];
        assert h.packed + packets[..i] + [packets[i]] == h.packed + packets[..i + 1];
        FlattenAppend(packets[..i], [packets[i]]);
        FlattenOne(packets[i]);
      }
      assert packets[..|packets|] == packets;
    }

    method QueuePacket(v: nat, p: Octets)
      requires Valid() && v < CHANNELS
      modifies this`history, vc
      ensures Valid() && OnlyChannel(v)
      ensures history[v] == old(history[v]).(packed := old(history[v]).packed + [p])
      ensures |vc[v].queued| == |old(vc[v]).queued| + |p|
    {
      hide ChannelValid, IsTenBit, InBuildOrder;
      var b := vc[v];
      QueuedPacket(LinkOf(v), b, history[v], p);
      OrderStays(order, mcCount, history, v, history[v].(packed := history[v].packed + [p]));
      vc[v] := b.(starts := b.starts + [b.emitted + |b.queued|], queued := b.queued + p);
      history := history[v := history[v].(packed := history[v].packed + [p])];
    }

    /** `idle_frame`: a frame of filler on a channel. */
    method IdleFrame(vcid: nat) returns (raw: Octets)
      requires Valid()
      modifies this, vc
      ensures Valid() && OnlyChannel(vcid % CHANNELS)
      ensures var v := vcid % CHANNELS;
              history[v] == Sent(old(history[v]), 0, raw) && vc[v].queued == old(vc[v]).queued
    {
      hide ChannelValid, IsTenBit, Sent, TmFrame.Assemble, HeaderFor, Next, InBuildOrder, HasMasterCount;
      var v := vcid % CHANNELS;
      ghost var h, b := history[v], vc[v];
      var filler: Octets := seq(DataFieldLen(), i => 0x55);
      raw := Frame(v, TmFrame.FHP_IDLE, filler);
      AssembledHasMasterCount(LinkOf(v), old(mcCount), b.frameCount, TmFrame.FHP_IDLE, filler);
      SentGrows(h, 0, raw);
      OrderGrows(order, old(mcCount), history, v, Sent(h, 0, raw), raw);
      order := order + [Arrival(v, |h.sent|)];
      history := history[v := Sent(h, 0, raw)];
      IdledFrame(LinkOf(v), b, h, raw, old(mcCount));
    }

    /**
     `flush`: pads the last frame of a channel with an idle packet.  Everything queued is sent; what
     stays queued can only be the end of that idle packet, and only when the data field is so short
     that the packet had to be longer than the room it was meant to fill.
     */
    method Flush(vcid: nat) returns (out: seq<Octets>)
      requires Valid()
      modifies this, vc
      ensures Valid() && OnlyChannel(vcid % CHANNELS)
      ensures var v, n, q := vcid % CHANNELS, DataFieldLen(), |old(vc[vcid % CHANNELS]).queued|;
              var h, h' := old(history[v]), history[v];
              if q == 0 then out == [] && history == old(history) && vc[v] == old(vc[v])
              else
                && h'.packed == h.packed + [SpacePackets.IdlePacket(IdleLength(q, n))]
                && h'.sent == h.sent + out && h.log <= h'.log
                && Carried(h'.log) >= |Flatten(h.packed)|
                && |vc[v].queued| == (if IdleLength(q, n) <= 6 then (q + 7) % n else 0)
    {
      hide ChannelValid, IsTenBit, InBuildOrder, Sent, Flatten;
      var v, n := vcid % CHANNELS, DataFieldLen();
      var queued := |vc[v].queued|;
      if queued == 0 {
        return [];
      }
      ghost var h := history[v];
      QueueFacts(LinkOf(v), vc[v], h);
      var room := n - queued % n;
      var idleLen := if room > SpacePackets.PACKET_HEADER_LEN then room else room + n;
      var idle := SpacePackets.IdlePacket(idleLen);
      out := Pack(vcid, [idle]);
      FlattenOne(idle);
      FlattenAppend(h.packed, [idle]);
      FlushArithmetic(queued, n, |idle|, |out|, |vc[v].queued|);
    }
  }

  /** Length `flush` asks the idle packet to have when `queued` octets wait. */
  function IdleLength(queued: nat, n: nat): nat
    requires n > 0
  {
    var room := n - queued % n;
    if room > SpacePackets.PACKET_HEADER_LEN then room else room + n
  }

  /** With seven octets or more to a frame, the idle packet is the shortest that ends where a frame does. */
  lemma IdleLengthIsLeast(queued: nat, n: nat, m: nat)
    requires n >= 7
    ensures IdleLength(queued, n) >= 7 && (queued + IdleLength(queued, n)) % n == 0
    ensures m >= 7 && (queued + m) % n == 0 ==> m >= IdleLength(queued, n)
  {
    var q, k := queued / n, (queued + m) / n;
    assert queued == n * q + queued % n;
    var room := n - queued % n;
    assert queued + room == n * (q + 1) && queued + room + n == n * (q + 2);
    LeftIsRemainder(queued + room, n, q + 1, 0);
    LeftIsRemainder(queued + room + n, n, q + 2, 0);
    if m >= 7 && (queued + m) % n == 0 {
      assert queued + m == n * k + 0;
      ProductOrder(n, k, q + 1);
      ProductOrder(n, k, q + 2);
    }
  }

  /** Which lengths leave the end of the idle packet queued: these four and no others. */
  lemma FlushTailExactly(queued: nat, n: nat)
    requires 0 < queued < n
    ensures IdleLength(queued, n) <= 6 && (queued + 7) % n != 0
        <==> (n == 3 && queued == 1) || (n == 4 && queued >= 2) || (n == 5 && queued == 4)
  {
  }

  /** A builder with a data field of three octets, and two octets of its idle packet left queued. */
  method FlushCanLeaveATail() returns (b: TmFrameBuilder)
    ensures b.Valid() && b.DataFieldLen() == 3 && |b.vc[0].queued| == 2
  {
    hide ChannelValid, InBuildOrder, IsTenBit, TenBits, Flatten, SpacePackets.IdlePacket, Carried;
    b := new TmFrameBuilder(0, 11, true);
    var packet := SpacePackets.IdlePacket(7);
    NothingQueued(b);
    var full := b.Pack(0, [packet]);
    FlattenOne(packet);
    SpacePackets.IdlePacketIsIdle(7);
    SevenOctets(|full|, |b.vc[0].queued|);
    var rest := b.Flush(0);
  }

  lemma NothingQueued(b: TmFrameBuilder)
    requires b.Valid() && b.history[0] == NOTHING
    ensures |b.vc[0].queued| == 0
  {
    hide SentFromLog, InBuildOrder;
    assert ChannelValid(b.LinkOf(0), b.vc[0], b.history[0]);
  }

  lemma SevenOctets(frames: nat, left: nat)
    requires 7 == 3 * frames + left && left < 3
    ensures left == 1
  {
  }

  lemma FlushArithmetic(queued: nat, n: nat, idle: nat, frames: nat, left: nat)
    requires n >= 2 && left < n && queued > 0
    requires idle == if IdleLength(queued, n) > 6 then IdleLength(queued, n) else 7
    requires queued + idle == n * frames + left
    ensures left <= idle
    ensures left == if IdleLength(queued, n) <= 6 then (queued + 7) % n else 0
  {
    LeftIsRemainder(queued + idle, n, frames, left);
    if IdleLength(queued, n) > 6 {
      var q := queued / n;
      assert queued == n * q + queued % n;
      if n - queued % n > 6 {
        assert queued + idle == n * (q + 1);
        LeftIsRemainder(queued + idle, n, q + 1, 0);
      } else {
        assert queued + idle == n * (q + 2);
        LeftIsRemainder(queued + idle, n, q + 2, 0);
      }
    }
  }

  lemma LeftIsRemainder(total: nat, n: nat, k: nat, left: nat)
    requires n > 0 && left < n && total == n * k + left
    ensures left == total % n
  {
    var q := total / n;
    assert total == n * q + total % n;
    ProductOrder(n, k, q);
    ProductOrder(n, q, k);
  }

  lemma ProductOrder(n: nat, k: nat, q: nat)
    ensures k < q ==> n * k + n <= n * q
  {
    if k < q {
      var d: nat := q - k - 1;
      assert n * (k + 1 + d) == n * k + n + n * d;
    }
  }
}
