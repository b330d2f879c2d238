/**
 From the builder's queues to the deframer's output: what arrives of the frames a builder sent, in
 whatever order the channels are interleaved and however the link cuts or pads them, decides exactly
 which packets come out on each channel.
 */
module EndToEnd {
  import opened Builder
  import opened Channels
  import opened Deframing
  import opened LossLocality
  import opened Octets
  import opened PacketStream
  import opened VirtualChannels
  import BitStrings
  import Crc
  import Layouts
  import MarkerSearch
  import Randomizer
  import Reassembly
  import SpacePackets
  import TmFrame

  /** Eight channels of one spacecraft, all packets well formed; `l` is the link of any of them. */
  ghost predicate Sends(l: Link, hs: seq<History>) {
    && |hs| == Deframing.CHANNELS
    && forall v :: 0 <= v < Deframing.CHANNELS ==>
         ValidLink(l.(vcid := v)) && SentFromLog(l.(vcid := v), hs[v]) && AllWellFormed(hs[v].packed)
  }

  function FrameLength(l: Link): nat {
    6 + l.dataLength + (if l.fecf then 2 else 0)
  }

  /** The deframer is configured for this link. */
  predicate Matches(cfg: Config, l: Link) {
    && ValidConfig(cfg) && cfg.fecf == l.fecf
    && (cfg.frameLength.Some? ==> cfg.frameLength.value == FrameLength(l))
    && (cfg.spacecraftId.Some? ==> cfg.spacecraftId.value == l.spacecraftId)
    && 8 <= FrameLength(l) <= 2048
  }

  /** A frame as it goes over the link, without its marker. */
  function OnLink(cfg: Config, raw: Octets): Octets {
    if cfg.derandomize then Randomizer.Randomize(raw) else raw
  }

  /** `to_cadu` */
  function ToCadu(raw: Octets, randomize: bool): Octets {
    ASM + (if randomize then Randomizer.Randomize(raw) else raw)
  }

  /** A CADU octet by octet: the marker, and the frame, with the sequence added to it if it is randomized. */
  lemma CaduIs(raw: Octets, randomize: bool)
    ensures var s := ToCadu(raw, randomize);
            && |s| == 4 + |raw| && s[0] == 0x1A && s[1] == 0xCF && s[2] == 0xFC && s[3] == 0x1D
            && forall i :: 0 <= i < |raw| ==> s[4 + i] == if randomize then raw[i] ^ Randomizer.PnOctet(i) else raw[i]
  {
    hide Randomizer.PnOctet;
  }

  // ---------------------------------------------------------------------------------------
  // One frame
  // ---------------------------------------------------------------------------------------

  lemma AssembledDecodes(l: Link, mc: bv8, count: bv8, pointer: nat, data: Octets)
    requires ValidLink(l) && pointer < 0x800 && data != []
    ensures var h := HeaderFor(l, mc, count, pointer);
            TmFrame.ParseFrame(TmFrame.Assemble(h, [], data, [], l.fecf), l.fecf) == Ok(TmFrame.Frame(h, data, None))
  {
    hide TmFrame.ParseFrame, TmFrame.Assemble;
    var f := TmFrame.Frame(HeaderFor(l, mc, count, pointer), data, None);
    TmFrame.ParseAssembled(f, [], l.fecf);
  }

  /** Every frame sent decodes, on the right channel, to what the log says it carries. */
  lemma SentFrameDecodes(cfg: Config, l: Link, h: History, k: nat) returns (f: TmFrame.Frame)
    requires ValidLink(l) && SentFromLog(l, h) && Matches(cfg, l) && k < |h.sent|
    ensures |h.sent[k]| == FrameLength(l)
    ensures Decode(cfg, OnLink(cfg, h.sent[k])) == Ok(f)
    ensures f.header.vcid == l.vcid && f.header.spacecraftId == l.spacecraftId
    ensures HasMasterCount(h.sent[k], f.header.mcCount)
    ensures Carries(h.packed, h.log, k, PartOf(f))
  {
    hide TmFrame.ParseFrame, TmFrame.Assemble, PointerFor, Randomizer.Randomize, IsTenBit;
    var slot, raw, count := h.log[k], h.sent[k], CountAt(k);
    SlotWithinCarried(h.log, k);
    var pointer, data := PointerFor(h.packed, slot), DataFor(h.packed, slot, l.dataLength);
    assert IsFrame(l, h.packed, slot, count, raw);
    var mc: bv8 :| raw == TmFrame.Assemble(HeaderFor(l, mc, count, pointer), [], data, [], l.fecf);
    AssembledDecodes(l, mc, count, pointer, data);
    AssembledHasMasterCount(l, mc, count, pointer, data);
    f := TmFrame.Frame(HeaderFor(l, mc, count, pointer), data, None);
    Randomizer.RandomizeTwice(raw);
  }

  /**
   The pointer of the frame that carries `slot`: to the first packet that starts in it, 2047 if none
   does, and 2046 in an idle frame.
   */
  ghost predicate PointsAtFirstStart(packed: seq<Octets>, slot: Slot, p: nat) {
    if slot.lo >= slot.hi then p == 2046
    else
      && (forall j :: 0 <= j < |packed| && slot.lo <= Offset(packed, j) < slot.hi ==> slot.lo + p <= Offset(packed, j))
      && (p == 2047 || exists j :: 0 <= j < |packed| && Offset(packed, j) == slot.lo + p < slot.hi)
  }

  lemma PointerIsFirstStart(packed: seq<Octets>, slot: Slot)
    requires slot.lo <= slot.hi
    ensures PointsAtFirstStart(packed, slot, PointerFor(packed, slot))
  {
    hide FirstStart, Offset;
    var j := FirstStart(packed, slot.lo);
    forall i | 0 <= i < |packed| && slot.lo <= Offset(packed, i) < slot.hi
      ensures slot.lo + PointerFor(packed, slot) <= Offset(packed, i)
    {
      assert j <= i;
      OffsetMonotone(packed, j, i);
    }
  }

  /**
   The `k`th frame of a channel, octet by octet: version 0, spacecraft, channel and no control field; the
   channel's count; no secondary header, packets, unsegmented; the pointer; the stretch of the packet
   stream, or 0x55; and the checksum of all that.
   */
  lemma SentFrameOctets(l: Link, h: History, k: nat)
    requires ValidLink(l) && SentFromLog(l, h) && k < |h.sent|
    ensures var raw, slot, n := h.sent[k], h.log[k], l.dataLength;
            && |raw| == 6 + n + (if l.fecf then 2 else 0)
            && raw[0] as nat * 256 + raw[1] as nat == l.spacecraftId as nat * 16 + l.vcid * 2
            && raw[3] as nat == k % 256
            && raw[4] as nat / 8 == 3
            && PointsAtFirstStart(h.packed, slot, raw[4] as nat % 8 * 256 + raw[5] as nat)
            && (slot.lo < slot.hi ==>
                  slot.hi <= |Flatten(h.packed)| && raw[6..6 + n] == Flatten(h.packed)[slot.lo..slot.hi])
            && (slot.lo == slot.hi ==> forall i :: 6 <= i < 6 + n ==> raw[i] == 0x55)
            && (l.fecf ==> raw[6 + n] as nat * 256 + raw[7 + n] as nat == Crc.Crc16(raw[..6 + n]) as nat)
  {
    hide TmFrame.HeaderOctets, PointerFor, PointsAtFirstStart, Crc.Crc16, Crc.WordOctets, IsTenBit, Tiled;
    var slot, raw, count, n := h.log[k], h.sent[k], CountAt(k), l.dataLength;
    SlotWithinCarried(h.log, k);
    var pointer, data := PointerFor(h.packed, slot), DataFor(h.packed, slot, n);
    assert IsFrame(l, h.packed, slot, count, raw);
    var mc: bv8 :| raw == TmFrame.Assemble(HeaderFor(l, mc, count, pointer), [], data, [], l.fecf);
    CountAtIsModulo(k);
    PointerIsFirstStart(h.packed, slot);
    var head := TmFrame.HeaderOctets(HeaderFor(l, mc, count, pointer));
    HeaderSays(l, mc, count, pointer);
    assert |data| == n;
    var body := head + [] + data + [];
    assert body == raw[..6 + n] == head + data;
    assert raw[..6] == head && raw[6..6 + n] == data;
    Layouts.WordOctetsAre(Crc.Crc16(body));
    assert raw[0] == head[0] && raw[1] == head[1] && raw[3] == head[3] && raw[4] == head[4] && raw[5] == head[5];
    if l.fecf {
      assert raw[6 + n..] == Crc.WordOctets(Crc.Crc16(body));
      assert raw[6 + n] == raw[6 + n..][0] && raw[7 + n] == raw[6 + n..][1];
    }
  }

  lemma HeaderSays(l: Link, mc: bv8, count: bv8, pointer: nat)
    requires ValidLink(l) && pointer < 0x800
    ensures var o := TmFrame.HeaderOctets(HeaderFor(l, mc, count, pointer));
            && o[0] as nat * 256 + o[1] as nat == l.spacecraftId as nat * 16 + l.vcid * 2
            && o[2] == mc && o[3] == count
            && o[4] as nat / 8 == 3 && o[4] as nat % 8 * 256 + o[5] as nat == pointer
  {
    hide TmFrame.HeaderOctets, TmFrame.DecodeHeader;
    var o := TmFrame.HeaderOctets(HeaderFor(l, mc, count, pointer));
    Layouts.FrameHeaderOctets(HeaderFor(l, mc, count, pointer));
    Layouts.FrameHeaderFields(o);
    TopFive(o[4]);
    Upper(o[0] as nat, o[1] as nat, l.spacecraftId as nat, l.vcid);
  }

  // A frame octet whose top three bits are clear and whose next two are set.
  lemma TopFive(b: bv8)
    requires b & 0x20 == 0 && b & 0x10 != 0 && b & 0x08 != 0
    requires b as nat / 128 != 1 && b as nat / 64 % 2 != 1
    ensures b as nat / 8 == 3
  {
    BitStrings.SumOfBits(b);
  }

  lemma Upper(a: nat, b: nat, s: nat, v: nat)
    requires a / 64 == 0 && s == a % 64 * 16 + b / 16 && v == b / 2 % 8 && b % 2 == 0
    ensures a * 256 + b == s * 16 + v * 2
  {
    assert b == b / 16 * 16 + b % 16 && b / 2 == b / 16 * 8 + b % 16 / 2;
  }

  // ---------------------------------------------------------------------------------------
  // What arrives, channel by channel
  // ---------------------------------------------------------------------------------------

  ghost predicate ValidArrivals(hs: seq<History>, arrivals: seq<Arrival>) {
    forall i :: 0 <= i < |arrivals| ==> arrivals[i].vcid < |hs| && arrivals[i].index < |hs[arrivals[i].vcid].sent|
  }

  function RawOf(hs: seq<History>, a: Arrival): Octets
    requires a.vcid < |hs| && a.index < |hs[a.vcid].sent|
  {
    hs[a.vcid].sent[a.index]
  }

  // `frames` are what the arrivals decode to.
  ghost predicate DecodedFrom(cfg: Config, hs: seq<History>, arrivals: seq<Arrival>, frames: seq<TmFrame.Frame>) {
    && ValidArrivals(hs, arrivals) && |frames| == |arrivals|
    && forall i :: 0 <= i < |frames| ==> Decode(cfg, OnLink(cfg, RawOf(hs, arrivals[i]))) == Ok(frames[i])
  }

  // The frames of one channel, taken out of the arrivals, are those its indices say.
  lemma {:induction false} ChannelCarries(
      cfg: Config, l: Link, hs: seq<History>, arrivals: seq<Arrival>, frames: seq<TmFrame.Frame>, v: nat)
    requires Sends(l, hs) && Matches(cfg, l) && DecodedFrom(cfg, hs, arrivals, frames)
    requires v < Deframing.CHANNELS && (cfg.virtualChannels.Some? ==> v in cfg.virtualChannels.value)
    ensures var received, parts := IndicesOn(arrivals, v), PartsOn(cfg, frames, v);
            && |parts| == |received|
            && forall m :: 0 <= m < |received| ==> Carries(hs[v].packed, hs[v].log, received[m], parts[m])
    decreases |arrivals|
  {
    hide Decode, OnLink, Carries, SentFromLog, AllWellFormed, ValidLink;
    if arrivals != [] {
      var n := |arrivals| - 1;
      var a, f := arrivals[n], frames[n];
      assert DecodedFrom(cfg, hs, arrivals[..n], frames[..n]);
      ChannelCarries(cfg, l, hs, arrivals[..n], frames[..n], v);
      var g := SentFrameDecodes(cfg, l.(vcid := a.vcid), hs[a.vcid], a.index);
      assert g == f;
    }
  }

  /** The arrivals respect each channel's order, and its losses show in the 8-bit counter. */
  ghost predicate InChannelOrder(arrivals: seq<Arrival>, v: nat) {
    Increasing(IndicesOn(arrivals, v)) && LossesShow(IndicesOn(arrivals, v))
  }

  lemma SlotsFit(l: Link, h: History)
    requires ValidLink(l) && SentFromLog(l, h)
    ensures Tiled(h.log) && forall k :: 0 <= k < |h.log| ==> h.log[k].hi - h.log[k].lo <= TmFrame.FHP_IDLE
  {
    hide IsFrame, IsTenBit;
  }

  /**
   What one channel of the deframer makes of the arrivals: exactly the packets none of whose frames
   is missing, without filler, in order.
   */
  lemma ChannelOutput(
      cfg: Config, l: Link, hs: seq<History>, arrivals: seq<Arrival>, frames: seq<TmFrame.Frame>, v: nat)
    requires Sends(l, hs) && Matches(cfg, l) && DecodedFrom(cfg, hs, arrivals, frames)
    requires v < Deframing.CHANNELS && (cfg.virtualChannels.Some? ==> v in cfg.virtualChannels.value)
    requires InChannelOrder(arrivals, v)
    ensures var run, received := Reassembly.Run(PartsOn(cfg, frames, v)), IndicesOn(arrivals, v);
            && run.packets == IntactBelow(hs[v].packed, hs[v].log, received, |hs[v].packed|)
            && run.gaps == Breaks(received, |received|)
            && (Breaks(received, |received|) == 0 ==> run.dropped == 0)
  {
    hide Decode, OnLink, Carries, SentFromLog, AllWellFormed, ValidLink, Tiled, LossesShow, IntactBelow, Reassembly.Run;
    ChannelCarries(cfg, l, hs, arrivals, frames, v);
    SlotsFit(l.(vcid := v), hs[v]);
    LossIsLocal(hs[v].packed, hs[v].log, IndicesOn(arrivals, v), PartsOn(cfg, frames, v));
  }

  /** The datagrams hold the arrivals' frames: the deframer finds these and no others. */
  ghost predicate Holds(cfg: Config, hs: seq<History>, arrivals: seq<Arrival>, datagrams: seq<Octets>) {
    DecodedFrom(cfg, hs, arrivals, FramesIn(cfg, datagrams))
  }

  /**
   Loss locality, end to end: from a fresh deframer, on every channel that is not filtered out, the
   packets emitted are, in order, exactly the packed ones that are not filler and touch no missing
   frame.
   */
  lemma DeframedIsWhatArrivedIntact(
      cfg: Config, l: Link, hs: seq<History>, arrivals: seq<Arrival>, datagrams: seq<Octets>, st: State, v: nat)
    requires Sends(l, hs) && Matches(cfg, l) && IsFresh(st) && Holds(cfg, hs, arrivals, datagrams)
    requires v < Deframing.CHANNELS && InChannelOrder(arrivals, v)
    ensures OnChannel(PushAll(cfg, st, datagrams).1, v) ==
            if cfg.virtualChannels.Some? && v !in cfg.virtualChannels.value then []
            else NonIdle(IntactBelow(hs[v].packed, hs[v].log, IndicesOn(arrivals, v), |hs[v].packed|))
  {
    hide Decode, OnLink, Sends, Matches, PushAll, TakeIn, Reassembly.Run, IntactBelow, NonIdle, InChannelOrder,
         FramesIn, ValidFrames;
    var frames := FramesIn(cfg, datagrams);
    assert ValidConfig(cfg) by { MatchesIsValid(cfg, l); }
    PushAllTakesIn(cfg, st, datagrams);
    ChannelRunsAlone(cfg, Plain(st.core), frames, v);
    if cfg.virtualChannels.Some? && v !in cfg.virtualChannels.value {
      NothingOnFilteredChannel(cfg, frames, v);
      NonIdleOfNone();
    } else {
      ChannelOutput(cfg, l, hs, arrivals, frames, v);
    }
  }

  lemma MatchesIsValid(cfg: Config, l: Link)
    requires Matches(cfg, l)
    ensures ValidConfig(cfg)
  {
  }

  lemma {:induction false} NothingOnFilteredChannel(cfg: Config, frames: seq<TmFrame.Frame>, v: nat)
    requires cfg.virtualChannels.Some? && v !in cfg.virtualChannels.value
    ensures PartsOn(cfg, frames, v) == [] && Reassembly.Run(PartsOn(cfg, frames, v)).packets == []
    ensures Reassembly.Run(PartsOn(cfg, frames, v)).gaps == 0 && Reassembly.Run(PartsOn(cfg, frames, v)).dropped == 0
    decreases |frames|
  {
    if frames != [] {
      NothingOnFilteredChannel(cfg, frames[..|frames| - 1], v);
    }
  }
}
