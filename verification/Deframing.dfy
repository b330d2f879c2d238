/**
 The deframer as functions: which frames are accepted, what accepting one does to the counters and
 to its virtual channel, and how frames are found in a byte stream by their sync marker.
 */
module Deframing {
  import opened Octets
  import opened Reassembly
  import Randomizer
  import SpacePackets
  import TmFrame

  const ASM: Octets := [0x1A, 0xCF, 0xFC, 0x1D]
  const ASM_LEN := 4
  const CHANNELS := 8

  /** `FramingConfig`, as far as the deframer reads it. */
  datatype Config = Config(
    frameLength: Option<nat>,
    asm: bool,
    derandomize: bool,
    fecf: bool,
    spacecraftId: Option<bv16>,
    virtualChannels: Option<seq<nat>>)

  /** What `validate_framing_history` lets through. */
  predicate ValidConfig(cfg: Config) {
    && (cfg.frameLength.Some? ==> 8 <= cfg.frameLength.value <= 2048)
    && (cfg.asm ==> cfg.frameLength.Some?)
    && (cfg.spacecraftId.Some? ==> cfg.spacecraftId.value <= 0x3FF)
    && (cfg.virtualChannels.Some? ==>
          cfg.virtualChannels.value != [] && forall v :: v in cfg.virtualChannels.value ==> v < 8)
  }

  /** `FramingStats` */
  datatype Stats = Stats(
    datagrams: nat,
    framesOk: nat,
    framesCrcError: nat,
    framesInvalid: nat,
    framesOtherSpacecraft: nat,
    framesVcFiltered: nat,
    framesIdle: nat,
    vcFrameGaps: nat,
    mcFrameGaps: nat,
    packetsExtracted: nat,
    packetsIdle: nat,
    packetsDropped: nat,
    bytesDiscarded: nat)

  const NO_STATS := Stats(0, 0, 0, 0, 0, 0, 0, 0, 0, 0, 0, 0, 0)

  /** Everything the deframer remembers but the unparsed byte stream. */
  datatype Core = Core(vcs: seq<Vc>, lastMc: Option<bv8>, stats: Stats)

  /** `ExtractedPacket` */
  datatype Packet = Packet(vcid: nat, spacecraftId: bv16, bytes: Octets)

  datatype Handled = Handled(core: Core, ok: bool, packets: seq<Packet>)

  function FreshVcs(): seq<Vc> {
    seq(CHANNELS, i => FRESH)
  }

  // ---------------------------------------------------------------------------------------
  // Accepting a frame
  // ---------------------------------------------------------------------------------------

  /** The packets handed to `emit`: idle packets are dropped. */
  function Emitted(vcid: nat, spacecraftId: bv16, packets: seq<Octets>): seq<Packet> {
    if packets == [] then []
    else
      var p := packets[0];
      (if |p| >= SpacePackets.PACKET_HEADER_LEN && SpacePackets.IsIdle(p) then [] else [Packet(vcid, spacecraftId, p)])
      + Emitted(vcid, spacecraftId, packets[1..])
  }

  // The counters after a channel has taken in one frame.
  function Tally(s: Stats, o: Outcome): Stats {
    var emitted := |Emitted(0, 0, o.packets)|;
    s.(framesIdle := s.framesIdle + o.idleFrames,
       vcFrameGaps := s.vcFrameGaps + o.gaps,
       packetsExtracted := s.packetsExtracted + emitted,
       packetsIdle := s.packetsIdle + IdleCount(o.packets),
       packetsDropped := s.packetsDropped + o.dropped)
  }

  function IdleCount(packets: seq<Octets>): nat {
    if packets == [] then 0
    else
      (if |packets[0]| >= SpacePackets.PACKET_HEADER_LEN && SpacePackets.IsIdle(packets[0]) then 1 else 0)
      + IdleCount(packets[1..])
  }

  predicate IsOtherSpacecraft(cfg: Config, h: TmFrame.Header) {
    cfg.spacecraftId.Some? && cfg.spacecraftId.value != h.spacecraftId
  }

  predicate IsFiltered(cfg: Config, h: TmFrame.Header) {
    cfg.virtualChannels.Some? && h.vcid !in cfg.virtualChannels.value
  }

  predicate IsMcGap(c: Core, h: TmFrame.Header) {
    c.lastMc.Some? && h.mcCount != Next(c.lastMc.value)
  }

  function PartOf(f: TmFrame.Frame): Part {
    Part(f.header.vcCount, f.header.firstHeaderPointer, f.data)
  }

  /** `TmDeframer::accept` */
  function Accept(cfg: Config, c: Core, f: TmFrame.Frame): (r: (Core, seq<Packet>))
    requires |c.vcs| == CHANNELS && f.header.vcid < CHANNELS
    ensures |r.0.vcs| == CHANNELS
  {
    var h, s := f.header, c.stats;
    if IsOtherSpacecraft(cfg, h) then
      (c.(stats := s.(framesOtherSpacecraft := s.framesOtherSpacecraft + 1)), [])
    else
      var s := s.(mcFrameGaps := s.mcFrameGaps + if IsMcGap(c, h) then 1 else 0);
      if IsFiltered(cfg, h) then
        (Core(c.vcs, Some(h.mcCount), s.(framesVcFiltered := s.framesVcFiltered + 1)), [])
      else
        var o := Receive(c.vcs[h.vcid], PartOf(f));
        (Core(c.vcs[h.vcid := o.vc], Some(h.mcCount), Tally(s.(framesOk := s.framesOk + 1), o)),
         Emitted(h.vcid, h.spacecraftId, o.packets))
  }

  /** The frame in the octets `raw` off the link, if its length is right and it parses. */
  function Decode(cfg: Config, raw: Octets): (r: Result<TmFrame.Frame, TmFrame.FrameError>)
    ensures r.Ok? ==> r.value.header.vcid < CHANNELS && r.value.data != []
  {
    if |raw| < TmFrame.FRAME_MIN_LEN || |raw| > TmFrame.FRAME_MAX_LEN
       || (cfg.frameLength.Some? && cfg.frameLength.value != |raw|)
    then Err(TmFrame.TooShort(|raw|))
    else TmFrame.ParseFrame(if cfg.derandomize then Randomizer.Randomize(raw) else raw, cfg.fecf)
  }

  /** `TmDeframer::handle_frame` */
  function HandleFrame(cfg: Config, c: Core, raw: Octets): (r: Handled)
    requires |c.vcs| == CHANNELS
    ensures |r.core.vcs| == CHANNELS
    ensures r.ok <==> Decode(cfg, raw).Ok?
  {
    var s := c.stats;
    match Decode(cfg, raw)
    case Ok(f) =>
      var a := Accept(cfg, c, f);
      Handled(a.0, true, a.1)
    case Err(e) =>
      if e.FecfMismatch? then Handled(c.(stats := s.(framesCrcError := s.framesCrcError + 1)), false, [])
      else Handled(c.(stats := s.(framesInvalid := s.framesInvalid + 1)), false, [])
  }

  // ---------------------------------------------------------------------------------------
  // Finding frames in a byte stream
  // ---------------------------------------------------------------------------------------

  predicate MarkerAt(s: Octets, i: nat) {
    i + ASM_LEN <= |s| && s[i..i + ASM_LEN] == ASM
  }

  /** `find_asm` */
  function FindAsm(s: Octets): (r: Option<nat>)
    ensures r.None? ==> forall i: nat :: !MarkerAt(s, i)
    ensures r.Some? ==> MarkerAt(s, r.value) && forall i: nat :: i < r.value ==> !MarkerAt(s, i)
  {
    FindAsmFrom(s, 0)
  }

  function FindAsmFrom(s: Octets, i: nat): (r: Option<nat>)
    ensures r.None? ==> forall k: nat :: k >= i ==> !MarkerAt(s, k)
    ensures r.Some? ==> r.value >= i && MarkerAt(s, r.value) && forall k: nat :: i <= k < r.value ==> !MarkerAt(s, k)
    decreases |s| - i
  {
    if i + ASM_LEN > |s| then None else if MarkerAt(s, i) then Some(i) else FindAsmFrom(s, i + 1)
  }

  datatype Scanned = Scanned(core: Core, rest: Octets, packets: seq<Packet>)

  function Discard(c: Core, n: nat): Core {
    c.(stats := c.stats.(bytesDiscarded := c.stats.bytesDiscarded + n))
  }

  // Octets kept when no marker is found: they may be the start of one.
  function KeptWithoutMarker(s: Octets): nat {
    if |s| < ASM_LEN then |s| else ASM_LEN - 1
  }

  /** The loop of `TmDeframer::push_stream` on the buffered octets `s`, frames being `len` octets long. */
  function Scan(cfg: Config, len: nat, c: Core, s: Octets): (r: Scanned)
    requires |c.vcs| == CHANNELS
    ensures |r.core.vcs| == CHANNELS
    decreases |s|
  {
    match FindAsm(s)
    case None =>
      var skipped := |s| - KeptWithoutMarker(s);
      Scanned(Discard(c, skipped), s[skipped..], [])
    case Some(at) =>
      var d, start := Discard(c, at), at + ASM_LEN;
      if |s| < start + len then Scanned(d, s[at..], [])
      else
        var h := HandleFrame(cfg, d, s[start..start + len]);
        var r := Scan(cfg, len, h.core, s[if h.ok then start + len else at + 1..]);
        r.(packets := h.packets + r.packets)
  }

  // ---------------------------------------------------------------------------------------
  // Datagrams
  // ---------------------------------------------------------------------------------------

  /** The deframer's whole state. */
  datatype State = State(core: Core, stream: Octets)

  predicate ValidState(st: State) {
    |st.core.vcs| == CHANNELS
  }

  function Bump(c: Core): Core {
    c.(stats := c.stats.(datagrams := c.stats.datagrams + 1))
  }

  /** `chunks_exact(len)`, one frame after the other. */
  function HandleAll(cfg: Config, len: nat, c: Core, s: Octets): (r: (Core, seq<Packet>))
    requires |c.vcs| == CHANNELS && len > 0
    ensures |r.0.vcs| == CHANNELS
    decreases |s|
  {
    if |s| < len then (c, [])
    else
      var h := HandleFrame(cfg, c, s[..len]);
      var r := HandleAll(cfg, len, h.core, s[len..]);
      (r.0, h.packets + r.1)
  }

  function Invalid(c: Core): Core {
    c.(stats := c.stats.(framesInvalid := c.stats.framesInvalid + 1))
  }

  /** `TmDeframer::push` */
  function Push(cfg: Config, st: State, datagram: Octets): (r: (State, seq<Packet>))
    requires ValidState(st)
    ensures ValidState(r.0)
  {
    var c := Bump(st.core);
    if cfg.asm then
      match cfg.frameLength
      case None => (State(Invalid(c), st.stream), [])
      case Some(len) =>
        var r := Scan(cfg, len, c, st.stream + datagram);
        (State(r.core, r.rest), r.packets)
    else
      match cfg.frameLength
      case None =>
        var h := HandleFrame(cfg, c, datagram);
        (State(h.core, st.stream), h.packets)
      case Some(len) =>
        if datagram != [] && len > 0 && |datagram| % len == 0 then
          var r := HandleAll(cfg, len, c, datagram);
          (State(r.0, st.stream), r.1)
        else (State(Invalid(c), st.stream), [])
  }

  /** `TmDeframer::reset` */
  function Reset(st: State): State {
    State(Core(FreshVcs(), None, st.core.stats), [])
  }

  /** A deframer fed `datagrams` in order. */
  function PushAll(cfg: Config, st: State, datagrams: seq<Octets>): (r: (State, seq<Packet>))
    requires ValidState(st)
    ensures ValidState(r.0)
    decreases |datagrams|
  {
    if datagrams == [] then (st, [])
    else
      var p := Push(cfg, st, datagrams[0]);
      var r := PushAll(cfg, p.0, datagrams[1..]);
      (r.0, p.1 + r.1)
  }
}
