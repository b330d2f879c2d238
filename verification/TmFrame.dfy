/**
 TM Transfer Frames (section 4.1 of CCSDS 132.0-B-3): the primary header, and slicing one frame
 into header, secondary header, data field, operational control field and checksum.
 */
module TmFrame {
  import opened Octets
  import Crc

  const PRIMARY_HEADER_LEN := 6
  const FRAME_MAX_LEN := 2048
  const FRAME_MIN_LEN := 8
  const OCF_LEN := 4
  const FECF_LEN := 2

  // First Header Pointer values that are not offsets.
  const FHP_NO_PACKET_START := 0x7FF
  const FHP_IDLE := 0x7FE

  datatype Header = Header(
    version: bv8,
    spacecraftId: bv16,
    vcid: nat,
    ocfPresent: bool,
    mcCount: bv8,
    vcCount: bv8,
    secondaryHeader: bool,
    syncFlag: bool,
    firstHeaderPointer: nat)
  {
    // Every field fits the width it has on the link.
    predicate Encodable() {
      version & 0x03 == version && spacecraftId & 0x3FF == spacecraftId && vcid < 8 && firstHeaderPointer < 0x800
    }
  }

  function VersionOf(a: bv8): bv8 {
    (a >> 6) & 0x03
  }

  function SpacecraftOf(a: bv8, b: bv8): bv16 {
    (Crc.WordOf(a, b) >> 4) & 0x3FF
  }

  function VcidOf(b: bv8): (v: nat)
    ensures v < 8
  {
    ((b >> 1) & 0x07) as nat
  }

  function HasFlag(b: bv8, mask: bv8): bool {
    b & mask != 0
  }

  function PointerOf(high: bv8, low: bv8): nat {
    U16(high & 0x07, low)
  }

  // The first two octets: version, spacecraft, virtual channel and the OCF flag.
  function IdWord(version: bv8, spacecraftId: bv16, vcid: nat, ocfPresent: bool): bv16
    requires vcid < 8
  {
    (((version & 0x03) as bv16) << 14) | ((spacecraftId & 0x3FF) << 4)
    | ((((vcid as bv8) & 0x07) as bv16) << 1) | (Flag(ocfPresent, 1) as bv16)
  }

  // The fifth octet: flags, segment length identifier and the top of the pointer.
  function StatusOctet(secondaryHeader: bool, syncFlag: bool, pointer: nat): bv8 {
    Flag(secondaryHeader, 0x80) | Flag(syncFlag, 0x40) | 0x18 | (BigEndian16(pointer)[0] & 0x07)
  }

  /** The decoded fields of the six octets `h`. */
  function DecodeHeader(h: Octets): (header: Header)
    requires |h| == PRIMARY_HEADER_LEN
    ensures header.vcid < 8
  {
    Header(
      VersionOf(h[0]),
      SpacecraftOf(h[0], h[1]),
      VcidOf(h[1]),
      HasFlag(h[1], 0x01),
      h[2],
      h[3],
      HasFlag(h[4], 0x80),
      HasFlag(h[4], 0x40),
      PointerOf(h[4], h[5]))
  }

  /** `TmFrameHeader::parse` */
  function ParseHeader(bytes: Octets): Option<Header> {
    if |bytes| < PRIMARY_HEADER_LEN then None else Some(DecodeHeader(bytes[..PRIMARY_HEADER_LEN]))
  }

  // One flag bit in place.
  function Flag(b: bool, mask: bv8): bv8 {
    if b then mask else 0
  }

  /** `TmFrameHeader::to_bytes`: packet-order flag 0, segment length identifier 11. */
  function HeaderOctets(h: Header): (r: Octets)
    requires h.vcid < 8 && h.firstHeaderPointer < 0x800
    ensures |r| == PRIMARY_HEADER_LEN
  {
    var id := Crc.WordOctets(IdWord(h.version, h.spacecraftId, h.vcid, h.ocfPresent));
    [id[0], id[1], h.mcCount, h.vcCount,
     StatusOctet(h.secondaryHeader, h.syncFlag, h.firstHeaderPointer), BigEndian16(h.firstHeaderPointer)[1]]
  }

  lemma VcidBits(v: nat)
    requires v < 8
    ensures ((v as bv8) & 0x07) as nat == v
  {
    OctetRoundTrip(v);
    if v == 0 {} else if v == 1 {} else if v == 2 {} else if v == 3 {}
    else if v == 4 {} else if v == 5 {} else if v == 6 {} else {}
  }

  lemma PointerHigh(n: nat)
    requires n < 0x800
    ensures ((n / 256 % 256) as bv8) & 0x07 == (n / 256 % 256) as bv8
  {
    var k := n / 256;
    if k == 0 {} else if k == 1 {} else if k == 2 {} else if k == 3 {}
    else if k == 4 {} else if k == 5 {} else if k == 6 {} else {}
  }

  lemma IdFields(version: bv8, id10: bv16, vcid: nat, ocf: bool, a: bv8, b: bv8)
    requires version & 0x03 == version && id10 & 0x3FF == id10 && vcid < 8
    requires [a, b] == Crc.WordOctets(IdWord(version, id10, vcid, ocf))
    ensures VersionOf(a) == version
    ensures SpacecraftOf(a, b) == id10
    ensures VcidOf(b) == vcid
    ensures HasFlag(b, 0x01) <==> ocf
  {
    assert a == [a, b][0] && b == [a, b][1];
    VcidBits(vcid);
  }

  lemma StatusFlags(secondary: bool, sync: bool, pointer: nat, e: bv8)
    requires e == StatusOctet(secondary, sync, pointer)
    ensures HasFlag(e, 0x80) <==> secondary
    ensures HasFlag(e, 0x40) <==> sync
  {
    hide BigEndian16;
  }

  lemma StatusPointer(secondary: bool, sync: bool, pointer: nat)
    requires pointer < 0x800
    ensures PointerOf(StatusOctet(secondary, sync, pointer), BigEndian16(pointer)[1]) == pointer
  {
    hide U16;
    var high := BigEndian16(pointer)[0];
    PointerHigh(pointer);
    StatusLow(secondary, sync, high);
    BigEndian16RoundTrip(pointer);
  }

  lemma StatusLow(secondary: bool, sync: bool, high: bv8)
    ensures (Flag(secondary, 0x80) | Flag(sync, 0x40) | 0x18 | (high & 0x07)) & 0x07 == high & 0x07
  {
  }

  /** Decoding an encoded header gives the header back. */
  lemma HeaderRoundTrip(h: Header)
    requires h.Encodable()
    ensures ParseHeader(HeaderOctets(h)) == Some(h)
  {
    hide VersionOf, SpacecraftOf, VcidOf, IdWord, StatusOctet, HasFlag, PointerOf, Crc.WordOctets, BigEndian16;
    var o := HeaderOctets(h);
    assert o[..PRIMARY_HEADER_LEN] == o;
    assert [o[0], o[1]] == Crc.WordOctets(IdWord(h.version, h.spacecraftId, h.vcid, h.ocfPresent));
    IdFields(h.version, h.spacecraftId, h.vcid, h.ocfPresent, o[0], o[1]);
    StatusFlags(h.secondaryHeader, h.syncFlag, h.firstHeaderPointer, o[4]);
    StatusPointer(h.secondaryHeader, h.syncFlag, h.firstHeaderPointer);
  }

  // ---------------------------------------------------------------------------------------
  // Whole frames
  // ---------------------------------------------------------------------------------------

  datatype FrameError =
    | TooShort(len: nat)
    | NotTm(version: bv8)
    | FecfMismatch(computed: bv16, received: bv16)
    | NotPacketData
    | BadSecondaryHeader(total: nat)

  datatype Frame = Frame(header: Header, data: Octets, ocf: Option<Octets>)

  // Octets of a secondary header that starts with `id`.
  function SecondaryLength(id: bv8): nat {
    (id & 0x3F) as nat + 1
  }

  function TrailerLength(hasFecf: bool): nat {
    if hasFecf then FECF_LEN else 0
  }

  /** `parse_tm_frame`: the first problem found, or the frame's parts. */
  function ParseFrame(raw: Octets, hasFecf: bool): (r: Result<Frame, FrameError>)
    ensures r.Ok? ==> r.value.header.vcid < 8 && r.value.data != []
  {
    var trailer := TrailerLength(hasFecf);
    if |raw| < PRIMARY_HEADER_LEN + trailer then Err(TooShort(|raw|))
    else
      var bodyEnd := |raw| - trailer;
      var computed := Crc.Crc16(raw[..bodyEnd]);
      if hasFecf && computed != Crc.WordOf(raw[bodyEnd], raw[bodyEnd + 1]) then
        Err(FecfMismatch(computed, Crc.WordOf(raw[bodyEnd], raw[bodyEnd + 1])))
      else
        ParseBody(raw, DecodeHeader(raw[..PRIMARY_HEADER_LEN]), bodyEnd)
  }

  // The checks after the checksum; the body of the frame is `raw[..bodyEnd]`.
  function ParseBody(raw: Octets, header: Header, bodyEnd: nat): (r: Result<Frame, FrameError>)
    requires PRIMARY_HEADER_LEN <= bodyEnd <= |raw|
    ensures r.Ok? ==> r.value.header == header && r.value.data != []
  {
    var start := PRIMARY_HEADER_LEN;
    if header.version != 0 then Err(NotTm(header.version))
    else if header.syncFlag then Err(NotPacketData)
    else if header.ocfPresent && bodyEnd < start + OCF_LEN then Err(TooShort(|raw|))
    else
      var end := if header.ocfPresent then bodyEnd - OCF_LEN else bodyEnd;
      var ocf := if header.ocfPresent then Some(raw[end..end + OCF_LEN]) else None;
      if header.secondaryHeader && |raw| <= start then Err(TooShort(|raw|))
      else
        var total := if header.secondaryHeader then SecondaryLength(raw[start]) else 0;
        if header.secondaryHeader && start + total > end then Err(BadSecondaryHeader(total))
        else if start + total >= end then Err(TooShort(|raw|))
        else Ok(Frame(header, raw[start + total..end], ocf))
  }

  /**
   What a frame is: header, secondary header, non-empty data field, operational control field and
   checksum, one after the other, with the optional parts present as the header says.
   */
  ghost predicate IsTmFrame(raw: Octets, hasFecf: bool, f: Frame) {
    exists head: Octets, secondary: Octets, tail: Octets ::
      && IsLaidOut(raw, f, head, secondary, tail)
      && |tail| == TrailerLength(hasFecf)
      && (hasFecf ==> Crc.Crc16(raw) == 0)
  }

  ghost predicate IsLaidOut(raw: Octets, f: Frame, head: Octets, secondary: Octets, tail: Octets) {
    && raw == head + secondary + f.data + (if f.ocf.Some? then f.ocf.value else []) + tail
    && ParseHeader(head) == Some(f.header) && |head| == PRIMARY_HEADER_LEN
    && f.header.version == 0 && !f.header.syncFlag
    && (if f.header.secondaryHeader then secondary != [] && |secondary| == secondary[0] as nat % 64 + 1
        else secondary == [])
    && f.data != []
    && (f.ocf.Some? <==> f.header.ocfPresent) && (f.ocf.Some? ==> |f.ocf.value| == 4)
  }

  lemma LaidOutParses(raw: Octets, f: Frame, head: Octets, secondary: Octets, tail: Octets)
    requires IsLaidOut(raw, f, head, secondary, tail)
    ensures |raw| >= PRIMARY_HEADER_LEN + |tail|
    ensures ParseBody(raw, DecodeHeader(raw[..PRIMARY_HEADER_LEN]), |raw| - |tail|) == Ok(f)
  {
    hide DecodeHeader, SecondaryLength;
    if secondary != [] {
      SecondaryLengthIs(secondary[0]);
    }
    var ocf := if f.ocf.Some? then f.ocf.value else [];
    var start, end := PRIMARY_HEADER_LEN + |secondary|, PRIMARY_HEADER_LEN + |secondary| + |f.data|;
    assert raw[..PRIMARY_HEADER_LEN] == head == head[..PRIMARY_HEADER_LEN];
    assert secondary != [] ==> raw[PRIMARY_HEADER_LEN] == secondary[0];
    assert raw[start..end] == f.data;
    assert raw[end..end + |ocf|] == ocf;
  }

  // Where the parts of an accepted frame begin and end.
  lemma ParsedOffsets(raw: Octets, f: Frame, bodyEnd: nat) returns (start: nat, end: nat)
    requires PRIMARY_HEADER_LEN <= bodyEnd <= |raw|
    requires ParseBody(raw, DecodeHeader(raw[..PRIMARY_HEADER_LEN]), bodyEnd) == Ok(f)
    ensures f.header == DecodeHeader(raw[..PRIMARY_HEADER_LEN]) && f.header.version == 0 && !f.header.syncFlag
    ensures PRIMARY_HEADER_LEN <= start < end <= bodyEnd && f.data == raw[start..end]
    ensures start == PRIMARY_HEADER_LEN
        + (if f.header.secondaryHeader then SecondaryLength(raw[PRIMARY_HEADER_LEN]) else 0)
    ensures end == bodyEnd - (if f.header.ocfPresent then OCF_LEN else 0)
    ensures f.ocf == if f.header.ocfPresent then Some(raw[end..bodyEnd]) else None
  {
    hide DecodeHeader, SecondaryLength;
    start := PRIMARY_HEADER_LEN + (if DecodeHeader(raw[..PRIMARY_HEADER_LEN]).secondaryHeader
        then SecondaryLength(raw[PRIMARY_HEADER_LEN]) else 0);
    end := bodyEnd - (if f.header.ocfPresent then OCF_LEN else 0);
  }

  lemma ParsedIsLaidOut(raw: Octets, f: Frame, bodyEnd: nat) returns (secondary: Octets)
    requires PRIMARY_HEADER_LEN <= bodyEnd <= |raw|
    requires ParseBody(raw, DecodeHeader(raw[..PRIMARY_HEADER_LEN]), bodyEnd) == Ok(f)
    ensures IsLaidOut(raw, f, raw[..PRIMARY_HEADER_LEN], secondary, raw[bodyEnd..])
  {
    hide DecodeHeader, SecondaryLength, ParseBody;
    var head := raw[..PRIMARY_HEADER_LEN];
    assert head[..PRIMARY_HEADER_LEN] == head;
    var start, end := ParsedOffsets(raw, f, bodyEnd);
    secondary := raw[PRIMARY_HEADER_LEN..start];
    if f.header.secondaryHeader {
      SecondaryLengthIs(raw[PRIMARY_HEADER_LEN]);
    }
    assert raw == head + secondary + f.data + (if f.ocf.Some? then f.ocf.value else []) + raw[bodyEnd..];
  }

  lemma SecondaryLengthIs(id: bv8)
    ensures SecondaryLength(id) == id as nat % 64 + 1
  {
  }

  // The checksum test, as a statement about the whole frame.
  lemma FecfTest(raw: Octets)
    requires |raw| >= FECF_LEN
    ensures var n := |raw| - FECF_LEN;
            Crc.Crc16(raw[..n]) == Crc.WordOf(raw[n], raw[n + 1]) <==> Crc.Crc16(raw) == 0
  {
    hide Crc.Crc16, Crc.WordOf;
    var n := |raw| - FECF_LEN;
    assert raw == raw[..n] + [raw[n], raw[n + 1]];
    Crc.ResidueIsZero(raw[..n], raw[n], raw[n + 1]);
  }

  /** `parse_tm_frame` accepts exactly the well-formed frames, and returns their parts. */
  lemma ParseAcceptsExactly(raw: Octets, hasFecf: bool, f: Frame)
    ensures ParseFrame(raw, hasFecf) == Ok(f) <==> IsTmFrame(raw, hasFecf, f)
  {
    hide ParseBody, IsLaidOut, Crc.Crc16, Crc.WordOf, DecodeHeader;
    if |raw| >= FECF_LEN {
      FecfTest(raw);
    }
    if ParseFrame(raw, hasFecf) == Ok(f) {
      var bodyEnd := |raw| - TrailerLength(hasFecf);
      var secondary := ParsedIsLaidOut(raw, f, bodyEnd);
    }
    if IsTmFrame(raw, hasFecf, f) {
      var head, secondary, tail :| IsLaidOut(raw, f, head, secondary, tail) && |tail| == TrailerLength(hasFecf)
                                   && (hasFecf ==> Crc.Crc16(raw) == 0);
      LaidOutParses(raw, f, head, secondary, tail);
    }
  }

  /** An error confined to two neighbouring octets, anywhere in a frame, is always caught. */
  lemma BurstIsRejected(sent: Octets, received: Octets, i: nat)
    requires ParseFrame(sent, true).Ok?
    requires |received| == |sent| && i < |sent| && received != sent
    requires forall k :: 0 <= k < |sent| && k != i && k != i + 1 ==> received[k] == sent[k]
    ensures ParseFrame(received, true).Err? && ParseFrame(received, true).error.FecfMismatch?
  {
    hide ParseBody, Crc.Crc16, Crc.WordOf, DecodeHeader;
    FecfTest(sent);
    FecfTest(received);
    Crc.BurstChangesCrc(sent, received, i);
  }

  // ---------------------------------------------------------------------------------------
  // Putting a frame together
  // ---------------------------------------------------------------------------------------

  /** A frame from its parts, as both the gateway's builder and the fixture generator lay it out. */
  function Assemble(h: Header, secondary: Octets, data: Octets, ocf: Octets, fecf: bool): (raw: Octets)
    requires h.vcid < 8 && h.firstHeaderPointer < 0x800
    ensures |raw| == PRIMARY_HEADER_LEN + |secondary| + |data| + |ocf| + TrailerLength(fecf)
  {
    var body := HeaderOctets(h) + secondary + data + ocf;
    if fecf then body + Crc.WordOctets(Crc.Crc16(body)) else body
  }

  lemma AssembledChecksOut(body: Octets)
    ensures Crc.Crc16(body + Crc.WordOctets(Crc.Crc16(body))) == 0
  {
    var own := Crc.WordOctets(Crc.Crc16(body));
    Crc.WordOctetsRoundTrip(Crc.Crc16(body));
    Crc.ResidueIsZero(body, own[0], own[1]);
    assert own == [own[0], own[1]];
  }

  /** Parsing an assembled frame returns the parts it was assembled from. */
  lemma ParseAssembled(f: Frame, secondary: Octets, fecf: bool)
    requires f.header.Encodable() && f.header.version == 0 && !f.header.syncFlag
    requires if f.header.secondaryHeader then secondary != [] && |secondary| == secondary[0] as nat % 64 + 1
        else secondary == []
    requires f.data != []
    requires (f.ocf.Some? <==> f.header.ocfPresent) && (f.ocf.Some? ==> |f.ocf.value| == 4)
    ensures var ocf := if f.ocf.Some? then f.ocf.value else [];
            ParseFrame(Assemble(f.header, secondary, f.data, ocf, fecf), fecf) == Ok(f)
  {
    hide ParseFrame, ParseHeader, HeaderOctets, Crc.Crc16, Crc.WordOctets, SecondaryLength;
    var ocf := if f.ocf.Some? then f.ocf.value else [];
    var head := HeaderOctets(f.header);
    var body := head + secondary + f.data + ocf;
    var tail := if fecf then Crc.WordOctets(Crc.Crc16(body)) else [];
    var raw := Assemble(f.header, secondary, f.data, ocf, fecf);
    HeaderRoundTrip(f.header);
    assert raw == body + tail;
    assert IsLaidOut(raw, f, head, secondary, tail);
    AssembledChecksOut(body);
    ParseAcceptsExactly(raw, fecf, f);
  }

  /**
   A secondary header of any length from 1 to 64 octets, its length less one in its first octet, is cut
   off exactly: the data field comes back whole.
   */
  lemma SecondaryHeaderIsCutOff(f: Frame, n: nat, rest: Octets, fecf: bool)
    requires f.header.Encodable() && f.header.version == 0 && !f.header.syncFlag && f.header.secondaryHeader
    requires 1 <= n <= 64 && |rest| == n - 1
    requires f.data != []
    requires (f.ocf.Some? <==> f.header.ocfPresent) && (f.ocf.Some? ==> |f.ocf.value| == 4)
    ensures var ocf := if f.ocf.Some? then f.ocf.value else [];
            ParseFrame(Assemble(f.header, [(n - 1) as bv8] + rest, f.data, ocf, fecf), fecf) == Ok(f)
  {
    hide ParseFrame, Assemble;
    OctetRoundTrip(n - 1);
    ParseAssembled(f, [(n - 1) as bv8] + rest, fecf);
  }
}
