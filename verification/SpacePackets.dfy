/**
 CCSDS Space Packets (section 4.1 of CCSDS 133.0-B-2): the primary header fields the gateway
 reads, idle packets, and the telemetry parser and encoder at the two ends of the frame layer.
 */
module SpacePackets {
  import opened Octets
  import Crc

  const PACKET_HEADER_LEN := 6
  const PACKET_MAX_LEN := 65_542
  const IDLE_APID: bv16 := 0x7FF

  function VersionOf(first: bv8): bv8 {
    first >> 5
  }

  function ApidOf(a: bv8, b: bv8): bv16 {
    Crc.WordOf(a, b) & 0x07FF
  }

  /** Length of the packet that starts `p`, as its header declares it. */
  function DeclaredLength(p: Octets): (n: nat)
    requires |p| >= PACKET_HEADER_LEN
    ensures PACKET_HEADER_LEN < n <= PACKET_MAX_LEN
  {
    PACKET_HEADER_LEN + 1 + U16(p[4], p[5])
  }

  predicate HasVersion0(p: Octets)
    requires |p| >= PACKET_HEADER_LEN
  {
    VersionOf(p[0]) == 0
  }

  predicate IsIdle(p: Octets)
    requires |p| >= PACKET_HEADER_LEN
  {
    ApidOf(p[0], p[1]) == IDLE_APID
  }

  /** A packet of version 0 that is as long as it says. */
  predicate WellFormed(p: Octets) {
    |p| >= PACKET_HEADER_LEN && HasVersion0(p) && |p| == DeclaredLength(p)
  }

  // The header fields depend on the first six octets only.
  lemma SameHeader(p: Octets, q: Octets)
    requires |p| >= PACKET_HEADER_LEN && |q| >= PACKET_HEADER_LEN
    requires p[..PACKET_HEADER_LEN] == q[..PACKET_HEADER_LEN]
    ensures DeclaredLength(p) == DeclaredLength(q)
    ensures HasVersion0(p) <==> HasVersion0(q)
    ensures IsIdle(p) <==> IsIdle(q)
  {
    hide VersionOf, ApidOf, U16;
    assert p[0] == p[..PACKET_HEADER_LEN][0] && q[0] == q[..PACKET_HEADER_LEN][0];
    assert p[1] == p[..PACKET_HEADER_LEN][1] && q[1] == q[..PACKET_HEADER_LEN][1];
    assert p[4] == p[..PACKET_HEADER_LEN][4] && q[4] == q[..PACKET_HEADER_LEN][4];
    assert p[5] == p[..PACKET_HEADER_LEN][5] && q[5] == q[..PACKET_HEADER_LEN][5];
  }

  // ---------------------------------------------------------------------------------------
  // Idle packets
  // ---------------------------------------------------------------------------------------

  /** `idle_packet`: the length is raised to the smallest a packet can have. */
  function IdlePacket(len: nat): Octets {
    var n := if len > PACKET_HEADER_LEN then len else PACKET_HEADER_LEN + 1;
    [0x07, 0xFF, 0xC0, 0x00] + BigEndian16(n - PACKET_HEADER_LEN - 1) + seq(n - PACKET_HEADER_LEN, i => 0x55)
  }

  /**
   An idle packet has the length asked for, is recognised as filler, and is well formed exactly when
   that length is one a packet can have.
   */
  lemma IdlePacketIsIdle(len: nat)
    ensures var p := IdlePacket(len);
            && |p| == (if len > PACKET_HEADER_LEN then len else PACKET_HEADER_LEN + 1)
            && IsIdle(p) && (WellFormed(p) <==> len <= PACKET_MAX_LEN)
  {
    hide U16, BigEndian16, VersionOf, ApidOf, Crc.WordOf;
    var p := IdlePacket(len);
    TruncatedLength(|p| - PACKET_HEADER_LEN - 1);
    IdleHeader();
  }

  lemma IdleHeader()
    ensures VersionOf(0x07) == 0 && ApidOf(0x07, 0xFF) == IDLE_APID
  {
  }

  // ---------------------------------------------------------------------------------------
  // The telemetry parser
  // ---------------------------------------------------------------------------------------

  datatype CcsdsError = TooShort(len: nat) | Truncated(declared: nat, available: nat) | NotTelemetry(apid: bv16)

  datatype Telemetry = Telemetry(apid: bv16, seqCount: bv16, hasSecondaryHeader: bool, payload: Octets)

  function SeqCountOf(a: bv8, b: bv8): bv16 {
    Crc.WordOf(a, b) & 0x3FFF
  }

  predicate IsTelecommand(first: bv8) {
    first & 0x10 != 0
  }

  predicate HasSecondaryHeader(first: bv8) {
    first & 0x08 != 0
  }

  /** `parse_telemetry`, on the octets of one datagram or extracted packet. */
  function ParseTelemetry(raw: Octets): Result<Telemetry, CcsdsError> {
    if |raw| < PACKET_HEADER_LEN then Err(TooShort(|raw|))
    else if |raw| < DeclaredLength(raw) then Err(Truncated(DeclaredLength(raw), |raw|))
    else if IsTelecommand(raw[0]) then Err(NotTelemetry(ApidOf(raw[0], raw[1])))
    else Ok(Telemetry(ApidOf(raw[0], raw[1]), SeqCountOf(raw[2], raw[3]), HasSecondaryHeader(raw[0]),
                      raw[PACKET_HEADER_LEN..DeclaredLength(raw)]))
  }

  /** A well-formed packet can only be turned away for being a telecommand, and nothing is cut off. */
  lemma WellFormedParses(p: Octets)
    requires WellFormed(p)
    ensures match ParseTelemetry(p)
            case Ok(t) => !IsTelecommand(p[0]) && t.payload == p[PACKET_HEADER_LEN..] && t.apid == ApidOf(p[0], p[1])
            case Err(e) => IsTelecommand(p[0]) && e == NotTelemetry(ApidOf(p[0], p[1]))
  {
    hide U16, ApidOf, IsTelecommand, HasSecondaryHeader, SeqCountOf, VersionOf;
  }

  // ---------------------------------------------------------------------------------------
  // The telemetry encoder
  // ---------------------------------------------------------------------------------------

  function FirstWord(apid: bv16, secondaryHeader: bool): bv16 {
    ((if secondaryHeader then 1 else 0) << 11) | (apid & 0x07FF)
  }

  function SecondWord(seqCount: bv16): bv16 {
    (3 << 14) | (seqCount & 0x3FFF)
  }

  /** `encode_tm`; the length field holds the low 16 bits of the payload length less one. */
  function EncodeTm(apid: bv16, seqCount: bv16, secondaryHeader: bool, payload: Octets): (p: Octets)
    requires payload != []
    ensures |p| == PACKET_HEADER_LEN + |payload|
  {
    Crc.WordOctets(FirstWord(apid, secondaryHeader)) + Crc.WordOctets(SecondWord(seqCount))
    + BigEndian16(|payload| - 1) + payload
  }

  lemma FirstWordFields(apid: bv16, secondaryHeader: bool, a: bv8, b: bv8)
    requires [a, b] == Crc.WordOctets(FirstWord(apid, secondaryHeader))
    ensures VersionOf(a) == 0 && !IsTelecommand(a)
    ensures HasSecondaryHeader(a) <==> secondaryHeader
    ensures ApidOf(a, b) == apid & 0x07FF
  {
    assert a == [a, b][0] && b == [a, b][1];
  }

  lemma SecondWordFields(seqCount: bv16, a: bv8, b: bv8)
    requires [a, b] == Crc.WordOctets(SecondWord(seqCount))
    ensures SeqCountOf(a, b) == seqCount & 0x3FFF
  {
    assert a == [a, b][0] && b == [a, b][1];
  }

  lemma TruncatedLength(n: nat)
    ensures U16(BigEndian16(n)[0], BigEndian16(n)[1]) == n % 0x1_0000
  {
    hide U16;
    TruncatedDigits(n);
    BigEndian16RoundTrip(n % 0x1_0000);
  }

  lemma TruncatedDigits(n: nat)
    ensures n % 0x1_0000 / 256 % 256 == n / 256 % 256
    ensures n % 0x1_0000 % 256 == n % 256
  {
    var k, q := n % 0x1_0000, n / 0x1_0000;
    assert n / 256 == 256 * q + k / 256;
    assert n % 256 == k % 256;
  }

  /**
   Parsing an encoded packet: all header fields come back in their link widths.  The payload comes
   back whole, and the packet is well formed, exactly when the payload fits the 16-bit length field;
   a longer one loses everything past the truncated length.
   */
  lemma ParseEncoded(apid: bv16, seqCount: bv16, secondaryHeader: bool, payload: Octets)
    requires payload != []
    ensures var p := EncodeTm(apid, seqCount, secondaryHeader, payload);
            var kept := (|payload| - 1) % 0x1_0000 + 1;
            && ParseTelemetry(p) == Ok(Telemetry(apid & 0x07FF, seqCount & 0x3FFF, secondaryHeader, payload[..kept]))
            && (WellFormed(p) <==> |payload| <= 0x1_0000)
            && (IsIdle(p) <==> apid & 0x07FF == IDLE_APID)
  {
    hide U16, BigEndian16, Crc.WordOctets, FirstWord, SecondWord, VersionOf, ApidOf, SeqCountOf, IsTelecommand,
         HasSecondaryHeader;
    var p := EncodeTm(apid, seqCount, secondaryHeader, payload);
    var kept := (|payload| - 1) % 0x1_0000 + 1;
    assert [p[0], p[1]] == Crc.WordOctets(FirstWord(apid, secondaryHeader));
    assert [p[2], p[3]] == Crc.WordOctets(SecondWord(seqCount));
    assert p[4] == BigEndian16(|payload| - 1)[0] && p[5] == BigEndian16(|payload| - 1)[1];
    FirstWordFields(apid, secondaryHeader, p[0], p[1]);
    SecondWordFields(seqCount, p[2], p[3]);
    TruncatedLength(|payload| - 1);
    assert p[PACKET_HEADER_LEN..] == payload;
    assert p[PACKET_HEADER_LEN..PACKET_HEADER_LEN + kept] == payload[..kept];
  }
}
