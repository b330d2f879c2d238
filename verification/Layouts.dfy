/**
 Where the fields of frame and packet headers lie: each as a number worked out from the octets, with
 the fixed values of sections 4.1 of CCSDS 132.0-B-3 and 4.1 of CCSDS 133.0-B-2.
 */
module Layouts {
  import opened BitStrings
  import opened Octets
  import Crc
  import SpacePackets
  import TmFrame

  // ---------------------------------------------------------------------------------------
  // Masks and shifts as arithmetic
  // ---------------------------------------------------------------------------------------

  lemma Quotient(n: nat, d: nat, q: nat, r: nat)
    requires n == q * d + r && r < d
    ensures n / d == q && n % d == r
  {
    var p := n / d;
    assert n == p * d + n % d;
    if p < q {
      Regrouped(p, q, d);
    } else if q < p {
      Regrouped(q, p, d);
    }
  }

  lemma Regrouped(p: nat, q: nat, d: nat)
    requires p < q
    ensures p * d + d <= q * d
  {
    var e: nat := q - p - 1;
    assert q * d == p * d + d + e * d;
  }

  lemma TopTwo(b: bv8)
    ensures ((b >> 6) & 0x03) as nat == b as nat / 64
  {
  }

  lemma TopThree(b: bv8)
    ensures (b >> 5) as nat == b as nat / 32
  {
  }

  lemma LowSix(b: bv8)
    ensures (b & 0x3F) as nat == b as nat % 64
  {
  }

  lemma LowThree(b: bv8)
    ensures (b & 0x07) as nat == b as nat % 8
  {
  }

  lemma Halves(b: bv8)
    ensures b as nat == (b >> 1) as nat * 2 + (b & 1) as nat && (b & 1) as nat < 2
  {
  }

  lemma Eighths(b: bv8)
    ensures b as nat == (b >> 3) as nat * 8 + (b & 7) as nat && (b & 7) as nat < 8
  {
  }

  lemma Sixteenths(b: bv8)
    ensures b as nat == (b >> 4) as nat * 16 + (b & 15) as nat && (b & 15) as nat < 16
  {
  }

  lemma MiddleThree(b: bv8)
    ensures ((b >> 1) & 0x07) as nat == b as nat / 2 % 8
  {
    var x := b >> 1;
    Halves(b);
    Quotient(b as nat, 2, x as nat, (b & 1) as nat);
    Eighths(x);
    Quotient(x as nat, 8, (x >> 3) as nat, (x & 7) as nat);
  }

  lemma UpperFour(b: bv8)
    ensures (b >> 4) as nat == b as nat / 16 && (b >> 4) as nat < 16
  {
    Sixteenths(b);
    Quotient(b as nat, 16, (b >> 4) as nat, (b & 15) as nat);
  }

  lemma Flags(b: bv8)
    ensures b & 0x80 != 0 <==> b as nat / 128 == 1
    ensures b & 0x40 != 0 <==> b as nat / 64 % 2 == 1
    ensures b & 0x01 != 0 <==> b as nat % 2 == 1
  {
    FlagEighth(b);
    FlagSeventh(b);
    FlagFirst(b);
  }

  lemma FlagEighth(b: bv8)
    ensures b & 0x80 != 0 <==> b as nat / 128 == 1
  {
  }

  lemma FlagSeventh(b: bv8)
    ensures b & 0x40 != 0 <==> b as nat / 64 % 2 == 1
  {
  }

  lemma FlagFirst(b: bv8)
    ensures b & 0x01 != 0 <==> b as nat % 2 == 1
  {
  }

  lemma FlagFifth(b: bv8)
    ensures b & 0x10 != 0 <==> b as nat / 16 % 2 == 1
  {
  }

  lemma FlagFourth(b: bv8)
    ensures b & 0x08 != 0 <==> b as nat / 8 % 2 == 1
  {
  }

  lemma SplitWord11(w: bv16)
    ensures w as nat == (w >> 11) as nat * 2048 + (w & 0x7FF) as nat && (w & 0x7FF) as nat < 2048
  {
  }

  lemma SplitWord14(w: bv16)
    ensures w as nat == (w >> 14) as nat * 16384 + (w & 0x3FFF) as nat && (w & 0x3FFF) as nat < 16384
  {
  }

  lemma SplitWord10(w: bv16)
    ensures w as nat == (w >> 10) as nat * 1024 + (w & 0x3FF) as nat && (w & 0x3FF) as nat < 1024
  {
  }

  lemma LowTen(w: bv16)
    ensures (w & 0x3FF) as nat == w as nat % 1024
  {
    SplitWord10(w);
    Quotient(w as nat, 1024, (w >> 10) as nat, (w & 0x3FF) as nat);
  }

  lemma LowEleven(w: bv16)
    ensures (w & 0x7FF) as nat == w as nat % 2048
  {
    SplitWord11(w);
    Quotient(w as nat, 2048, (w >> 11) as nat, (w & 0x7FF) as nat);
  }

  lemma LowFourteen(w: bv16)
    ensures (w & 0x3FFF) as nat == w as nat % 16384
  {
    SplitWord14(w);
    Quotient(w as nat, 16384, (w >> 14) as nat, (w & 0x3FFF) as nat);
  }

  lemma WordIs(a: bv8, b: bv8)
    ensures Crc.WordOf(a, b) as nat == a as nat * 256 + b as nat
  {
    WordIsJoined(a, b);
    hide Crc.WordOf;
    JoinedOctets(a, b);
  }

  lemma WordIsJoined(a: bv8, b: bv8)
    ensures Crc.WordOf(a, b) == ((a as bv16) << 8) | (b as bv16)
  {
  }

  lemma RemainderOfTwo(x: nat, y: nat, d: nat)
    requires x < 256 && y < 256 && d > 0
    ensures (x * 256 + y) % (d * 256) == x % d * 256 + y
  {
    var q := x / d;
    assert x == q * d + x % d;
    assert x * 256 + y == q * (d * 256) + (x % d * 256 + y);
    Quotient(x * 256 + y, d * 256, q, x % d * 256 + y);
  }

  /** The two octets of a word. */
  lemma WordOctetsAre(w: bv16)
    ensures var o := Crc.WordOctets(w); o[0] as nat == w as nat / 256 && o[1] as nat == w as nat % 256
  {
    hide Crc.WordOctets, Crc.WordOf;
    var o := Crc.WordOctets(w);
    Crc.WordOctetsRoundTrip(w);
    WordIs(o[0], o[1]);
    Quotient(w as nat, 256, o[0] as nat, o[1] as nat);
  }

  // ---------------------------------------------------------------------------------------
  // The frame header
  // ---------------------------------------------------------------------------------------

  lemma SpacecraftBits(a: bv8, b: bv8)
    ensures TmFrame.SpacecraftOf(a, b) == (((a & 0x3F) as bv16) << 4) | ((b >> 4) as bv16)
  {
  }

  lemma SixAndFour(x: bv8, y: bv8)
    requires x as nat < 64 && y as nat < 16
    ensures (((x as bv16) << 4) | (y as bv16)) as nat == x as nat * 16 + y as nat
  {
  }

  lemma SpacecraftIs(a: bv8, b: bv8)
    ensures TmFrame.SpacecraftOf(a, b) as nat == a as nat % 64 * 16 + b as nat / 16
  {
    hide TmFrame.SpacecraftOf;
    SpacecraftBits(a, b);
    LowSix(a);
    UpperFour(b);
    SixAndFour(a & 0x3F, b >> 4);
  }

  /** Every field of a frame's primary header, as a number. */
  lemma FrameHeaderFields(h: Octets)
    requires |h| == 6
    ensures var f := TmFrame.DecodeHeader(h);
            && f.version as nat == h[0] as nat / 64
            && f.spacecraftId as nat == h[0] as nat % 64 * 16 + h[1] as nat / 16
            && f.vcid == h[1] as nat / 2 % 8
            && (f.ocfPresent <==> h[1] as nat % 2 == 1)
            && f.mcCount == h[2] && f.vcCount == h[3]
            && (f.secondaryHeader <==> h[4] as nat / 128 == 1)
            && (f.syncFlag <==> h[4] as nat / 64 % 2 == 1)
            && f.firstHeaderPointer == h[4] as nat % 8 * 256 + h[5] as nat
  {
    hide TmFrame.SpacecraftOf;
    TopTwo(h[0]);
    SpacecraftIs(h[0], h[1]);
    MiddleThree(h[1]);
    Flags(h[1]);
    Flags(h[4]);
    LowThree(h[4]);
  }

  lemma StatusBits(secondaryHeader: bool, syncFlag: bool, pointer: nat, o: bv8)
    requires o == TmFrame.StatusOctet(secondaryHeader, syncFlag, pointer)
    ensures o & 0x20 == 0 && o & 0x10 != 0 && o & 0x08 != 0
  {
    hide BigEndian16;
  }

  /** A header that is written: its fields, the packet order flag 0 and the segment length identifier 3. */
  lemma FrameHeaderOctets(h: TmFrame.Header)
    requires h.Encodable()
    ensures var o := TmFrame.HeaderOctets(h);
            && |o| == 6 && TmFrame.DecodeHeader(o) == h
            && o[4] & 0x20 == 0 && o[4] & 0x10 != 0 && o[4] & 0x08 != 0
  {
    hide TmFrame.DecodeHeader, TmFrame.StatusOctet, BigEndian16, TmFrame.IdWord, Crc.WordOctets;
    TmFrame.HeaderRoundTrip(h);
    var o := TmFrame.HeaderOctets(h);
    assert o[..6] == o;
    StatusBits(h.secondaryHeader, h.syncFlag, h.firstHeaderPointer, o[4]);
  }

  /** What parsing a frame gives, the first problem found or the data field, octet by octet. */
  lemma FrameIs(raw: Octets, hasFecf: bool)
    ensures var r := TmFrame.ParseFrame(raw, hasFecf);
            var bodyEnd := if hasFecf then |raw| - 2 else |raw|;
            if bodyEnd < 6 then r == Err(TmFrame.TooShort(|raw|))
            else if hasFecf
                 && Crc.Crc16(raw[..bodyEnd]) as nat != raw[bodyEnd] as nat * 256 + raw[bodyEnd + 1] as nat then
              && r.Err? && r.error.FecfMismatch? && r.error.computed == Crc.Crc16(raw[..bodyEnd])
              && r.error.received as nat == raw[bodyEnd] as nat * 256 + raw[bodyEnd + 1] as nat
            else if raw[0] as nat / 64 != 0 then
              r.Err? && r.error.NotTm? && r.error.version as nat == raw[0] as nat / 64
            else if raw[4] as nat / 64 % 2 == 1 then r == Err(TmFrame.NotPacketData)
            else
              var end := if raw[1] as nat % 2 == 1 then bodyEnd - 4 else bodyEnd;
              if end < 6 || (raw[4] as nat / 128 == 1 && |raw| == 6) then r == Err(TmFrame.TooShort(|raw|))
              else
                var total := if raw[4] as nat / 128 == 1 then raw[6] as nat % 64 + 1 else 0;
                if total > 0 && 6 + total > end then r == Err(TmFrame.BadSecondaryHeader(total))
                else if 6 + total >= end then r == Err(TmFrame.TooShort(|raw|))
                else
                  && r.Ok? && r.value.data == raw[6 + total..end]
                  && r.value.header == TmFrame.DecodeHeader(raw[..6])
                  && r.value.ocf == if raw[1] as nat % 2 == 1 then Some(raw[end..bodyEnd]) else None
  {
    hide *;
    var bodyEnd := if hasFecf then |raw| - 2 else |raw|;
    FrameParses(raw, hasFecf);
    if bodyEnd >= 6 {
      BodyIs(raw, bodyEnd);
      if hasFecf {
        var word := Crc.WordOf(raw[bodyEnd], raw[bodyEnd + 1]);
        WordIs(raw[bodyEnd], raw[bodyEnd + 1]);
        SameNumber(Crc.Crc16(raw[..bodyEnd]), word);
      }
    }
  }

  // The two halves of parsing: the checksum, then the rest.
  lemma FrameParses(raw: Octets, hasFecf: bool)
    ensures var r := TmFrame.ParseFrame(raw, hasFecf);
            var bodyEnd := if hasFecf then |raw| - 2 else |raw|;
            if bodyEnd < 6 then r == Err(TmFrame.TooShort(|raw|))
            else if hasFecf && Crc.Crc16(raw[..bodyEnd]) != Crc.WordOf(raw[bodyEnd], raw[bodyEnd + 1]) then
              r == Err(TmFrame.FecfMismatch(Crc.Crc16(raw[..bodyEnd]), Crc.WordOf(raw[bodyEnd], raw[bodyEnd + 1])))
            else r == TmFrame.ParseBody(raw, TmFrame.DecodeHeader(raw[..6]), bodyEnd)
  {
    hide Crc.Crc16, Crc.WordOf, TmFrame.ParseBody, TmFrame.DecodeHeader;
  }

  lemma BodyIs(raw: Octets, bodyEnd: nat)
    requires 6 <= bodyEnd <= |raw|
    ensures var r := TmFrame.ParseBody(raw, TmFrame.DecodeHeader(raw[..6]), bodyEnd);
            if raw[0] as nat / 64 != 0 then
              r.Err? && r.error.NotTm? && r.error.version as nat == raw[0] as nat / 64
            else if raw[4] as nat / 64 % 2 == 1 then r == Err(TmFrame.NotPacketData)
            else
              var end := if raw[1] as nat % 2 == 1 then bodyEnd - 4 else bodyEnd;
              if end < 6 || (raw[4] as nat / 128 == 1 && |raw| == 6) then r == Err(TmFrame.TooShort(|raw|))
              else
                var total := if raw[4] as nat / 128 == 1 then raw[6] as nat % 64 + 1 else 0;
                if total > 0 && 6 + total > end then r == Err(TmFrame.BadSecondaryHeader(total))
                else if 6 + total >= end then r == Err(TmFrame.TooShort(|raw|))
                else
                  && r.Ok? && r.value.data == raw[6 + total..end]
                  && r.value.header == TmFrame.DecodeHeader(raw[..6])
                  && r.value.ocf == if raw[1] as nat % 2 == 1 then Some(raw[end..bodyEnd]) else None
  {
    hide TmFrame.DecodeHeader, TmFrame.ParseBody, TmFrame.SecondaryLength;
    FrameHeaderFields(raw[..6]);
    BodyParses(raw, TmFrame.DecodeHeader(raw[..6]), bodyEnd);
    ZeroVersion(TmFrame.DecodeHeader(raw[..6]).version);
    if |raw| > 6 {
      TmFrame.SecondaryLengthIs(raw[6]);
    }
  }

  // The same by the names of the fields.
  lemma BodyParses(raw: Octets, h: TmFrame.Header, bodyEnd: nat)
    requires 6 <= bodyEnd <= |raw|
    ensures var r := TmFrame.ParseBody(raw, h, bodyEnd);
            if h.version != 0 then r == Err(TmFrame.NotTm(h.version))
            else if h.syncFlag then r == Err(TmFrame.NotPacketData)
            else
              var end := if h.ocfPresent then bodyEnd - 4 else bodyEnd;
              if end < 6 || (h.secondaryHeader && |raw| == 6) then r == Err(TmFrame.TooShort(|raw|))
              else
                var total := if h.secondaryHeader then TmFrame.SecondaryLength(raw[6]) else 0;
                if h.secondaryHeader && 6 + total > end then r == Err(TmFrame.BadSecondaryHeader(total))
                else if 6 + total >= end then r == Err(TmFrame.TooShort(|raw|))
                else r == Ok(TmFrame.Frame(h, raw[6 + total..end],
                                           if h.ocfPresent then Some(raw[end..bodyEnd]) else None))
  {
    hide TmFrame.SecondaryLength;
  }

  lemma ZeroVersion(version: bv8)
    ensures version == 0 <==> version as nat == 0
  {
  }

  lemma SameNumber(a: bv16, b: bv16)
    ensures a == b <==> a as nat == b as nat
  {
    hide Crc.WordOctets, Crc.WordOf;
    WordOctetsAre(a);
    WordOctetsAre(b);
    Crc.WordOctetsRoundTrip(a);
    Crc.WordOctetsRoundTrip(b);
    var p, q := Crc.WordOctets(a), Crc.WordOctets(b);
    if a as nat == b as nat {
      OctetIdentity(p[0], q[0]);
      OctetIdentity(p[1], q[1]);
    }
  }

  // ---------------------------------------------------------------------------------------
  // The packet header
  // ---------------------------------------------------------------------------------------

  lemma ApidMask(a: bv8, b: bv8)
    ensures SpacePackets.ApidOf(a, b) == Crc.WordOf(a, b) & 0x07FF
  {
    hide Crc.WordOf;
  }

  lemma ApidIs(a: bv8, b: bv8)
    ensures SpacePackets.ApidOf(a, b) as nat == a as nat % 8 * 256 + b as nat
  {
    hide Crc.WordOf, SpacePackets.ApidOf;
    ApidMask(a, b);
    WordIs(a, b);
    LowEleven(Crc.WordOf(a, b));
    RemainderOfTwo(a as nat, b as nat, 8);
  }

  lemma SeqCountMask(a: bv8, b: bv8)
    ensures SpacePackets.SeqCountOf(a, b) == Crc.WordOf(a, b) & 0x3FFF
  {
    hide Crc.WordOf;
  }

  lemma SeqCountIs(a: bv8, b: bv8)
    ensures SpacePackets.SeqCountOf(a, b) as nat == a as nat % 64 * 256 + b as nat
  {
    hide Crc.WordOf, SpacePackets.SeqCountOf;
    SeqCountMask(a, b);
    WordIs(a, b);
    LowFourteen(Crc.WordOf(a, b));
    RemainderOfTwo(a as nat, b as nat, 64);
  }

  /** Every field of a packet's primary header, as a number. */
  lemma PacketHeaderFields(p: Octets)
    requires |p| >= 6
    ensures SpacePackets.VersionOf(p[0]) as nat == p[0] as nat / 32
    ensures SpacePackets.IsTelecommand(p[0]) <==> p[0] as nat / 16 % 2 == 1
    ensures SpacePackets.HasSecondaryHeader(p[0]) <==> p[0] as nat / 8 % 2 == 1
    ensures SpacePackets.ApidOf(p[0], p[1]) as nat == p[0] as nat % 8 * 256 + p[1] as nat
    ensures SpacePackets.IsIdle(p) <==> p[0] as nat % 8 * 256 + p[1] as nat == 2047
    ensures SpacePackets.SeqCountOf(p[2], p[3]) as nat == p[2] as nat % 64 * 256 + p[3] as nat
    ensures SpacePackets.DeclaredLength(p) == 7 + p[4] as nat * 256 + p[5] as nat
    ensures SpacePackets.WellFormed(p) <==> p[0] as nat / 32 == 0 && |p| == 7 + p[4] as nat * 256 + p[5] as nat
  {
    hide SpacePackets.ApidOf, SpacePackets.SeqCountOf;
    TopThree(p[0]);
    ZeroVersion(p[0] >> 5);
    FlagFifth(p[0]);
    FlagFourth(p[0]);
    ApidIs(p[0], p[1]);
    SeqCountIs(p[2], p[3]);
    IdleNumber(SpacePackets.ApidOf(p[0], p[1]));
  }

  lemma IdleNumber(apid: bv16)
    ensures apid == SpacePackets.IDLE_APID <==> apid as nat == 2047
  {
  }

  /** What parsing a packet gives, octet by octet. */
  lemma TelemetryIs(p: Octets)
    ensures var r := SpacePackets.ParseTelemetry(p);
            if |p| < 6 then r == Err(SpacePackets.CcsdsError.TooShort(|p|))
            else
              var n := 7 + p[4] as nat * 256 + p[5] as nat;
              if |p| < n then r == Err(SpacePackets.Truncated(n, |p|))
              else if p[0] as nat / 16 % 2 == 1 then
                r.Err? && r.error.NotTelemetry? && r.error.apid as nat == p[0] as nat % 8 * 256 + p[1] as nat
              else
                && r.Ok? && r.value.payload == p[6..n]
                && r.value.apid as nat == p[0] as nat % 8 * 256 + p[1] as nat
                && r.value.seqCount as nat == p[2] as nat % 64 * 256 + p[3] as nat
                && (r.value.hasSecondaryHeader <==> p[0] as nat / 8 % 2 == 1)
  {
    hide *;
    TelemetryParses(p);
    if |p| >= 6 {
      PacketHeaderFields(p);
    }
  }

  // The same by the names of the fields.
  lemma TelemetryParses(p: Octets)
    ensures var r := SpacePackets.ParseTelemetry(p);
            if |p| < 6 then r == Err(SpacePackets.CcsdsError.TooShort(|p|))
            else
              var n := SpacePackets.DeclaredLength(p);
              if |p| < n then r == Err(SpacePackets.Truncated(n, |p|))
              else if SpacePackets.IsTelecommand(p[0]) then
                r == Err(SpacePackets.NotTelemetry(SpacePackets.ApidOf(p[0], p[1])))
              else
                && r.Ok? && r.value.payload == p[6..n]
                && r.value.apid == SpacePackets.ApidOf(p[0], p[1])
                && r.value.seqCount == SpacePackets.SeqCountOf(p[2], p[3])
                && r.value.hasSecondaryHeader == SpacePackets.HasSecondaryHeader(p[0])
  {
    hide SpacePackets.ApidOf, SpacePackets.SeqCountOf, SpacePackets.IsTelecommand, SpacePackets.HasSecondaryHeader,
         SpacePackets.DeclaredLength;
  }

  lemma FirstWordJoined(apid: bv16, secondaryHeader: bool)
    ensures var x := apid & 0x07FF;
            && x & 0xF800 == 0
            && SpacePackets.FirstWord(apid, secondaryHeader) == if secondaryHeader then 0x0800 | x else x
  {
  }

  lemma FirstWordIs(apid: bv16, secondaryHeader: bool)
    ensures SpacePackets.FirstWord(apid, secondaryHeader) as nat
         == (if secondaryHeader then 2048 else 0) + apid as nat % 2048
  {
    hide SpacePackets.FirstWord;
    FirstWordJoined(apid, secondaryHeader);
    LowEleven(apid);
    Joined11(apid & 0x07FF);
  }

  lemma Joined11(x: bv16)
    requires x & 0xF800 == 0
    ensures (0x0800 | x) as nat == 2048 + x as nat
  {
  }

  lemma SecondWordJoined(seqCount: bv16)
    ensures var x := seqCount & 0x3FFF;
            x & 0xC000 == 0 && SpacePackets.SecondWord(seqCount) == 0xC000 | x
  {
  }

  lemma SecondWordIs(seqCount: bv16)
    ensures SpacePackets.SecondWord(seqCount) as nat == 49152 + seqCount as nat % 16384
  {
    hide SpacePackets.SecondWord;
    SecondWordJoined(seqCount);
    LowFourteen(seqCount);
    Joined14(seqCount & 0x3FFF);
  }

  lemma Joined14(x: bv16)
    requires x & 0xC000 == 0
    ensures (0xC000 | x) as nat == 49152 + x as nat
  {
  }

  /** An encoded packet, octet by octet: version 0, type 0, unsegmented. */
  lemma EncodedIs(apid: bv16, seqCount: bv16, secondaryHeader: bool, payload: Octets)
    requires payload != []
    ensures var p := SpacePackets.EncodeTm(apid, seqCount, secondaryHeader, payload);
            && p[0] as nat * 256 + p[1] as nat == (if secondaryHeader then 2048 else 0) + apid as nat % 2048
            && p[2] as nat * 256 + p[3] as nat == 49152 + seqCount as nat % 16384
            && p[4] as nat * 256 + p[5] as nat == (|payload| - 1) % 65536
            && p[6..] == payload
  {
    hide Crc.WordOctets, SpacePackets.FirstWord, SpacePackets.SecondWord, BigEndian16;
    var p := SpacePackets.EncodeTm(apid, seqCount, secondaryHeader, payload);
    FirstWordIs(apid, secondaryHeader);
    SecondWordIs(seqCount);
    var w1, w2 := SpacePackets.FirstWord(apid, secondaryHeader), SpacePackets.SecondWord(seqCount);
    WordOctetsAre(w1);
    WordOctetsAre(w2);
    SpacePackets.TruncatedLength(|payload| - 1);
    assert p[0] == Crc.WordOctets(w1)[0] && p[1] == Crc.WordOctets(w1)[1];
    assert p[2] == Crc.WordOctets(w2)[0] && p[3] == Crc.WordOctets(w2)[1];
    assert p[4] == BigEndian16(|payload| - 1)[0] && p[5] == BigEndian16(|payload| - 1)[1];
  }

  /** An idle packet, octet by octet. */
  lemma IdlePacketOctets(len: nat)
    ensures var p := SpacePackets.IdlePacket(len);
            && |p| == (if len > 6 then len else 7)
            && p[0] == 0x07 && p[1] == 0xFF && p[2] == 0xC0 && p[3] == 0x00
            && p[4] as nat * 256 + p[5] as nat == (|p| - 7) % 65536
            && forall i :: 6 <= i < |p| ==> p[i] == 0x55
  {
    hide BigEndian16;
    SpacePackets.TruncatedLength(|SpacePackets.IdlePacket(len)| - 7);
  }
}
