/**
 What stays true of the deframer over every run on arbitrary input: every octet pushed in marker
 mode is accounted for, nothing it holds can grow without bound, and whatever it emits is a
 well-formed packet the telemetry parser can take.
 */
module Accounting {
  import opened Octets
  import opened Deframing
  import opened MarkerSearch
  import Reassembly
  import SpacePackets
  import TmFrame

  // ---------------------------------------------------------------------------------------
  // Conservation of octets
  // ---------------------------------------------------------------------------------------

  /** Octets the counters account for: skipped, one per failed marker, or a whole CADU of a good frame. */
  function Accounted(s: Stats, len: nat): nat {
    s.bytesDiscarded + s.framesCrcError + s.framesInvalid
    + (4 + len) * (s.framesOk + s.framesOtherSpacecraft + s.framesVcFiltered)
  }

  lemma AcceptAccounts(cfg: Config, c: Core, f: TmFrame.Frame, len: nat)
    requires |c.vcs| == CHANNELS && f.header.vcid < CHANNELS
    ensures Accounted(Accept(cfg, c, f).0.stats, len) == Accounted(c.stats, len) + 4 + len
  {
    hide Reassembly.Receive, IdleCount, Emitted, IsOtherSpacecraft, IsFiltered;
    var s, t := c.stats, Accept(cfg, c, f).0.stats;
    var n := s.framesOk + s.framesOtherSpacecraft + s.framesVcFiltered;
    assert t.framesOk + t.framesOtherSpacecraft + t.framesVcFiltered == n + 1;
    assert (4 + len) * (n + 1) == (4 + len) * n + (4 + len);
  }

  lemma HandleFrameAccounts(cfg: Config, c: Core, raw: Octets, len: nat)
    requires |c.vcs| == CHANNELS
    ensures var h := HandleFrame(cfg, c, raw);
            Accounted(h.core.stats, len) == Accounted(c.stats, len) + if h.ok then 4 + len else 1
  {
    hide Accept, Decode;
    match Decode(cfg, raw)
    case Ok(f) => AcceptAccounts(cfg, c, f, len);
    case Err(_) =>
  }

  lemma {:induction false} ScanAccounts(cfg: Config, len: nat, c: Core, s: Octets)
    requires |c.vcs| == CHANNELS
    ensures var r := Scan(cfg, len, c, s);
            Accounted(r.core.stats, len) + |r.rest| == Accounted(c.stats, len) + |s|
    decreases |s|
  {
    hide HandleFrame, FindAsm, Decode, Accounted;
    match FindAsm(s) {
      case None =>
        DiscardAccounts(c, |s| - KeptWithoutMarker(s), len);
      case Some(at) =>
        var start := at + ASM_LEN;
        DiscardAccounts(c, at, len);
        if |s| >= start + len {
          var h := HandleFrame(cfg, Discard(c, at), s[start..start + len]);
          HandleFrameAccounts(cfg, Discard(c, at), s[start..start + len], len);
          ScanAtFrame(cfg, len, c, s, at);
          ScanAccounts(cfg, len, h.core, s[if h.ok then start + len else at + 1..]);
        }
    }
  }

  lemma DiscardAccounts(c: Core, n: nat, len: nat)
    ensures Accounted(Discard(c, n).stats, len) == Accounted(c.stats, len) + n
  {
  }

  /**
   Conservation: in marker mode, over any run of datagrams, the octets pushed are exactly those
   accounted for by the counters plus those still buffered.
   */
  lemma {:induction false} OctetsAreConserved(cfg: Config, st: State, datagrams: seq<Octets>)
    requires ValidState(st) && cfg.asm && cfg.frameLength.Some?
    ensures var len, r := cfg.frameLength.value, PushAll(cfg, st, datagrams).0;
            Accounted(r.core.stats, len) + |r.stream|
            == Accounted(st.core.stats, len) + |st.stream| + |Flatten(datagrams)|
    decreases |datagrams|
  {
    hide Scan, Accounted;
    var len := cfg.frameLength.value;
    if datagrams != [] {
      var p := Push(cfg, st, datagrams[0]);
      assert Accounted(Bump(st.core).stats, len) == Accounted(st.core.stats, len) by { BumpAccounts(st.core, len); }
      ScanAccounts(cfg, len, Bump(st.core), st.stream + datagrams[0]);
      OctetsAreConserved(cfg, p.0, datagrams[1..]);
    }
  }

  lemma BumpAccounts(c: Core, len: nat)
    ensures Accounted(Bump(c).stats, len) == Accounted(c.stats, len)
  {
  }

  // ---------------------------------------------------------------------------------------
  // Bounded state and sound packets
  // ---------------------------------------------------------------------------------------

  /** Every channel holds less than one packet, and nothing while it is out of sync. */
  predicate GoodCore(c: Core) {
    |c.vcs| == CHANNELS && forall v :: 0 <= v < CHANNELS ==> Reassembly.ValidVc(c.vcs[v])
  }

  /** A packet the rest of the gateway can rely on. */
  predicate Sound(p: Packet) {
    p.vcid < CHANNELS && SpacePackets.WellFormed(p.bytes) && !SpacePackets.IsIdle(p.bytes)
  }

  predicate AllSound(packets: seq<Packet>) {
    forall p :: p in packets ==> Sound(p)
  }

  lemma {:induction false} EmittedAreSound(vcid: nat, spacecraftId: bv16, packets: seq<Octets>)
    requires vcid < CHANNELS && forall q :: q in packets ==> SpacePackets.WellFormed(q)
    ensures AllSound(Emitted(vcid, spacecraftId, packets))
    decreases |packets|
  {
    hide SpacePackets.IsIdle, SpacePackets.HasVersion0, SpacePackets.DeclaredLength;
    if packets != [] {
      assert packets[0] in packets;
      EmittedAreSound(vcid, spacecraftId, packets[1..]);
    }
  }

  lemma HandleFrameKeepsGood(cfg: Config, c: Core, raw: Octets)
    requires GoodCore(c)
    ensures GoodCore(HandleFrame(cfg, c, raw).core) && AllSound(HandleFrame(cfg, c, raw).packets)
  {
    hide Decode, Reassembly.Receive, Reassembly.ValidVc, Tally, Emitted, Sound;
    match Decode(cfg, raw)
    case Ok(f) =>
      var v := f.header.vcid;
      Reassembly.ReceiveKeepsValid(c.vcs[v], PartOf(f));
      EmittedAreSound(v, f.header.spacecraftId, Reassembly.Receive(c.vcs[v], PartOf(f)).packets);
    case Err(_) =>
  }

  lemma {:induction false} ScanKeepsGood(cfg: Config, len: nat, c: Core, s: Octets)
    requires GoodCore(c)
    ensures GoodCore(Scan(cfg, len, c, s).core) && AllSound(Scan(cfg, len, c, s).packets)
    decreases |s|
  {
    hide HandleFrame, FindAsm, Decode, MarkerAt, Sound, Reassembly.ValidVc;
    match FindAsm(s) {
      case None =>
      case Some(at) =>
        var start := at + ASM_LEN;
        if |s| >= start + len {
          var h := HandleFrame(cfg, Discard(c, at), s[start..start + len]);
          HandleFrameKeepsGood(cfg, Discard(c, at), s[start..start + len]);
          ScanAtFrame(cfg, len, c, s, at);
          ScanKeepsGood(cfg, len, h.core, s[if h.ok then start + len else at + 1..]);
        }
    }
  }

  lemma {:induction false} HandleAllKeepsGood(cfg: Config, len: nat, c: Core, s: Octets)
    requires GoodCore(c) && len > 0
    ensures GoodCore(HandleAll(cfg, len, c, s).0) && AllSound(HandleAll(cfg, len, c, s).1)
    decreases |s|
  {
    hide HandleFrame, Decode, Sound, Reassembly.ValidVc;
    if |s| >= len {
      HandleFrameKeepsGood(cfg, c, s[..len]);
      HandleAllKeepsGood(cfg, len, HandleFrame(cfg, c, s[..len]).core, s[len..]);
    }
  }

  /** The marker buffer holds at most one octet less than a CADU. */
  predicate Bounded(cfg: Config, st: State) {
    && GoodCore(st.core)
    && (cfg.asm && cfg.frameLength.Some? ==> Settled(cfg.frameLength.value, st.stream))
    && (!cfg.asm ==> st.stream == [])
  }

  lemma PushKeepsBounds(cfg: Config, st: State, datagram: Octets)
    requires Bounded(cfg, st)
    ensures Bounded(cfg, Push(cfg, st, datagram).0) && AllSound(Push(cfg, st, datagram).1)
  {
    hide HandleFrame, Scan, HandleAll, Sound, Reassembly.ValidVc, Settled, Decode;
    var c := Bump(st.core);
    if cfg.asm {
      if cfg.frameLength.Some? {
        ScanKeepsGood(cfg, cfg.frameLength.value, c, st.stream + datagram);
        ScanSettles(cfg, cfg.frameLength.value, c, st.stream + datagram);
      }
    } else {
      HandleFrameKeepsGood(cfg, c, datagram);
      if cfg.frameLength.Some? && cfg.frameLength.value > 0 {
        HandleAllKeepsGood(cfg, cfg.frameLength.value, c, datagram);
      }
    }
  }

  lemma ResetIsBounded(cfg: Config, st: State)
    ensures Bounded(cfg, Reset(st))
  {
    hide FindAsm;
    assert FindAsm([]).None?;
    Reassembly.EmptyIsIncomplete();
  }

  /** The sizes behind `Bounded`. */
  lemma BoundedSizes(cfg: Config, st: State)
    requires Bounded(cfg, st)
    ensures cfg.asm && cfg.frameLength.Some? ==> |st.stream| <= cfg.frameLength.value + 3
    ensures forall v :: 0 <= v < CHANNELS ==> |st.core.vcs[v].pending| < 65_542
    ensures forall v :: 0 <= v < CHANNELS && !st.core.vcs[v].inSync ==> st.core.vcs[v].pending == []
  {
    hide FindAsm;
    forall v | 0 <= v < CHANNELS
      ensures |st.core.vcs[v].pending| < 65_542
      ensures !st.core.vcs[v].inSync ==> st.core.vcs[v].pending == []
    {
      assert Reassembly.ValidVc(st.core.vcs[v]);
    }
  }

  /** An emitted packet can only be refused as a telecommand; otherwise its whole data field arrives. */
  lemma SoundPacketParses(p: Packet)
    requires Sound(p)
    ensures match SpacePackets.ParseTelemetry(p.bytes)
            case Ok(t) => t.payload == p.bytes[SpacePackets.PACKET_HEADER_LEN..] && t.apid != SpacePackets.IDLE_APID
            case Err(e) => e.NotTelemetry? && e.apid != SpacePackets.IDLE_APID
  {
    SpacePackets.WellFormedParses(p.bytes);
  }
}
