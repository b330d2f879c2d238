/**
 Marker mode over whole streams: how the stream is cut into datagrams does not matter, every octet
 is accounted for, and the search finds the intact frames whatever lies between them.
 */
module MarkerSearch {
  import opened Octets
  import opened Deframing
  import Reassembly
  import TmFrame

  /** The attached sync marker of section 9.3 of CCSDS 131.0-B-4: 1A CF FC 1D. */
  lemma MarkerIs(s: Octets, i: nat)
    ensures MarkerAt(s, i) <==>
              i + 4 <= |s| && s[i] == 0x1A && s[i + 1] == 0xCF && s[i + 2] == 0xFC && s[i + 3] == 0x1D
  {
    if i + 4 <= |s| {
      var m := s[i..i + 4];
      assert m[0] == s[i] && m[1] == s[i + 1] && m[2] == s[i + 2] && m[3] == s[i + 3];
    }
  }

  // ---------------------------------------------------------------------------------------
  // Cutting the stream into datagrams
  // ---------------------------------------------------------------------------------------

  // A buffer the search can do nothing more with.
  predicate Settled(len: nat, s: Octets) {
    match FindAsm(s)
    case None => |s| < ASM_LEN
    case Some(at) => at == 0 && |s| < ASM_LEN + len
  }

  lemma {:induction false} ScanSettles(cfg: Config, len: nat, c: Core, s: Octets)
    requires |c.vcs| == CHANNELS
    ensures Settled(len, Scan(cfg, len, c, s).rest)
    decreases |s|
  {
    hide HandleFrame, FindAsm, Decode;
    match FindAsm(s) {
      case None =>
        assert FindAsm(s[|s| - KeptWithoutMarker(s)..]).None?;
      case Some(at) =>
        var start := at + ASM_LEN;
        if |s| < start + len {
          MarkerFirst(s[at..]);
        } else {
          var h := HandleFrame(cfg, Discard(c, at), s[start..start + len]);
          ScanSettles(cfg, len, h.core, s[if h.ok then start + len else at + 1..]);
        }
    }
  }

  lemma MarkerFirst(s: Octets)
    requires MarkerAt(s, 0)
    ensures FindAsm(s) == Some(0)
  {
  }

  lemma ScanOfSettled(cfg: Config, len: nat, c: Core, s: Octets)
    requires |c.vcs| == CHANNELS && Settled(len, s)
    ensures Scan(cfg, len, c, s) == Scanned(c, s, [])
  {
    hide HandleFrame, FindAsm, Decode;
    assert s[0..] == s;
  }

  // The first marker at or after `k`, counted from `k`.
  lemma FindAsmAfter(s: Octets, k: nat)
    requires k <= |s| && forall i: nat :: i < k ==> !MarkerAt(s, i)
    ensures FindAsm(s).None? <==> FindAsm(s[k..]).None?
    ensures FindAsm(s).Some? ==> FindAsm(s).value == k + FindAsm(s[k..]).value
  {
    hide FindAsm;
    var t := s[k..];
    forall i: nat ensures MarkerAt(t, i) <==> MarkerAt(s, k + i) {
      if i + ASM_LEN <= |t| {
        assert t[i..i + ASM_LEN] == s[k + i..k + i + ASM_LEN];
      }
    }
    if FindAsm(t).Some? {
      assert MarkerAt(s, k + FindAsm(t).value);
    }
    if FindAsm(s).Some? {
      var r := FindAsm(s).value;
      assert MarkerAt(t, r - k);
      assert k + FindAsm(t).value >= r;
    }
  }

  // The three cases of one turn of the search.
  lemma ScanWithoutMarker(cfg: Config, len: nat, c: Core, s: Octets)
    requires |c.vcs| == CHANNELS && FindAsm(s).None?
    ensures Scan(cfg, len, c, s) == Scanned(Discard(c, |s| - KeptWithoutMarker(s)), s[|s| - KeptWithoutMarker(s)..], [])
  {
    hide HandleFrame, FindAsm;
  }

  lemma ScanShort(cfg: Config, len: nat, c: Core, s: Octets, at: nat)
    requires |c.vcs| == CHANNELS && FindAsm(s) == Some(at) && |s| < at + ASM_LEN + len
    ensures Scan(cfg, len, c, s) == Scanned(Discard(c, at), s[at..], [])
  {
    hide HandleFrame, FindAsm;
  }

  lemma ScanAtFrame(cfg: Config, len: nat, c: Core, s: Octets, at: nat)
    requires |c.vcs| == CHANNELS
    requires FindAsm(s) == Some(at) && |s| >= at + ASM_LEN + len
    ensures var start := at + ASM_LEN;
            var h := HandleFrame(cfg, Discard(c, at), s[start..start + len]);
            var r := Scan(cfg, len, h.core, s[if h.ok then start + len else at + 1..]);
            Scan(cfg, len, c, s) == Scanned(r.core, r.rest, h.packets + r.packets)
  {
    hide HandleFrame, FindAsm, MarkerAt, KeptWithoutMarker, Decode;
    var start := at + ASM_LEN;
    var h := HandleFrame(cfg, Discard(c, at), s[start..start + len]);
    var r := Scan(cfg, len, h.core, s[if h.ok then start + len else at + 1..]);
    assert Scan(cfg, len, c, s) == r.(packets := h.packets + r.packets);
  }

  lemma ScanSkipToFrame(cfg: Config, len: nat, c: Core, s: Octets, k: nat, at: nat)
    requires |c.vcs| == CHANNELS && k <= at && |s| >= at + ASM_LEN + len
    requires FindAsm(s) == Some(at) && FindAsm(s[k..]) == Some(at - k)
    ensures Scan(cfg, len, c, s) == Scan(cfg, len, Discard(c, k), s[k..])
  {
    hide HandleFrame, FindAsm, Scan;
    var t, start := s[k..], at + ASM_LEN;
    assert t[start - k..start - k + len] == s[start..start + len];
    assert t[at - k + 1..] == s[at + 1..] && t[start - k + len..] == s[start + len..];
    ScanAtFrame(cfg, len, c, s, at);
    ScanAtFrame(cfg, len, Discard(c, k), t, at - k);
    assert Discard(Discard(c, k), at - k) == Discard(c, at);
  }

  // Octets without a marker in them can be passed over first.
  lemma ScanSkip(cfg: Config, len: nat, c: Core, s: Octets, k: nat)
    requires |c.vcs| == CHANNELS && k <= |s|
    requires forall i: nat :: i < k ==> !MarkerAt(s, i)
    requires |s| - k >= ASM_LEN - 1 || k == 0
    ensures Scan(cfg, len, c, s) == Scan(cfg, len, Discard(c, k), s[k..])
  {
    hide HandleFrame, FindAsm, Scan;
    var t := s[k..];
    FindAsmAfter(s, k);
    match FindAsm(s) {
      case None =>
        ScanWithoutMarker(cfg, len, c, s);
        ScanWithoutMarker(cfg, len, Discard(c, k), t);
        assert s[|s| - KeptWithoutMarker(s)..] == t[|t| - KeptWithoutMarker(t)..];
      case Some(at) =>
        if |s| < at + ASM_LEN + len {
          ScanShort(cfg, len, c, s, at);
          ScanShort(cfg, len, Discard(c, k), t, at - k);
          assert s[at..] == t[at - k..];
        } else {
          ScanSkipToFrame(cfg, len, c, s, k, at);
        }
    }
  }

  lemma MarkerInPrefix(a: Octets, b: Octets, i: nat)
    requires i + ASM_LEN <= |a|
    ensures MarkerAt(a, i) <==> MarkerAt(a + b, i)
  {
    assert (a + b)[i..i + ASM_LEN] == a[i..i + ASM_LEN];
  }

  /** Scanning `a` and then, with what was left of it, `b` is scanning both at once. */
  lemma {:induction false} ScanSplit(cfg: Config, len: nat, c: Core, a: Octets, b: Octets)
    requires |c.vcs| == CHANNELS
    ensures var r1 := Scan(cfg, len, c, a);
            var r2 := Scan(cfg, len, r1.core, r1.rest + b);
            Scan(cfg, len, c, a + b) == Scanned(r2.core, r2.rest, r1.packets + r2.packets)
    decreases |a|
  {
    hide HandleFrame, FindAsm, Scan;
    var s := a + b;
    match FindAsm(a) {
      case None =>
        ScanWithoutMarker(cfg, len, c, a);
        var skipped := |a| - KeptWithoutMarker(a);
        forall i: nat | i < skipped ensures !MarkerAt(s, i) {
          MarkerInPrefix(a, b, i);
        }
        ScanSkip(cfg, len, c, s, skipped);
        assert s[skipped..] == a[skipped..] + b;
      case Some(at) =>
        FirstMarkerInPrefix(a, b, at);
        if |a| < at + ASM_LEN + len {
          ScanShort(cfg, len, c, a, at);
          forall i: nat | i < at ensures !MarkerAt(s, i) {
            MarkerInPrefix(a, b, i);
          }
          ScanSkip(cfg, len, c, s, at);
          assert s[at..] == a[at..] + b;
        } else {
          ScanSplitAtFrame(cfg, len, c, a, b, at);
        }
    }
  }

  lemma FirstMarkerInPrefix(a: Octets, b: Octets, at: nat)
    requires FindAsm(a) == Some(at)
    ensures FindAsm(a + b) == Some(at)
  {
    hide FindAsm;
    MarkerInPrefix(a, b, at);
    if FindAsm(a + b).value < at {
      MarkerInPrefix(a, b, FindAsm(a + b).value);
    }
  }

  lemma {:induction false} ScanSplitAtFrame(cfg: Config, len: nat, c: Core, a: Octets, b: Octets, at: nat)
    requires |c.vcs| == CHANNELS
    requires FindAsm(a) == FindAsm(a + b) == Some(at) && |a| >= at + ASM_LEN + len
    ensures var r1 := Scan(cfg, len, c, a);
            var r2 := Scan(cfg, len, r1.core, r1.rest + b);
            Scan(cfg, len, c, a + b) == Scanned(r2.core, r2.rest, r1.packets + r2.packets)
    decreases |a|, 0
  {
    hide HandleFrame, FindAsm, Decode, Scan, MarkerAt;
    var s, start := a + b, at + ASM_LEN;
    assert s[start..start + len] == a[start..start + len];
    var h := HandleFrame(cfg, Discard(c, at), a[start..start + len]);
    var next := if h.ok then start + len else at + 1;
    assert s[next..] == a[next..] + b;
    ScanAtFrame(cfg, len, c, a, at);
    ScanAtFrame(cfg, len, c, s, at);
    ScanSplit(cfg, len, h.core, a[next..], b);
    var r1 := Scan(cfg, len, h.core, a[next..]);
    var r2 := Scan(cfg, len, r1.core, r1.rest + b);
    assert h.packets + (r1.packets + r2.packets) == h.packets + r1.packets + r2.packets;
  }

  // ---------------------------------------------------------------------------------------
  // The datagram counter is all that sees the cuts
  // ---------------------------------------------------------------------------------------

  function WithDatagrams(c: Core, n: nat): Core {
    c.(stats := c.stats.(datagrams := n))
  }

  lemma HandleFrameWithDatagrams(cfg: Config, c: Core, raw: Octets, n: nat)
    requires |c.vcs| == CHANNELS
    ensures var h := HandleFrame(cfg, c, raw);
            HandleFrame(cfg, WithDatagrams(c, n), raw) == Handled(WithDatagrams(h.core, n), h.ok, h.packets)
  {
    hide Decode, Accept;
    match Decode(cfg, raw)
    case Ok(f) => AcceptWithDatagrams(cfg, c, f, n);
    case Err(_) =>
  }

  lemma AcceptWithDatagrams(cfg: Config, c: Core, f: TmFrame.Frame, n: nat)
    requires |c.vcs| == CHANNELS && f.header.vcid < CHANNELS
    ensures Accept(cfg, WithDatagrams(c, n), f) == (WithDatagrams(Accept(cfg, c, f).0, n), Accept(cfg, c, f).1)
  {
    hide Reassembly.Receive, IdleCount, Emitted, IsOtherSpacecraft, IsFiltered;
  }

  lemma {:induction false} ScanWithDatagrams(cfg: Config, len: nat, c: Core, s: Octets, n: nat)
    requires |c.vcs| == CHANNELS
    ensures var r := Scan(cfg, len, c, s);
            Scan(cfg, len, WithDatagrams(c, n), s) == Scanned(WithDatagrams(r.core, n), r.rest, r.packets)
    decreases |s|
  {
    hide HandleFrame, FindAsm, Scan, MarkerAt;
    match FindAsm(s) {
      case None =>
        ScanWithoutMarker(cfg, len, c, s);
        ScanWithoutMarker(cfg, len, WithDatagrams(c, n), s);
      case Some(at) =>
        var start := at + ASM_LEN;
        if |s| < start + len {
          ScanShort(cfg, len, c, s, at);
          ScanShort(cfg, len, WithDatagrams(c, n), s, at);
        } else {
          var window := s[start..start + len];
          var h := HandleFrame(cfg, Discard(c, at), window);
          ScanAtFrame(cfg, len, c, s, at);
          ScanAtFrame(cfg, len, WithDatagrams(c, n), s, at);
          HandleFrameWithDatagrams(cfg, Discard(c, at), window, n);
          assert Discard(WithDatagrams(c, n), at) == WithDatagrams(Discard(c, at), n);
          ScanWithDatagrams(cfg, len, h.core, s[if h.ok then start + len else at + 1..], n);
        }
    }
  }

  /**
   A run of datagrams in marker mode does what one scan of all their octets does; only the datagram
   counter tells them apart.
   */
  lemma {:induction false} PushAllIsOneScan(cfg: Config, st: State, datagrams: seq<Octets>)
    requires ValidState(st) && cfg.asm && cfg.frameLength.Some?
    requires Settled(cfg.frameLength.value, st.stream)
    ensures var r := Scan(cfg, cfg.frameLength.value, st.core, st.stream + Flatten(datagrams));
            && PushAll(cfg, st, datagrams)
               == (State(WithDatagrams(r.core, st.core.stats.datagrams + |datagrams|), r.rest), r.packets)
            && Settled(cfg.frameLength.value, r.rest)
    decreases |datagrams|
  {
    hide Scan, Settled;
    var len := cfg.frameLength.value;
    if datagrams == [] {
      assert st.stream + Flatten(datagrams) == st.stream;
      ScanOfSettled(cfg, len, st.core, st.stream);
      assert WithDatagrams(st.core, st.core.stats.datagrams) == st.core;
    } else {
      var d, more, n := datagrams[0], Flatten(datagrams[1..]), st.core.stats.datagrams;
      var r1 := Scan(cfg, len, st.core, st.stream + d);
      ScanWithDatagrams(cfg, len, st.core, st.stream + d, n + 1);
      assert Bump(st.core) == WithDatagrams(st.core, n + 1);
      var next := Push(cfg, st, d).0;
      assert next == State(WithDatagrams(r1.core, n + 1), r1.rest);
      ScanSettles(cfg, len, st.core, st.stream + d);
      PushAllIsOneScan(cfg, next, datagrams[1..]);
      ScanWithDatagrams(cfg, len, r1.core, r1.rest + more, n + 1);
      ScanSplit(cfg, len, st.core, st.stream + d, more);
      assert st.stream + Flatten(datagrams) == st.stream + d + more;
      ScanKeepsDatagrams(cfg, len, st.core, st.stream + d);
      ScanKeepsDatagrams(cfg, len, r1.core, r1.rest + more);
    }
  }

  lemma ScanKeepsDatagrams(cfg: Config, len: nat, c: Core, s: Octets)
    requires |c.vcs| == CHANNELS
    ensures Scan(cfg, len, c, s).core.stats.datagrams == c.stats.datagrams
  {
    hide Scan;
    ScanWithDatagrams(cfg, len, c, s, c.stats.datagrams);
    assert WithDatagrams(c, c.stats.datagrams) == c;
  }

  /**
   Chunking invariance: however the same octets are cut into datagrams, the same packets come out
   and the same state remains, up to the number of datagrams counted.
   */
  lemma CutsDoNotMatter(cfg: Config, st: State, cut1: seq<Octets>, cut2: seq<Octets>)
    requires ValidState(st) && cfg.asm && cfg.frameLength.Some?
    requires Settled(cfg.frameLength.value, st.stream)
    requires Flatten(cut1) == Flatten(cut2)
    ensures var r1, r2 := PushAll(cfg, st, cut1), PushAll(cfg, st, cut2);
            && r1.1 == r2.1 && r1.0.stream == r2.0.stream
            && WithDatagrams(r1.0.core, 0) == WithDatagrams(r2.0.core, 0)
            && r1.0.core.stats.datagrams - |cut1| == r2.0.core.stats.datagrams - |cut2|
  {
    hide Scan, Settled;
    PushAllIsOneScan(cfg, st, cut1);
    PushAllIsOneScan(cfg, st, cut2);
  }
}
