/**
 From datagrams to channels.  A run of datagrams amounts to a sequence of accepted frames, and what
 each virtual channel makes of that sequence depends on its own frames alone.
 */
module Channels {
  import opened Octets
  import opened Deframing
  import opened MarkerSearch
  import opened Reassembly
  import Provenance
  import SpacePackets
  import TmFrame

  // ---------------------------------------------------------------------------------------
  // Accepting one frame after the other
  // ---------------------------------------------------------------------------------------

  predicate ValidFrames(frames: seq<TmFrame.Frame>) {
    forall i :: 0 <= i < |frames| ==> frames[i].header.vcid < CHANNELS
  }

  /** `accept`, for each frame in turn. */
  function TakeIn(cfg: Config, c: Core, frames: seq<TmFrame.Frame>): (r: (Core, seq<Packet>))
    requires |c.vcs| == CHANNELS && ValidFrames(frames)
    ensures |r.0.vcs| == CHANNELS
    decreases |frames|
  {
    if frames == [] then (c, [])
    else
      var t := TakeIn(cfg, c, frames[..|frames| - 1]);
      var a := Accept(cfg, t.0, frames[|frames| - 1]);
      (a.0, t.1 + a.1)
  }

  lemma TakeInNone(cfg: Config, c: Core)
    requires |c.vcs| == CHANNELS
    ensures TakeIn(cfg, c, []) == (c, [])
  {
  }

  lemma TakeInLast(cfg: Config, c: Core, frames: seq<TmFrame.Frame>, f: TmFrame.Frame)
    requires |c.vcs| == CHANNELS && ValidFrames(frames) && f.header.vcid < CHANNELS
    ensures ValidFrames(frames + [f])
    ensures var t := TakeIn(cfg, c, frames);
            var a := Accept(cfg, t.0, f);
            TakeIn(cfg, c, frames + [f]) == (a.0, t.1 + a.1)
  {
    hide Accept;
    assert (frames + [f])[..|frames|] == frames;
  }

  lemma {:induction false} TakeInSplit(cfg: Config, c: Core, a: seq<TmFrame.Frame>, b: seq<TmFrame.Frame>)
    requires |c.vcs| == CHANNELS && ValidFrames(a) && ValidFrames(b)
    ensures ValidFrames(a + b)
    ensures var t := TakeIn(cfg, c, a);
            var u := TakeIn(cfg, t.0, b);
            TakeIn(cfg, c, a + b) == (u.0, t.1 + u.1)
    decreases |b|
  {
    hide Accept, TakeIn;
    if b == [] {
      assert a + b == a;
      TakeInNone(cfg, TakeIn(cfg, c, a).0);
      assert TakeIn(cfg, c, a).1 + [] == TakeIn(cfg, c, a).1;
    } else {
      var n := |b| - 1;
      TakeInSplit(cfg, c, a, b[..n]);
      assert a + b == a + b[..n] + [b[n]] && b == b[..n] + [b[n]];
      TakeInLast(cfg, c, a + b[..n], b[n]);
      TakeInLast(cfg, TakeIn(cfg, c, a).0, b[..n], b[n]);
      var t := TakeIn(cfg, c, a);
      var u := TakeIn(cfg, t.0, b[..n]);
      var last := Accept(cfg, u.0, b[n]);
      assert t.1 + u.1 + last.1 == t.1 + (u.1 + last.1);
    }
  }

  lemma TakeInOne(cfg: Config, c: Core, f: TmFrame.Frame)
    requires |c.vcs| == CHANNELS && f.header.vcid < CHANNELS
    ensures TakeIn(cfg, c, [f]) == Accept(cfg, c, f)
  {
    hide Accept;
    assert [f][..|[f]| - 1] == [];
    assert TakeIn(cfg, c, []) == (c, []);
    assert [] + Accept(cfg, c, f).1 == Accept(cfg, c, f).1;
  }

  // ---------------------------------------------------------------------------------------
  // The frames in a stream or a run of datagrams
  // ---------------------------------------------------------------------------------------

  // The core without the counters that accepted frames do not touch.
  function Plain(c: Core): (r: Core)
    ensures r.vcs == c.vcs && r.lastMc == c.lastMc
  {
    c.(stats := c.stats.(datagrams := 0, bytesDiscarded := 0, framesCrcError := 0, framesInvalid := 0))
  }

  lemma AcceptPlain(cfg: Config, c: Core, f: TmFrame.Frame)
    requires |c.vcs| == CHANNELS && f.header.vcid < CHANNELS
    ensures Accept(cfg, Plain(c), f) == (Plain(Accept(cfg, c, f).0), Accept(cfg, c, f).1)
  {
    hide Receive, IdleCount, Emitted, IsOtherSpacecraft, IsFiltered;
  }

  // The octets behind a marker at `at`.
  function Window(len: nat, s: Octets, at: nat): Octets
    requires at + ASM_LEN + len <= |s|
  {
    s[at + ASM_LEN..at + ASM_LEN + len]
  }

  /** Where the search, from `pos` on, finds frames that decode. */
  function Hits(cfg: Config, len: nat, s: Octets, pos: nat): (r: seq<nat>)
    requires pos <= |s|
    ensures forall i :: 0 <= i < |r| ==> r[i] + ASM_LEN + len <= |s| && Decode(cfg, Window(len, s, r[i])).Ok?
    decreases |s| - pos
  {
    match FindAsmFrom(s, pos)
    case None => []
    case Some(at) =>
      if |s| < at + ASM_LEN + len then []
      else if Decode(cfg, Window(len, s, at)).Ok? then [at] + Hits(cfg, len, s, at + ASM_LEN + len)
      else Hits(cfg, len, s, at + 1)
  }

  function FramesAt(cfg: Config, len: nat, s: Octets, at: seq<nat>): (r: seq<TmFrame.Frame>)
    requires forall i :: 0 <= i < |at| ==> at[i] + ASM_LEN + len <= |s| && Decode(cfg, Window(len, s, at[i])).Ok?
    ensures |r| == |at| && ValidFrames(r)
    ensures forall i :: 0 <= i < |at| ==> Decode(cfg, Window(len, s, at[i])) == Ok(r[i])
  {
    if at == [] then [] else [Decode(cfg, Window(len, s, at[0])).value] + FramesAt(cfg, len, s, at[1..])
  }

  // The frames the search finds from `pos` on.
  function FramesFrom(cfg: Config, len: nat, s: Octets, pos: nat): (r: seq<TmFrame.Frame>)
    requires pos <= |s|
    ensures ValidFrames(r)
  {
    FramesAt(cfg, len, s, Hits(cfg, len, s, pos))
  }

  lemma FramesFromMarker(cfg: Config, len: nat, s: Octets, pos: nat, at: nat)
    requires pos <= |s| && FindAsmFrom(s, pos) == Some(at) && at + ASM_LEN + len <= |s|
    ensures var d := Decode(cfg, Window(len, s, at));
            FramesFrom(cfg, len, s, pos) ==
            if d.Ok? then [d.value] + FramesFrom(cfg, len, s, at + ASM_LEN + len) else FramesFrom(cfg, len, s, at + 1)
  {
    hide FindAsmFrom, Decode, MarkerAt, Window;
    if Decode(cfg, Window(len, s, at)).Ok? {
      var more := Hits(cfg, len, s, at + ASM_LEN + len);
      assert Hits(cfg, len, s, pos) == [at] + more;
      assert ([at] + more)[1..] == more;
    }
  }

  lemma FindFrom(s: Octets, pos: nat)
    requires pos <= |s|
    ensures FindAsmFrom(s, pos) ==
            match FindAsm(s[pos..]) { case None => None case Some(rel) => Some(pos + rel) }
  {
    hide FindAsm, FindAsmFrom;
    var t := s[pos..];
    forall i: nat ensures MarkerAt(t, i) <==> MarkerAt(s, pos + i) {
      if i + ASM_LEN <= |t| {
        assert t[i..i + ASM_LEN] == s[pos + i..pos + i + ASM_LEN];
      }
    }
    if FindAsmFrom(s, pos).Some? {
      assert MarkerAt(t, FindAsmFrom(s, pos).value - pos);
    }
    if FindAsm(t).Some? {
      assert MarkerAt(s, pos + FindAsm(t).value);
    }
  }

  /** Scanning a stream amounts to accepting the frames it is found to hold. */
  lemma {:induction false} ScanTakesIn(cfg: Config, len: nat, c: Core, s: Octets, pos: nat)
    requires |c.vcs| == CHANNELS && pos <= |s|
    ensures var r := Scan(cfg, len, c, s[pos..]);
            TakeIn(cfg, Plain(c), FramesFrom(cfg, len, s, pos)) == (Plain(r.core), r.packets)
    decreases |s| - pos
  {
    hide HandleFrame, FindAsm, FindAsmFrom, Decode, MarkerAt, Accept;
    var t := s[pos..];
    FindFrom(s, pos);
    match FindAsm(t) {
      case None =>
      case Some(rel) =>
        if |t| >= rel + ASM_LEN + len {
          ScanTakesInAtFrame(cfg, len, c, s, pos, rel);
        }
    }
  }

  lemma {:induction false} ScanTakesInAtFrame(cfg: Config, len: nat, c: Core, s: Octets, pos: nat, rel: nat)
    requires |c.vcs| == CHANNELS && pos + rel + ASM_LEN + len <= |s|
    requires FindAsm(s[pos..]) == Some(rel) && FindAsmFrom(s, pos) == Some(pos + rel)
    ensures var r := Scan(cfg, len, c, s[pos..]);
            TakeIn(cfg, Plain(c), FramesFrom(cfg, len, s, pos)) == (Plain(r.core), r.packets)
    decreases |s| - pos, 0
  {
    hide FindAsm, FindAsmFrom, Decode, MarkerAt, Accept, Scan, Plain, TakeIn, FramesFrom, Discard, Window;
    var t, at, start := s[pos..], pos + rel, rel + ASM_LEN;
    var window := Window(len, s, at);
    assert t[start..start + len] == window by { SameWindow(len, s, pos, rel); }
    DiscardKeepsVcs(c, rel);
    var d := Discard(c, rel);
    var h := HandleFrame(cfg, d, window);
    var next := if h.ok then start + len else rel + 1;
    assert t[next..] == s[pos + next..];
    ScanAtFrame(cfg, len, c, t, rel);
    ScanTakesIn(cfg, len, h.core, s, pos + next);
    FramesFromMarker(cfg, len, s, pos, at);
    PlainDiscard(c, rel);
    var rest := FramesFrom(cfg, len, s, pos + next);
    if h.ok {
      var f := Decode(cfg, window).value;
      AcceptPlain(cfg, d, f);
      TakeInOne(cfg, Plain(c), f);
      TakeInSplit(cfg, Plain(c), [f], rest);
      assert h == Handled(Accept(cfg, d, f).0, true, Accept(cfg, d, f).1);
    } else {
      PlainFailure(cfg, d, window);
      var more := Scan(cfg, len, h.core, s[pos + next..]).packets;
      assert h.packets + more == more;
    }
  }

  lemma SameWindow(len: nat, s: Octets, pos: nat, rel: nat)
    requires pos + rel + ASM_LEN + len <= |s|
    ensures s[pos..][rel + ASM_LEN..rel + ASM_LEN + len] == Window(len, s, pos + rel)
  {
  }

  lemma DiscardKeepsVcs(c: Core, n: nat)
    ensures Discard(c, n).vcs == c.vcs
  {
  }

  lemma PlainDiscard(c: Core, n: nat)
    ensures Plain(Discard(c, n)) == Plain(c)
  {
  }

  lemma PlainFailure(cfg: Config, c: Core, raw: Octets)
    requires |c.vcs| == CHANNELS && Decode(cfg, raw).Err?
    ensures Plain(HandleFrame(cfg, c, raw).core) == Plain(c) && HandleFrame(cfg, c, raw).packets == []
  {
    hide Decode;
  }

  /** The frames in one datagram without markers. */
  function FramesInDatagram(cfg: Config, d: Octets): (r: seq<TmFrame.Frame>)
    ensures ValidFrames(r)
  {
    match cfg.frameLength
    case None => if Decode(cfg, d).Ok? then [Decode(cfg, d).value] else []
    case Some(len) => if d != [] && len > 0 && |d| % len == 0 then FramesInChunks(cfg, len, d) else []
  }

  function FramesInChunks(cfg: Config, len: nat, d: Octets): (r: seq<TmFrame.Frame>)
    requires len > 0
    ensures ValidFrames(r)
    decreases |d|
  {
    if |d| < len then []
    else
      (if Decode(cfg, d[..len]).Ok? then [Decode(cfg, d[..len]).value] else []) + FramesInChunks(cfg, len, d[len..])
  }

  /** The frames a fresh deframer finds in `datagrams`, in the order it accepts them. */
  function FramesIn(cfg: Config, datagrams: seq<Octets>): (r: seq<TmFrame.Frame>)
    ensures ValidFrames(r)
    decreases |datagrams|
  {
    if cfg.asm then
      match cfg.frameLength
      case None => []
      case Some(len) => FramesFrom(cfg, len, Flatten(datagrams), 0)
    else if datagrams == [] then []
    else FramesInDatagram(cfg, datagrams[0]) + FramesIn(cfg, datagrams[1..])
  }

  lemma HandleFrameTakesIn(cfg: Config, c: Core, raw: Octets)
    requires |c.vcs| == CHANNELS
    ensures var h := HandleFrame(cfg, c, raw);
            TakeIn(cfg, Plain(c), if Decode(cfg, raw).Ok? then [Decode(cfg, raw).value] else [])
                == (Plain(h.core), h.packets)
  {
    hide Decode, Accept, Plain, TakeIn;
    if Decode(cfg, raw).Ok? {
      AcceptPlain(cfg, c, Decode(cfg, raw).value);
      TakeInOne(cfg, Plain(c), Decode(cfg, raw).value);
    } else {
      PlainFailure(cfg, c, raw);
      TakeInNone(cfg, Plain(c));
    }
  }

  lemma {:induction false} ChunksTakeIn(cfg: Config, len: nat, c: Core, d: Octets)
    requires |c.vcs| == CHANNELS && len > 0
    ensures var r := HandleAll(cfg, len, c, d);
            TakeIn(cfg, Plain(c), FramesInChunks(cfg, len, d)) == (Plain(r.0), r.1)
    decreases |d|
  {
    hide Decode, HandleFrame, Plain, TakeIn;
    if |d| < len {
      TakeInNone(cfg, Plain(c));
    } else {
      var h := HandleFrame(cfg, c, d[..len]);
      HandleFrameTakesIn(cfg, c, d[..len]);
      ChunksTakeIn(cfg, len, h.core, d[len..]);
      TakeInSplit(cfg, Plain(c), if Decode(cfg, d[..len]).Ok? then [Decode(cfg, d[..len]).value] else [],
                  FramesInChunks(cfg, len, d[len..]));
    }
  }

  /** A deframer with nothing buffered: as built, or after a reset. */
  predicate IsFresh(st: State) {
    st.core.vcs == FreshVcs() && st.core.lastMc == None && st.stream == []
  }

  lemma PushTakesIn(cfg: Config, st: State, d: Octets)
    requires ValidState(st) && !cfg.asm
    ensures var p := Push(cfg, st, d);
            TakeIn(cfg, Plain(st.core), FramesInDatagram(cfg, d)) == (Plain(p.0.core), p.1)
  {
    hide Decode, HandleFrame, HandleAll, TakeIn, FramesInChunks;
    var c := Bump(st.core);
    assert Plain(c) == Plain(st.core) == Plain(Invalid(c));
    TakeInNone(cfg, Plain(c));
    match cfg.frameLength
    case None => HandleFrameTakesIn(cfg, c, d);
    case Some(len) => if len > 0 { ChunksTakeIn(cfg, len, c, d); }
  }

  lemma {:induction false} PushAllTakesInDatagrams(cfg: Config, st: State, datagrams: seq<Octets>)
    requires ValidState(st) && !cfg.asm
    ensures var r := PushAll(cfg, st, datagrams);
            TakeIn(cfg, Plain(st.core), FramesIn(cfg, datagrams)) == (Plain(r.0.core), r.1)
    decreases |datagrams|
  {
    hide Push, Plain, TakeIn, FramesInDatagram, FramesAt, Hits;
    if datagrams == [] {
      TakeInNone(cfg, Plain(st.core));
    } else {
      PushTakesIn(cfg, st, datagrams[0]);
      PushAllTakesInDatagrams(cfg, Push(cfg, st, datagrams[0]).0, datagrams[1..]);
      TakeInSplit(cfg, Plain(st.core), FramesInDatagram(cfg, datagrams[0]), FramesIn(cfg, datagrams[1..]));
    }
  }

  /** In both modes, a run from a fresh deframer amounts to accepting the frames in its datagrams. */
  lemma PushAllTakesIn(cfg: Config, st: State, datagrams: seq<Octets>)
    requires ValidConfig(cfg) && IsFresh(st)
    ensures var r := PushAll(cfg, st, datagrams);
            TakeIn(cfg, Plain(st.core), FramesIn(cfg, datagrams)) == (Plain(r.0.core), r.1)
  {
    hide Scan, TakeIn, Hits, FramesAt, FindAsm, Push;
    if cfg.asm {
      var len, s := cfg.frameLength.value, Flatten(datagrams);
      assert FindAsm(st.stream).None?;
      PushAllIsOneScan(cfg, st, datagrams);
      assert st.stream + s == s == s[0..];
      ScanTakesIn(cfg, len, st.core, s, 0);
      var r := Scan(cfg, len, st.core, s);
      assert Plain(WithDatagrams(r.core, st.core.stats.datagrams + |datagrams|)) == Plain(r.core);
    } else {
      PushAllTakesInDatagrams(cfg, st, datagrams);
    }
  }

  // ---------------------------------------------------------------------------------------
  // Resynchronisation
  // ---------------------------------------------------------------------------------------

  /** `at` are the places of intact CADUs in `s`: a marker and a frame that decodes, without overlap. */
  predicate IntactCadus(cfg: Config, len: nat, s: Octets, at: seq<nat>) {
    && (forall i :: 0 <= i < |at| ==>
          at[i] + ASM_LEN + len <= |s| && MarkerAt(s, at[i]) && Decode(cfg, Window(len, s, at[i])).Ok?)
    && (forall i, j :: 0 <= i < j < |at| ==> at[i] + ASM_LEN + len <= at[j])
  }

  predicate Inside(len: nat, at: seq<nat>, q: nat) {
    exists i :: 0 <= i < |at| && at[i] <= q < at[i] + ASM_LEN + len
  }

  /** A marker by chance, outside every intact CADU, is not followed by something that decodes. */
  ghost predicate FalseMarkersFail(cfg: Config, len: nat, s: Octets, at: seq<nat>) {
    forall q: nat :: MarkerAt(s, q) && q + ASM_LEN + len <= |s| && !Inside(len, at, q) ==>
        Decode(cfg, Window(len, s, q)).Err?
  }

  // The search is before the `j`th intact CADU and past the one before it.
  predicate Between(len: nat, at: seq<nat>, j: nat, pos: nat) {
    j <= |at| && (j > 0 ==> at[j - 1] + ASM_LEN + len <= pos) && (j < |at| ==> pos <= at[j])
  }

  // The next marker is the next intact CADU's, or it is a false one.
  lemma NextMarker(cfg: Config, len: nat, s: Octets, at: seq<nat>, j: nat, pos: nat)
    requires IntactCadus(cfg, len, s, at) && FalseMarkersFail(cfg, len, s, at) && Between(len, at, j, pos)
    ensures var q := FindAsmFrom(s, pos);
            && (j < |at| ==> q.Some? && q.value <= at[j] && at[j] + ASM_LEN + len <= |s|
                             && Decode(cfg, Window(len, s, at[j])).Ok?
                             && Between(len, at, j + 1, at[j] + ASM_LEN + len))
            && (q.Some? && q.value + ASM_LEN + len <= |s| && (j < |at| ==> q.value < at[j]) ==>
                  Decode(cfg, Window(len, s, q.value)).Err? && Between(len, at, j, q.value + 1))
  {
    hide FindAsmFrom, Decode, MarkerAt, Window, Inside;
    var q := FindAsmFrom(s, pos);
    if q.Some? && q.value + ASM_LEN + len <= |s| && (j < |at| ==> q.value < at[j]) {
      OutsideCadus(len, at, j, q.value);
    }
  }

  lemma {:induction false} HitsAreRemaining(cfg: Config, len: nat, s: Octets, at: seq<nat>, j: nat, pos: nat)
    requires IntactCadus(cfg, len, s, at) && FalseMarkersFail(cfg, len, s, at)
    requires Between(len, at, j, pos) && pos <= |s|
    ensures Hits(cfg, len, s, pos) == at[j..]
    decreases |s| - pos
  {
    hide FindAsmFrom, Decode, MarkerAt, Window, IntactCadus, FalseMarkersFail, Between;
    var q := FindAsmFrom(s, pos);
    NextMarker(cfg, len, s, at, j, pos);
    assert j <= |at| by { BetweenIndex(len, at, j, pos); }
    if q.Some? && q.value + ASM_LEN + len <= |s| {
      if j < |at| && q.value == at[j] {
        HitsAreRemaining(cfg, len, s, at, j + 1, at[j] + ASM_LEN + len);
        BetweenIndex(len, at, j + 1, at[j] + ASM_LEN + len);
        assert at[j..] == [at[j]] + at[j + 1..];
      } else {
        HitsAreRemaining(cfg, len, s, at, j, q.value + 1);
      }
    }
  }

  lemma BetweenIndex(len: nat, at: seq<nat>, j: nat, pos: nat)
    requires Between(len, at, j, pos)
    ensures j <= |at|
  {
  }

  lemma OutsideCadus(len: nat, at: seq<nat>, j: nat, q: nat)
    requires j <= |at| && forall i, k :: 0 <= i < k < |at| ==> at[i] + ASM_LEN + len <= at[k]
    requires (j > 0 ==> at[j - 1] + ASM_LEN + len <= q) && (j < |at| ==> q < at[j])
    ensures !Inside(len, at, q)
  {
    forall i | 0 <= i < |at| ensures !(at[i] <= q < at[i] + ASM_LEN + len) {
      if j > 0 && i < j - 1 {
        assert at[i] + ASM_LEN + len <= at[j - 1];
      } else if i > j {
        assert at[j] + ASM_LEN + len <= at[i];
      }
    }
  }

  /**
   Resynchronisation: whatever lies between them, the intact CADUs of a stream are found, each once
   and in order, and nothing else is.
   */
  lemma IntactCadusAreFound(cfg: Config, len: nat, s: Octets, at: seq<nat>)
    requires IntactCadus(cfg, len, s, at) && FalseMarkersFail(cfg, len, s, at)
    ensures Hits(cfg, len, s, 0) == at
  {
    HitsAreRemaining(cfg, len, s, at, 0, 0);
    assert at[0..] == at;
  }

  /** How many of the CADUs have ended by octet `n`. */
  function EndedBy(len: nat, at: seq<nat>, n: nat): (m: nat)
    ensures m <= |at|
    ensures forall i :: 0 <= i < m ==> at[i] + ASM_LEN + len <= n
    ensures m < |at| ==> at[m] + ASM_LEN + len > n
  {
    if at == [] || at[0] + ASM_LEN + len > n then 0 else 1 + EndedBy(len, at[1..], n)
  }

  lemma WindowOfPrefix(len: nat, s: Octets, n: nat, q: nat)
    requires q + ASM_LEN + len <= n <= |s|
    ensures (MarkerAt(s[..n], q) <==> MarkerAt(s, q)) && Window(len, s[..n], q) == Window(len, s, q)
  {
    assert s[..n][q..q + ASM_LEN] == s[q..q + ASM_LEN];
    assert s[..n][q + ASM_LEN..q + ASM_LEN + len] == s[q + ASM_LEN..q + ASM_LEN + len];
  }

  lemma PrefixIsIntact(cfg: Config, len: nat, s: Octets, at: seq<nat>, n: nat)
    requires IntactCadus(cfg, len, s, at) && n <= |s|
    ensures IntactCadus(cfg, len, s[..n], at[..EndedBy(len, at, n)])
  {
    hide Decode, MarkerAt, Window, EndedBy;
    var m := EndedBy(len, at, n);
    forall i | 0 <= i < m
      ensures MarkerAt(s[..n], at[i]) && Window(len, s[..n], at[i]) == Window(len, s, at[i])
    {
      WindowOfPrefix(len, s, n, at[i]);
    }
  }

  // A place that lies, with room for a CADU, in the first octets lies in a CADU that has ended there.
  lemma InsideAPrefix(len: nat, at: seq<nat>, n: nat, q: nat)
    requires forall i, j :: 0 <= i < j < |at| ==> at[i] + ASM_LEN + len <= at[j]
    requires q + ASM_LEN + len <= n && Inside(len, at, q)
    ensures Inside(len, at[..EndedBy(len, at, n)], q)
  {
    hide EndedBy;
    var m := EndedBy(len, at, n);
    var i :| 0 <= i < |at| && at[i] <= q < at[i] + ASM_LEN + len;
    assert i < m;
    assert at[..m][i] == at[i];
  }

  lemma PrefixHasNoFalseMarker(cfg: Config, len: nat, s: Octets, at: seq<nat>, n: nat)
    requires IntactCadus(cfg, len, s, at) && FalseMarkersFail(cfg, len, s, at) && n <= |s|
    ensures FalseMarkersFail(cfg, len, s[..n], at[..EndedBy(len, at, n)])
  {
    hide Decode, MarkerAt, Window, EndedBy, Inside;
    var m := EndedBy(len, at, n);
    forall q: nat | MarkerAt(s[..n], q) && q + ASM_LEN + len <= n && !Inside(len, at[..m], q)
      ensures Decode(cfg, Window(len, s[..n], q)).Err?
    {
      WindowOfPrefix(len, s, n, q);
      if Inside(len, at, q) {
        InsideAPrefix(len, at, n, q);
      }
    }
  }

  /** Each of them is found as soon as its last octet is there, whatever is still to come. */
  lemma CadusAreFoundAtTheirEnd(cfg: Config, len: nat, s: Octets, at: seq<nat>, n: nat)
    requires IntactCadus(cfg, len, s, at) && FalseMarkersFail(cfg, len, s, at) && n <= |s|
    ensures Hits(cfg, len, s[..n], 0) == at[..EndedBy(len, at, n)]
  {
    hide Hits, IntactCadus, FalseMarkersFail, EndedBy;
    PrefixIsIntact(cfg, len, s, at, n);
    PrefixHasNoFalseMarker(cfg, len, s, at, n);
    IntactCadusAreFound(cfg, len, s[..n], at[..EndedBy(len, at, n)]);
  }
}
