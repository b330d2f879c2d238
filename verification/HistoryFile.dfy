/**
 The history file: lines written one after another, and the reader that brings the newest ones back.
 Which octets are text, and what trimming leaves of it, is the parameter `trim`.
 */
module HistoryFile {
  import opened Octets

  type Line = Octets

  /** `from_utf8` and then `trim`: nothing when the octets are not UTF-8. */
  type Trim = Octets -> Option<Line>

  const NEWLINE: bv8 := 10
  const MAX_LINE_BYTES: nat := 256 * 1024

  /** The newest `n` elements, oldest first. */
  function Last<T>(s: seq<T>, n: nat): (r: seq<T>)
    ensures |r| == if |s| <= n then |s| else n
    ensures forall i :: 0 <= i < |r| ==> r[i] == s[|s| - |r| + i]
  {
    if |s| <= n then s else s[|s| - n..]
  }

  lemma LastOfLast<T>(s: seq<T>, t: seq<T>, n: nat)
    ensures Last(Last(s, n) + t, n) == Last(s + t, n)
  {
    hide Last;
    var a, b := Last(Last(s, n) + t, n), Last(s + t, n);
    assert |a| == |b|;
    forall i | 0 <= i < |a| ensures a[i] == b[i] {
    }
  }

  // Pushing at the back of a deque that is kept at `n`.
  function PushBack<T>(s: seq<T>, x: T, n: nat): (r: seq<T>)
    requires 0 < n && |s| <= n
    ensures r == Last(s + [x], n)
  {
    if |s| == n then s[1..] + [x] else s + [x]
  }

  // ---------------------------------------------------------------------------------------
  // Writing and reading
  // ---------------------------------------------------------------------------------------

  /** Each line and its newline. */
  function Written(lines: seq<Line>): Octets {
    if lines == [] then [] else lines[0] + [NEWLINE] + Written(lines[1..])
  }

  /** Up to and including the first newline. */
  function LineLength(file: Octets): (n: nat)
    ensures n <= |file| && (file != [] ==> n > 0)
    ensures n > 0 && file[n - 1] != NEWLINE ==> n == |file|
    ensures forall i :: 0 <= i < n - 1 ==> file[i] != NEWLINE
  {
    if file == [] then 0 else if file[0] == NEWLINE then 1 else 1 + LineLength(file[1..])
  }

  /** One bounded read: the line, or its first `MAX_LINE_BYTES + 1` octets. */
  function ReadLength(file: Octets): nat {
    var n := LineLength(file);
    if n <= MAX_LINE_BYTES + 1 then n else MAX_LINE_BYTES + 1
  }

  // The read stopped inside a line that is too long.
  predicate Oversized(file: Octets) {
    var n := ReadLength(file);
    n > MAX_LINE_BYTES && file[n - 1] != NEWLINE
  }

  /** How far one turn of the reading loop goes: a whole line, even when it is skipped. */
  function TurnLength(file: Octets): (n: nat)
    ensures n <= |file| && (file != [] ==> n > 0)
  {
    var n := ReadLength(file);
    if Oversized(file) then n + LineLength(file[n..]) else n
  }

  /** What one turn of the reading loop keeps. */
  function Turn(trim: Trim, file: Octets): seq<Line> {
    if Oversized(file) then []
    else match trim(file[..ReadLength(file)])
      case None => []
      case Some(t) => if t == [] then [] else [t]
  }

  /** All lines the reader keeps. */
  function ReadLines(trim: Trim, file: Octets): seq<Line> {
    if file == [] then [] else Turn(trim, file) + ReadLines(trim, file[TurnLength(file)..])
  }

  /** `read_tail` */
  method ReadTail(trim: Trim, file: Octets, keep: nat) returns (tail: seq<Line>)
    requires keep > 0
    ensures tail == Last(ReadLines(trim, file), keep)
  {
    hide Turn, TurnLength, ReadLines, Last;
    tail := [];
    var rest := file;
    ghost var read: seq<Line> := [];
    NothingIsRead(trim);
    while rest != []
      invariant read + ReadLines(trim, rest) == ReadLines(trim, file)
      invariant tail == Last(read, keep)
      decreases |rest|
    {
      OneTurn(trim, rest);
      var found := NextLine(trim, rest);
      if found.Some? {
        LastOfLast(read, [found.value], keep);
        tail := PushBack(tail, found.value, keep);
        read := read + [found.value];
      }
      rest := rest[TurnLength(rest)..];
    }
  }

  lemma OneTurn(trim: Trim, file: Octets)
    requires file != []
    ensures ReadLines(trim, file) == Turn(trim, file) + ReadLines(trim, file[TurnLength(file)..])
  {
  }

  // The text of the next line, if it is kept.
  method NextLine(trim: Trim, file: Octets) returns (found: Option<Line>)
    requires file != []
    ensures Turn(trim, file) == if found.Some? then [found.value] else []
  {
    var n := ReadLength(file);
    if n > MAX_LINE_BYTES && file[n - 1] != NEWLINE {
      return None;
    }
    var text := trim(file[..n]);
    if text == Some([]) {
      return None;
    }
    return text;
  }

  // ---------------------------------------------------------------------------------------
  // What comes back
  // ---------------------------------------------------------------------------------------

  /**
   What trimming guarantees: the result is a stretch of the text, does not end in a newline, and
   trims to itself when a newline is put behind it.
   */
  ghost predicate Lawful(trim: Trim) {
    forall x :: trim(x).Some? && trim(x).value != [] ==>
      var t := trim(x).value;
      && (exists a, b :: 0 <= a <= b <= |x| && t == x[a..b])
      && t[|t| - 1] != 10
      && trim(t + [10]) == Some(t)
  }

  /** A line that the file can give back. */
  predicate Persistable(trim: Trim, line: Line) {
    && line != [] && |line| <= 262_144 && 10 !in line
    && trim(line + [10]) == Some(line)
  }

  lemma {:induction false} LineLengthIs(line: Line, rest: Octets)
    requires NEWLINE !in line
    ensures LineLength(line + [NEWLINE] + rest) == |line| + 1
  {
    var file := line + [NEWLINE] + rest;
    if line != [] {
      LineLengthIs(line[1..], rest);
      assert file[1..] == line[1..] + [NEWLINE] + rest;
    }
  }

  /** A persistable line at the front of a file is read as it is, and reading goes on behind it. */
  lemma PersistableIsRead(trim: Trim, line: Line, rest: Octets)
    requires Persistable(trim, line)
    ensures ReadLines(trim, line + [NEWLINE] + rest) == [line] + ReadLines(trim, rest)
  {
    hide LineLength;
    var file := line + [NEWLINE] + rest;
    LineLengthIs(line, rest);
    assert file[..|line| + 1] == line + [NEWLINE];
    assert file[|line| + 1..] == rest;
  }

  lemma {:induction false} PersistableAreRead(trim: Trim, lines: seq<Line>)
    requires forall l :: l in lines ==> Persistable(trim, l)
    ensures ReadLines(trim, Written(lines)) == lines
  {
    hide ReadLines, Persistable;
    if lines == [] {
      NothingIsRead(trim);
    } else {
      PersistableIsRead(trim, lines[0], Written(lines[1..]));
      PersistableAreRead(trim, lines[1..]);
    }
  }

  lemma NothingIsRead(trim: Trim)
    ensures ReadLines(trim, []) == []
  {
  }

  /** Whatever the file holds, only persistable lines are read from it. */
  lemma {:induction false} OnlyPersistableAreRead(trim: Trim, file: Octets)
    requires Lawful(trim)
    ensures forall l :: l in ReadLines(trim, file) ==> Persistable(trim, l)
    decreases |file|
  {
    hide Persistable, Lawful, Turn, TurnLength;
    if file != [] {
      TurnIsPersistable(trim, file);
      OnlyPersistableAreRead(trim, file[TurnLength(file)..]);
    }
  }

  lemma TurnIsPersistable(trim: Trim, file: Octets)
    requires Lawful(trim) && file != []
    ensures forall l :: l in Turn(trim, file) ==> Persistable(trim, l)
  {
    hide LineLength, Lawful;
    if Turn(trim, file) != [] {
      TrimmedLine(trim, file[..ReadLength(file)]);
    }
  }

  // A text with a newline at most at its end trims to a line without one.
  lemma TrimmedLine(trim: Trim, x: Octets)
    requires Lawful(trim) && trim(x).Some? && trim(x).value != []
    requires forall i :: 0 <= i < |x| - 1 ==> x[i] != NEWLINE
    requires |x| <= MAX_LINE_BYTES || (|x| == MAX_LINE_BYTES + 1 && x[MAX_LINE_BYTES] == NEWLINE)
    ensures Persistable(trim, trim(x).value)
  {
    var t := trim(x).value;
    var a, b :| 0 <= a <= b <= |x| && t == x[a..b];
    assert t[|t| - 1] == x[b - 1];
    forall i | 0 <= i < |t| ensures t[i] != NEWLINE {
      if i < |t| - 1 {
        assert t[i] == x[a + i];
      }
    }
  }

  // ---------------------------------------------------------------------------------------
  // Appending
  // ---------------------------------------------------------------------------------------

  predicate EndsLine(file: Octets) {
    file == [] || file[|file| - 1] == NEWLINE
  }

  lemma {:induction false} WrittenEndsLine(lines: seq<Line>)
    ensures EndsLine(Written(lines))
  {
    if lines != [] {
      WrittenEndsLine(lines[1..]);
    }
  }

  lemma {:induction false} WrittenAppend(a: seq<Line>, b: seq<Line>)
    ensures Written(a + b) == Written(a) + Written(b)
  {
    if a == [] {
      assert a + b == b;
    } else {
      WrittenAppend(a[1..], b);
      assert (a + b)[1..] == a[1..] + b;
    }
  }

  lemma {:induction false} LineLengthBefore(file: Octets, more: Octets)
    requires file != [] && EndsLine(file)
    ensures LineLength(file + more) == LineLength(file)
  {
    if file[0] != NEWLINE {
      LineLengthBefore(file[1..], more);
      assert (file + more)[1..] == file[1..] + more;
    }
  }

  lemma LineLengthEnds(file: Octets)
    requires file != [] && EndsLine(file)
    ensures LineLength(file) > 0 && file[LineLength(file) - 1] == NEWLINE && EndsLine(file[LineLength(file)..])
  {
    hide LineLength;
  }

  // One turn does not look beyond the lines that are complete.
  lemma TurnBefore(trim: Trim, file: Octets, more: Octets)
    requires file != [] && EndsLine(file)
    ensures Turn(trim, file + more) == Turn(trim, file) && TurnLength(file + more) == TurnLength(file)
    ensures EndsLine(file[TurnLength(file)..])
  {
    ReadBefore(file, more);
    LineLengthEnds(file);
    hide LineLength, EndsLine, ReadLength;
    var n := ReadLength(file);
    assert (file + more)[..n] == file[..n];
    if Oversized(file) {
      assert (file + more)[n..] == file[n..] + more;
      RestEndsLine(file, n);
      LineLengthBefore(file[n..], more);
      LineLengthEnds(file[n..]);
      assert file[n..][LineLength(file[n..])..] == file[TurnLength(file)..];
    } else {
      RestOfWholeLine(file);
    }
  }

  // The bounded read sees the same octets.
  lemma ReadBefore(file: Octets, more: Octets)
    requires file != [] && EndsLine(file)
    ensures 0 < ReadLength(file + more) == ReadLength(file) <= |file|
    ensures Oversized(file + more) == Oversized(file)
  {
    hide LineLength;
    LineLengthBefore(file, more);
  }

  lemma RestOfWholeLine(file: Octets)
    requires file != [] && EndsLine(file) && !Oversized(file)
    ensures EndsLine(file[ReadLength(file)..])
  {
    hide LineLength;
    LineLengthEnds(file);
  }

  lemma RestEndsLine(file: Octets, n: nat)
    requires EndsLine(file) && 0 < n <= |file| && file[n - 1] != NEWLINE
    ensures n < |file| && EndsLine(file[n..])
  {
  }

  /** A file that ends with a whole line is read independently of what is appended to it. */
  lemma {:induction false} ReadingIsAppended(trim: Trim, file: Octets, more: Octets)
    requires EndsLine(file)
    ensures ReadLines(trim, file + more) == ReadLines(trim, file) + ReadLines(trim, more)
    decreases |file|
  {
    hide Turn, TurnLength;
    if file == [] {
      assert file + more == more;
    } else {
      TurnBefore(trim, file, more);
      var n := TurnLength(file);
      assert (file + more)[n..] == file[n..] + more;
      ReadingIsAppended(trim, file[n..], more);
    }
  }

  /**
   Whether the newest lines come back: when the last `keep` lines of a file are written after any
   others, the reader returns exactly them if and only if each is persistable.
   */
  lemma NewestComeBack(trim: Trim, lines: seq<Line>, keep: nat)
    requires Lawful(trim) && keep > 0
    ensures Last(ReadLines(trim, Written(lines)), keep) == Last(lines, keep)
        <==> forall l :: l in Last(lines, keep) ==> Persistable(trim, l)
  {
    hide ReadLines, Persistable, Lawful, Written;
    if forall l :: l in Last(lines, keep) ==> Persistable(trim, l) {
      PersistableComeBack(trim, lines, keep);
    }
    OnlyPersistableAreRead(trim, Written(lines));
  }

  lemma PersistableComeBack(trim: Trim, lines: seq<Line>, keep: nat)
    requires keep > 0 && forall l :: l in Last(lines, keep) ==> Persistable(trim, l)
    ensures Last(ReadLines(trim, Written(lines)), keep) == Last(lines, keep)
  {
    hide ReadLines, Persistable, EndsLine, Written, Last;
    var newest := Last(lines, keep);
    var older := lines[..|lines| - |newest|];
    assert lines == older + newest;
    WrittenAppend(older, newest);
    WrittenEndsLine(older);
    ReadingIsAppended(trim, Written(older), Written(newest));
    PersistableAreRead(trim, newest);
    if |newest| < keep {
      assert older == [];
      WrittenNothing();
      NothingIsRead(trim);
      assert ReadLines(trim, Written(lines)) == [] + newest == newest;
    }
    LastOfAppended(ReadLines(trim, Written(older)), newest, keep);
  }

  lemma LastOfAppended<T>(s: seq<T>, t: seq<T>, n: nat)
    requires |t| == n || (|t| < n && s == [])
    ensures Last(s + t, n) == t
  {
  }

  lemma WrittenNothing()
    ensures Written([]) == []
  {
  }
}
