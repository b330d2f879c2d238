/**
 The history store: the bounded ring in memory, the queue to the file writer, and the writer with its
 own copy of what the file should keep.  A recorder and the writer take turns in any order.
 */
module History {
  import opened Octets
  import opened HistoryFile

  /** What `from_json` reads from a message. */
  datatype Facts = Facts(receivedAt: int, apid: nat, values: seq<Option<real>>)

  type FromJson = Line -> Option<Facts>

  /** `HistoryEntry` */
  datatype Entry = Entry(facts: Facts, json: Line)

  /** `HistoryQuery` */
  datatype Query = Query(start: Option<int>, end: Option<int>, apid: Option<nat>, point: Option<nat>, limit: nat)

  /** `HistoryPage` */
  datatype Page = Page(entries: seq<Entry>, truncated: bool)

  const DEFAULT_QUERY_LIMIT := 1_000
  const MAX_QUERY_LIMIT := 10_000
  const PERSIST_QUEUE := 8_192

  // ---------------------------------------------------------------------------------------
  // Queries
  // ---------------------------------------------------------------------------------------

  /** `effective_limit` */
  function EffectiveLimit(q: Query): nat {
    if q.limit == 0 then DEFAULT_QUERY_LIMIT
    else if q.limit <= MAX_QUERY_LIMIT then q.limit
    else MAX_QUERY_LIMIT
  }

  /** `matches` */
  predicate Matches(q: Query, e: Entry) {
    && (q.start.Some? ==> e.facts.receivedAt >= q.start.value)
    && (q.end.Some? ==> e.facts.receivedAt <= q.end.value)
    && (q.apid.Some? ==> e.facts.apid == q.apid.value)
    && (q.point.Some? ==> q.point.value < |e.facts.values| && e.facts.values[q.point.value].Some?)
  }

  /** The matching entries, in order. */
  function Matching(q: Query, entries: seq<Entry>): seq<Entry> {
    if entries == [] then []
    else if Matches(q, entries[0]) then [entries[0]] + Matching(q, entries[1..])
    else Matching(q, entries[1..])
  }

  predicate Rising(at: seq<nat>) {
    forall i, j :: 0 <= i < j < |at| ==> at[i] < at[j]
  }

  /**
   What a query selects: the entries received within its bounds, both included, with its APID, and with
   a value for its point, as far as it says so.
   */
  predicate Selects(q: Query, e: Entry) {
    && (q.start == None || q.start.value <= e.facts.receivedAt)
    && (q.end == None || e.facts.receivedAt <= q.end.value)
    && (q.apid == None || q.apid == Some(e.facts.apid))
    && (q.point == None || (q.point.value < |e.facts.values| && e.facts.values[q.point.value] != None))
  }

  /** The matching entries are all those the query selects, in the order they are in, each once. */
  lemma {:induction false} MatchingAreSelected(q: Query, entries: seq<Entry>) returns (at: seq<nat>)
    ensures |at| == |Matching(q, entries)| && Rising(at)
    ensures forall i :: 0 <= i < |at| ==> at[i] < |entries| && Matching(q, entries)[i] == entries[at[i]]
    ensures forall k :: 0 <= k < |entries| ==> (Selects(q, entries[k]) <==> k in at)
    decreases |entries|
  {
    hide Selects, Matches;
    at := [];
    if entries != [] {
      var n := |entries| - 1;
      at := MatchingAreSelected(q, entries[..n]);
      var e := entries[n];
      assert entries == entries[..n] + [e];
      MatchingAppend(q, entries[..n], [e]);
      MatchingOne(q, e);
      if Selects(q, e) {
        at := at + [n];
      }
    }
  }

  lemma MatchingOne(q: Query, e: Entry)
    ensures Matching(q, [e]) == if Selects(q, e) then [e] else []
  {
    assert [e][1..] == [];
  }

  lemma {:induction false} MatchingAppend(q: Query, a: seq<Entry>, b: seq<Entry>)
    ensures Matching(q, a + b) == Matching(q, a) + Matching(q, b)
  {
    hide Matches;
    if a == [] {
      assert a + b == b;
    } else {
      MatchingAppend(q, a[1..], b);
      assert (a + b)[1..] == a[1..] + b;
    }
  }

  function Reversed<T>(s: seq<T>): (r: seq<T>)
    ensures |r| == |s| && forall i :: 0 <= i < |s| ==> r[i] == s[|s| - 1 - i]
  {
    seq(|s|, i requires 0 <= i < |s| => s[|s| - 1 - i])
  }

  // ---------------------------------------------------------------------------------------
  // Reloading
  // ---------------------------------------------------------------------------------------

  /** The entries of the lines that are messages; the others are skipped. */
  function Reload(json: FromJson, lines: seq<Line>): seq<Entry> {
    if lines == [] then []
    else match json(lines[0])
      case Some(f) => [Entry(f, lines[0])] + Reload(json, lines[1..])
      case None => Reload(json, lines[1..])
  }

  function Lines(entries: seq<Entry>): (r: seq<Line>)
    ensures |r| == |entries| && forall i :: 0 <= i < |r| ==> r[i] == entries[i].json
  {
    seq(|entries|, i requires 0 <= i < |entries| => entries[i].json)
  }

  /** Every entry is what its text says. */
  predicate Genuine(json: FromJson, entries: seq<Entry>) {
    forall i :: 0 <= i < |entries| ==> json(entries[i].json) == Some(entries[i].facts)
  }

  lemma ReloadOne(json: FromJson, line: Line)
    ensures Reload(json, [line]) == match json(line) case Some(f) => [Entry(f, line)] case None => []
  {
    assert [line][1..] == [];
  }

  lemma {:induction false} ReloadAppend(json: FromJson, a: seq<Line>, b: seq<Line>)
    ensures Reload(json, a + b) == Reload(json, a) + Reload(json, b)
  {
    hide Reload;
    ReloadNothing(json);
    if a == [] {
      assert a + b == b;
    } else {
      ReloadAppend(json, a[1..], b);
      ReloadFirst(json, a);
      ReloadFirst(json, a + b);
      assert (a + b)[1..] == a[1..] + b;
      assert Reload(json, [a[0]]) + (Reload(json, a[1..]) + Reload(json, b))
          == Reload(json, [a[0]]) + Reload(json, a[1..]) + Reload(json, b);
    }
  }

  lemma ReloadFirst(json: FromJson, lines: seq<Line>)
    requires lines != []
    ensures Reload(json, lines) == Reload(json, [lines[0]]) + Reload(json, lines[1..])
  {
    ReloadOne(json, lines[0]);
    assert [] + Reload(json, lines[1..]) == Reload(json, lines[1..]);
  }

  /** The lines reloaded are all those that read as messages, in the order they are in, each once. */
  lemma {:induction false} ReloadedAreTheMessages(json: FromJson, lines: seq<Line>) returns (at: seq<nat>)
    ensures |at| == |Reload(json, lines)| && Rising(at)
    ensures forall i :: 0 <= i < |at| ==>
              && at[i] < |lines| && json(lines[at[i]]).Some?
              && Reload(json, lines)[i] == Entry(json(lines[at[i]]).value, lines[at[i]])
    ensures forall k :: 0 <= k < |lines| ==> (json(lines[k]).Some? <==> k in at)
    decreases |lines|
  {
    hide Reload;
    at := [];
    ReloadNothing(json);
    if lines != [] {
      var n := |lines| - 1;
      at := ReloadedAreTheMessages(json, lines[..n]);
      assert lines == lines[..n] + [lines[n]];
      ReloadAppend(json, lines[..n], [lines[n]]);
      ReloadOne(json, lines[n]);
      if json(lines[n]).Some? {
        at := at + [n];
      }
    }
  }

  lemma {:induction false} ReloadBounds(json: FromJson, lines: seq<Line>)
    ensures |Reload(json, lines)| <= |lines| && Genuine(json, Reload(json, lines))
  {
    if lines != [] {
      ReloadBounds(json, lines[1..]);
    }
  }

  lemma {:induction false} ReloadGenuine(json: FromJson, entries: seq<Entry>)
    requires Genuine(json, entries)
    ensures Reload(json, Lines(entries)) == entries
  {
    if entries != [] {
      ReloadGenuine(json, entries[1..]);
      assert Lines(entries)[1..] == Lines(entries[1..]);
    }
  }

  // Lines come only from the lines reloaded.
  lemma {:induction false} ReloadLines(json: FromJson, lines: seq<Line>)
    ensures forall l :: l in Lines(Reload(json, lines)) ==> l in lines
  {
    if lines != [] {
      ReloadLines(json, lines[1..]);
      var rest := Reload(json, lines[1..]);
      forall l | l in Lines(Reload(json, lines)) ensures l in lines {
        if l != lines[0] {
          assert l in Lines(rest);
        }
      }
    }
  }

  // ---------------------------------------------------------------------------------------
  // The store
  // ---------------------------------------------------------------------------------------

  /** `HistoryStore`, with its writer thread's variables and the file. */
  class HistoryStore {
    const json: FromJson
    const trim: Trim
    const capacity: nat
    const persistent: bool

    var ring: seq<Entry>
    var queue: seq<Line>
    var file: Octets
    var kept: seq<Line>
    var linesInFile: nat

    var recorded: nat
    var evicted: nat
    var loaded: nat
    var persisted: nat
    var persistDropped: nat

    // All entries since opening, beginning with those reloaded; the lines the writer has put into the
    // file in that time; and the lines the file has now.
    ghost var log: seq<Entry>
    ghost var done: seq<Line>
    ghost var fileLines: seq<Line>

    /** Memory: the ring holds the newest entries of the log. */
    ghost predicate ValidMemory()
      reads this
    {
      && Genuine(json, log)
      && ring == Last(log, capacity)
      && |log| == loaded + recorded && |ring| == loaded + recorded - evicted
    }

    /** The file ends with the lines the writer keeps, which are the newest it has written. */
    ghost predicate Filed()
      reads this
    {
      && file == Written(fileLines) && |fileLines| == linesInFile
      && kept == Last(fileLines, capacity) && kept == Last(done, capacity)
    }

    /** Between batches the file is not twice as long as the ring can be. */
    ghost predicate ValidFile()
      reads this
    {
      Filed() && linesInFile < 2 * capacity && |queue| <= PERSIST_QUEUE
    }

    ghost predicate Valid()
      reads this
    {
      && ValidMemory()
      && (persistent ==> capacity > 0 && ValidFile())
      && (!persistent ==> queue == [])
      && (persistent && persistDropped == 0 ==> done + queue == Lines(log))
    }

    /** `open`, with a file of any contents. */
    constructor (json: FromJson, trim: Trim, capacity: nat, configured: Option<Octets>)
      ensures Valid() && fresh(this)
      ensures this.json == json && this.trim == trim && this.capacity == capacity
      ensures persistent == (configured.Some? && capacity > 0)
      ensures recorded == persisted == persistDropped == 0 && queue == []
      ensures persistent ==> ring == Reopened(json, trim, configured.value, capacity)
      ensures persistent ==> file == Written(Lines(ring))
      ensures !persistent ==> ring == []
    {
      hide ReadLines, Reload, Written;
      var lines: seq<Line> := [];
      if configured.Some? && capacity > 0 {
        lines := ReadTail(trim, configured.value, capacity);
      }
      var entries := Reload(json, lines);
      ReloadBounds(json, lines);
      ReloadNothing(json);
      this.json, this.trim, this.capacity := json, trim, capacity;
      persistent := configured.Some? && capacity > 0;
      ring, queue := entries, [];
      file := Written(Lines(entries));
      kept := Lines(entries);
      linesInFile := |entries|;
      recorded, evicted, loaded, persisted, persistDropped := 0, 0, |entries|, 0, 0;
      log, done, fileLines := entries, Lines(entries), Lines(entries);
    }

    /** `record` */
    method Record(line: Line) returns (accepted: bool)
      requires Valid()
      modifies this
      ensures Valid()
      ensures accepted == (capacity > 0 && json(line).Some?)
      ensures !accepted ==> ring == old(ring) && queue == old(queue) && recorded == old(recorded) && log == old(log)
      ensures accepted ==>
                && log == old(log) + [Entry(json(line).value, line)]
                && ring == Last(old(ring) + [Entry(json(line).value, line)], capacity)
                && recorded == old(recorded) + 1
      ensures queue
          == if accepted && persistent && |old(queue)| < 8_192 then old(queue) + [line] else old(queue)
      ensures persistDropped
          == old(persistDropped) + if accepted && persistent && |old(queue)| >= 8_192 then 1 else 0
      ensures file == old(file) && fileLines == old(fileLines) && done == old(done)
      ensures kept == old(kept) && linesInFile == old(linesInFile)
      ensures persisted == old(persisted)
    {
      hide Written, Last, Genuine, Lines;
      if capacity == 0 {
        return false;
      }
      var facts := json(line);
      if facts.None? {
        return false;
      }
      var e := Entry(facts.value, line);
      LinesOneMore(log, e);
      Remember(e);
      if persistent {
        if |queue| < PERSIST_QUEUE {
          assert done + (queue + [line]) == done + queue + [line];
          queue := queue + [line];
        } else {
          persistDropped := persistDropped + 1;
        }
      }
      return true;
    }

    // The part of `record` that holds the ring.
    method Remember(e: Entry)
      requires capacity > 0 && ValidMemory() && json(e.json) == Some(e.facts)
      modifies this`ring, this`evicted, this`recorded, this`log
      ensures ValidMemory() && log == old(log) + [e] && recorded == old(recorded) + 1
      ensures ring == Last(old(ring) + [e], capacity)
    {
      hide Last;
      LastOfLast(log, [e], capacity);
      if |ring| >= capacity {
        evicted := evicted + 1;
      }
      ring := PushBack(ring, e, capacity);
      recorded := recorded + 1;
      log := log + [e];
    }

    /** One turn of `writer_loop`: a batch of whatever is queued, a flush, and a compaction when due. */
    method WriteBatch(count: nat)
      requires Valid() && persistent && 0 < count <= |queue|
      modifies this`queue, this`file, this`kept, this`linesInFile, this`persisted, this`done, this`fileLines
      ensures Valid()
      ensures queue == old(queue)[count..] && persisted == old(persisted) + count
      ensures done == old(done) + old(queue)[..count]
      ensures var all := old(fileLines) + old(queue)[..count];
              fileLines == if |all| >= 2 * capacity then Last(all, capacity) else all
    {
      hide Written, Genuine, Lines;
      ghost var was := queue;
      AppendBatch(count);
      queue := queue[count..];
      assert was == was[..count] + queue;
      if linesInFile >= (if 2 * capacity > 1 then 2 * capacity else 1) {
        Compact();
      }
    }

    // The lines of a batch, one after another.
    method AppendBatch(count: nat)
      requires capacity > 0 && Filed() && count <= |queue|
      modifies this`file, this`kept, this`linesInFile, this`persisted, this`done, this`fileLines
      ensures Filed() && persisted == old(persisted) + count
      ensures done == old(done) + queue[..count] && fileLines == old(fileLines) + queue[..count]
    {
      hide Written, Last;
      for i := 0 to count
        invariant Filed() && persisted == old(persisted) + i
        invariant done == old(done) + queue[..i] && fileLines == old(fileLines) + queue[..i]
      {
        var line := queue[i];
        assert queue[..i + 1] == queue[..i] + [line];
        WrittenOneMore(fileLines, line);
        LastOfLast(fileLines, [line], capacity);
        LastOfLast(done, [line], capacity);
        file := file + line + [NEWLINE];
        persisted := persisted + 1;
        linesInFile := linesInFile + 1;
        kept := PushBack(kept, line, capacity);
        done, fileLines := done + [line], fileLines + [line];
      }
    }

    // `rewrite` with the lines kept.
    method Compact()
      requires Filed()
      modifies this`file, this`linesInFile, this`fileLines
      ensures Filed() && fileLines == old(kept) && linesInFile <= capacity
    {
      hide Written;
      file := Written(kept);
      fileLines := kept;
      linesInFile := |kept|;
    }

    /** `close`: the writer goes on until the queue is empty. */
    method Flush(next: nat -> nat)
      requires Valid() && persistent
      modifies this
      ensures Valid() && queue == [] && persisted == old(persisted) + |old(queue)|
      ensures ring == old(ring) && log == old(log) && persistDropped == old(persistDropped)
    {
      while queue != []
        invariant Valid() && persisted + |queue| == old(persisted) + |old(queue)|
        invariant ring == old(ring) && log == old(log) && persistDropped == old(persistDropped)
        decreases |queue|
      {
        var n := next(|queue|);
        WriteBatch(if 0 < n <= |queue| then n else |queue|);
      }
    }

    /** `query` */
    method Find(q: Query) returns (page: Page)
      ensures var limit := if q.limit == 0 then 1_000 else if q.limit <= 10_000 then q.limit else 10_000;
              && page.entries == Last(Matching(q, ring), limit)
              && (page.truncated <==> |Matching(q, ring)| > limit)
    {
      hide Matches;
      var limit := EffectiveLimit(q);
      var newestFirst: seq<Entry> := [];
      var i := |ring|;
      assert ring[|ring|..] == [];
      while i > 0
        invariant 0 <= i <= |ring|
        invariant Reversed(newestFirst) == Matching(q, ring[i..]) && |newestFirst| <= limit
      {
        var e := ring[i - 1];
        assert ring[i - 1..] == [e] + ring[i..];
        if Matches(q, e) {
          if |newestFirst| == limit {
            MatchingAppend(q, ring[..i - 1], ring[i - 1..]);
            assert ring == ring[..i - 1] + ring[i - 1..];
            return Page(Reversed(newestFirst), true);
          }
          assert Reversed(newestFirst + [e]) == [e] + Reversed(newestFirst);
          newestFirst := newestFirst + [e];
        }
        i := i - 1;
      }
      assert ring[0..] == ring;
      return Page(Reversed(newestFirst), false);
    }
  }

  lemma ReloadNothing(json: FromJson)
    ensures Reload(json, []) == []
  {
  }

  lemma LinesOneMore(entries: seq<Entry>, e: Entry)
    ensures Lines(entries + [e]) == Lines(entries) + [e.json]
  {
  }

  lemma WrittenOneMore(lines: seq<Line>, line: Line)
    ensures Written(lines + [line]) == Written(lines) + line + [10]
  {
    WrittenAppend(lines, [line]);
  }

  // ---------------------------------------------------------------------------------------
  // Restart
  // ---------------------------------------------------------------------------------------

  /** What `open` would load from this file. */
  function Reopened(json: FromJson, trim: Trim, file: Octets, capacity: nat): seq<Entry> {
    Reload(json, Last(ReadLines(trim, file), capacity))
  }

  /**
   Restart: with everything queued written and no write dropped, the last `capacity` lines of the file
   are the ring, whatever was recorded, batched and compacted before.
   */
  lemma FileEndsWithTheRing(store: HistoryStore)
    requires store.Valid() && store.persistent && store.persistDropped == 0 && store.queue == []
    ensures store.file == Written(store.fileLines)
    ensures Last(store.fileLines, store.capacity) == Lines(store.ring)
    ensures |store.fileLines| < 2 * store.capacity
  {
    hide Written, Genuine;
    assert store.done + store.queue == store.done;
    assert Last(Lines(store.log), store.capacity) == Lines(store.ring);
  }

  /**
   Opening the file again rebuilds the same ring if and only if every message in the ring is
   persistable: one line of at most 256 KiB that trimming leaves as it is.
   */
  lemma RestartRebuildsTheRing(store: HistoryStore)
    requires Lawful(store.trim)
    requires store.Valid() && store.persistent && store.persistDropped == 0 && store.queue == []
    ensures Reopened(store.json, store.trim, store.file, store.capacity) == store.ring
        <==> forall i :: 0 <= i < |store.ring| ==> Persistable(store.trim, store.ring[i].json)
  {
    hide ReadLines, Written, Persistable, Lawful, Reload;
    FileEndsWithTheRing(store);
    var json, trim, ring, capacity := store.json, store.trim, store.ring, store.capacity;
    var back := Last(ReadLines(trim, store.file), capacity);
    NewestComeBack(trim, store.fileLines, capacity);
    assert Genuine(json, ring);
    ReloadGenuine(json, ring);
    forall i | 0 <= i < |ring| && Reload(json, back) == ring
      ensures Persistable(trim, ring[i].json)
    {
      assert Lines(ring)[i] == ring[i].json;
      ReloadLines(json, back);
      OnlyPersistableAreRead(trim, store.file);
    }
    if forall i :: 0 <= i < |ring| ==> Persistable(trim, ring[i].json) {
      assert forall l :: l in Lines(ring) ==> Persistable(trim, l);
    }
  }
}
