/**
 Reading an orbit ephemeris message in its keyword form.  How a line splits into words, how a word
 reads as a number and how a date becomes a time are parameters (`Readers`); everything that decides
 whether the message is accepted, and what ephemeris it becomes, is here.
 */
module OemParsing {
  import opened Instants
  import opened Octets
  import opened Oem

  type Entry = (string, string)

  /** `kvn`, `split_whitespace`, `parse_epoch` and the number parsers. */
  datatype Readers = Readers(
    entry: string -> Option<Entry>,
    words: string -> seq<string>,
    epoch: (string, TimeSystem) -> Option<Instant>,
    number: string -> Option<real>,
    degree: string -> Option<nat>)

  /** `SegmentBuilder` */
  datatype Draft = Draft(
    objectName: string,
    objectId: string,
    frame: ReferenceFrame,
    timeSystem: TimeSystem,
    degree: nat,
    start: Instant,
    stop: Instant,
    useableStart: Option<Instant>,
    useableStop: Option<Instant>,
    epochs: seq<Instant>,
    states: seq<seq<real>>)

  predicate ValidDraft(d: Draft) {
    && |d.epochs| == |d.states| && Increasing(d.epochs) && 1 <= d.degree <= 15
    && forall i :: 0 <= i < |d.states| ==> |d.states[i]| == 6
  }

  // ---------------------------------------------------------------------------------------
  // Metadata
  // ---------------------------------------------------------------------------------------

  // `to_ascii_uppercase`
  function Upper(s: string): string {
    seq(|s|, i requires 0 <= i < |s| => if 'a' <= s[i] <= 'z' then s[i] - 'a' + 'A' else s[i])
  }

  /** The value of the first entry with this keyword. */
  function Lookup(meta: seq<Entry>, keyword: string): Option<string> {
    if meta == [] then None
    else if meta[0].0 == keyword then Some(meta[0].1)
    else Lookup(meta[1..], keyword)
  }

  // The entry at `i` is the first with this keyword.
  predicate IsFirst(meta: seq<Entry>, keyword: string, i: nat) {
    i < |meta| && meta[i].0 == keyword && forall j :: 0 <= j < i ==> meta[j].0 != keyword
  }

  /** A keyword is found exactly when it is there, and of several entries with it the first one counts. */
  lemma {:induction false} LookupFindsTheFirst(meta: seq<Entry>, keyword: string)
    ensures Lookup(meta, keyword).None? <==> forall i :: 0 <= i < |meta| ==> meta[i].0 != keyword
    ensures forall i: nat :: IsFirst(meta, keyword, i) ==> Lookup(meta, keyword) == Some(meta[i].1)
  {
    if meta != [] && meta[0].0 != keyword {
      LookupFindsTheFirst(meta[1..], keyword);
      assert forall i :: 1 <= i < |meta| ==> meta[i] == meta[1..][i - 1];
      forall i: nat | IsFirst(meta, keyword, i) ensures Lookup(meta, keyword) == Some(meta[i].1) {
        assert IsFirst(meta[1..], keyword, i - 1);
      }
    }
  }

  // `value` is `name`, which has no small letters, in letters of either case.
  predicate Spells(value: string, name: string) {
    && |value| == |name|
    && forall i :: 0 <= i < |name| ==>
         value[i] == name[i] || ('A' <= name[i] <= 'Z' && value[i] as int == name[i] as int + 32)
  }

  predicate NoSmallLetters(name: string) {
    forall i :: 0 <= i < |name| ==> !('a' <= name[i] <= 'z')
  }

  lemma UpperSpells(value: string, name: string)
    requires NoSmallLetters(name)
    ensures Upper(value) == name <==> Spells(value, name)
  {
    if Upper(value) == name {
      forall i | 0 <= i < |name|
        ensures value[i] == name[i] || ('A' <= name[i] <= 'Z' && value[i] as int == name[i] as int + 32)
      {
        assert name[i] == Upper(value)[i];
      }
    }
    if Spells(value, name) {
      forall i | 0 <= i < |name| ensures Upper(value)[i] == name[i] {
      }
    }
  }

  function Required(meta: seq<Entry>, segment: nat, keyword: string): Result<string, OemError> {
    match Lookup(meta, keyword)
    case Some(v) => Ok(v)
    case None => Err(MissingKeyword(segment, keyword))
  }

  function Frame(name: string): Option<ReferenceFrame> {
    if name == "GCRF" || name == "ICRF" then Some(Gcrf)
    else if name == "EME2000" || name == "J2000" then Some(Eme2000)
    else if name == "TEME" then Some(Teme)
    else if "ITRF" <= name then Some(Itrf)
    else None
  }

  function System(name: string): Option<TimeSystem> {
    if name == "UTC" then Some(Utc)
    else if name == "TAI" then Some(Tai)
    else if name == "TT" then Some(Tt)
    else if name == "GPS" then Some(Gps)
    else None
  }

  /** The values of REF_FRAME that stand for a frame. */
  predicate NamesFrame(value: string, frame: ReferenceFrame) {
    match frame
    case Gcrf => Spells(value, "GCRF") || Spells(value, "ICRF")
    case Eme2000 => Spells(value, "EME2000") || Spells(value, "J2000")
    case Teme => Spells(value, "TEME")
    case Itrf => |value| >= 4 && Spells(value[..4], "ITRF")
  }

  /** The values of TIME_SYSTEM that stand for a time system. */
  predicate NamesSystem(value: string, system: TimeSystem) {
    match system
    case Utc => Spells(value, "UTC")
    case Tai => Spells(value, "TAI")
    case Tt => Spells(value, "TT")
    case Gps => Spells(value, "GPS")
  }

  lemma FramesAreNamed(value: string, frame: ReferenceFrame)
    ensures Frame(Upper(value)) == Some(frame) <==> NamesFrame(value, frame)
  {
    hide Upper, Spells;
    UpperSpells(value, "GCRF");
    UpperSpells(value, "ICRF");
    UpperSpells(value, "EME2000");
    UpperSpells(value, "J2000");
    UpperSpells(value, "TEME");
    UpperStarts(value);
  }

  // A name that starts with ITRF is none of the others.
  lemma UpperStarts(value: string)
    ensures "ITRF" <= Upper(value) <==> |value| >= 4 && Spells(value[..4], "ITRF")
    ensures "ITRF" <= Upper(value) ==> Upper(value) != "GCRF" && Upper(value) != "ICRF" && Upper(value) != "TEME"
    ensures "ITRF" <= Upper(value) ==> Upper(value) != "EME2000" && Upper(value) != "J2000"
  {
    if |value| >= 4 {
      UpperSpells(value[..4], "ITRF");
      assert Upper(value)[..4] == Upper(value[..4]);
      assert "ITRF"[1] == 'T' && "GCRF"[1] == 'C' && "ICRF"[1] == 'C' && "TEME"[1] == 'E';
      assert "EME2000"[0] == 'E' && "J2000"[0] == 'J' && "ITRF"[0] == 'I';
    }
  }

  lemma SystemsAreNamed(value: string, system: TimeSystem)
    ensures System(Upper(value)) == Some(system) <==> NamesSystem(value, system)
  {
    hide Upper, Spells;
    UpperSpells(value, "UTC");
    UpperSpells(value, "TAI");
    UpperSpells(value, "TT");
    UpperSpells(value, "GPS");
    assert "UTC"[0] == 'U' && "TAI"[0] == 'T' && "GPS"[0] == 'G' && |"TT"| == 2;
  }

  function RequiredTime(
      r: Readers, meta: seq<Entry>, segment: nat, keyword: string, system: TimeSystem): Result<Instant, OemError> {
    var v :- Required(meta, segment, keyword);
    match r.epoch(v, system)
    case Some(t) => Ok(t)
    case None => Err(BadSegment(segment))
  }

  function OptionalTime(
      r: Readers, meta: seq<Entry>, segment: nat, keyword: string, system: TimeSystem)
      : Result<Option<Instant>, OemError>
  {
    match Lookup(meta, keyword)
    case None => Ok(None)
    case Some(v) =>
      match r.epoch(v, system)
      case Some(t) => Ok(Some(t))
      case None => Err(BadSegment(segment))
  }

  function Degree(r: Readers, meta: seq<Entry>, segment: nat): (d: Result<nat, OemError>)
    ensures d.Ok? ==> 1 <= d.value <= 15
  {
    match Lookup(meta, "INTERPOLATION_DEGREE")
    case Some(v) =>
      (match r.degree(v)
       case Some(n) => if 1 <= n <= 15 then Ok(n) else Err(BadSegment(segment))
       case None => Err(BadSegment(segment)))
    case None =>
      var kind := Lookup(meta, "INTERPOLATION");
      if kind.Some? && Upper(kind.value) == "LINEAR" then Ok(1) else Ok(7)
  }

  function Or<T>(o: Option<T>, default: T): T {
    if o.Some? then o.value else default
  }

  /** `from_meta` */
  function FromMeta(r: Readers, meta: seq<Entry>, segment: nat): (d: Result<Draft, OemError>)
    ensures d.Ok? ==> ValidDraft(d.value) && d.value.epochs == []
  {
    var center :- Required(meta, segment, "CENTER_NAME");
    if Upper(center) != "EARTH" then Err(UnsupportedCenter(segment)) else
    var frameName :- Required(meta, segment, "REF_FRAME");
    var frame := Frame(Upper(frameName));
    if frame.None? then Err(UnsupportedFrame(segment)) else
    var systemName :- Required(meta, segment, "TIME_SYSTEM");
    var system := System(Upper(systemName));
    if system.None? then Err(UnsupportedTimeSystem(segment)) else
    var start :- RequiredTime(r, meta, segment, "START_TIME", system.value);
    var stop :- RequiredTime(r, meta, segment, "STOP_TIME", system.value);
    var useableStart :- OptionalTime(r, meta, segment, "USEABLE_START_TIME", system.value);
    var useableStop :- OptionalTime(r, meta, segment, "USEABLE_STOP_TIME", system.value);
    var degree :- Degree(r, meta, segment);
    Ok(Draft(Or(Lookup(meta, "OBJECT_NAME"), "UNKNOWN"), Or(Lookup(meta, "OBJECT_ID"), "UNKNOWN"),
             frame.value, system.value, degree, start, stop, useableStart, useableStop, [], []))
  }

  // What a present time says, or that it is absent.
  predicate TimeReads(r: Readers, v: Option<string>, system: TimeSystem, t: Option<Instant>) {
    if v.Some? then t.Some? && r.epoch(v.value, system) == t else t.None?
  }

  predicate IsNamed(name: string, v: Option<string>) {
    name == match v case Some(n) => n case None => "UNKNOWN"
  }

  /** The metadata describe the draft `d`. */
  predicate Describes(r: Readers, meta: seq<Entry>, d: Draft) {
    var center, frame, system := Lookup(meta, "CENTER_NAME"), Lookup(meta, "REF_FRAME"), Lookup(meta, "TIME_SYSTEM");
    var start, stop := Lookup(meta, "START_TIME"), Lookup(meta, "STOP_TIME");
    var degree := Lookup(meta, "INTERPOLATION_DEGREE");
    && center.Some? && Spells(center.value, "EARTH")
    && frame.Some? && NamesFrame(frame.value, d.frame)
    && system.Some? && NamesSystem(system.value, d.timeSystem)
    && start.Some? && r.epoch(start.value, d.timeSystem) == Some(d.start)
    && stop.Some? && r.epoch(stop.value, d.timeSystem) == Some(d.stop)
    && TimeReads(r, Lookup(meta, "USEABLE_START_TIME"), d.timeSystem, d.useableStart)
    && TimeReads(r, Lookup(meta, "USEABLE_STOP_TIME"), d.timeSystem, d.useableStop)
    && (degree.Some? ==> r.degree(degree.value) == Some(d.degree) && 1 <= d.degree <= 15)
    && (degree.None? ==>
          var kind := Lookup(meta, "INTERPOLATION");
          d.degree == if kind.Some? && Spells(kind.value, "LINEAR") then 1 else 7)
    && IsNamed(d.objectName, Lookup(meta, "OBJECT_NAME"))
    && IsNamed(d.objectId, Lookup(meta, "OBJECT_ID"))
    && d.epochs == [] && d.states == []
  }

  /** Metadata are accepted, as a draft, exactly when they describe it; the segment's number is no matter. */
  lemma MetadataDescribeTheDraft(r: Readers, meta: seq<Entry>, segment: nat, d: Draft)
    ensures FromMeta(r, meta, segment) == Ok(d) <==> Describes(r, meta, d)
  {
    hide Lookup, Upper, Frame, System, Spells, NamesFrame, NamesSystem;
    SpellingsOf(Lookup(meta, "CENTER_NAME"), Lookup(meta, "INTERPOLATION"));
    NamesOf(Lookup(meta, "REF_FRAME"), Lookup(meta, "TIME_SYSTEM"), d);
  }

  lemma SpellingsOf(center: Option<string>, kind: Option<string>)
    ensures center.Some? ==> (Upper(center.value) == "EARTH" <==> Spells(center.value, "EARTH"))
    ensures kind.Some? ==> (Upper(kind.value) == "LINEAR" <==> Spells(kind.value, "LINEAR"))
  {
    hide Upper, Spells;
    if center.Some? {
      UpperSpells(center.value, "EARTH");
    }
    if kind.Some? {
      UpperSpells(kind.value, "LINEAR");
    }
  }

  lemma NamesOf(frame: Option<string>, system: Option<string>, d: Draft)
    ensures frame.Some? ==> (Frame(Upper(frame.value)) == Some(d.frame) <==> NamesFrame(frame.value, d.frame))
    ensures system.Some? ==>
        (System(Upper(system.value)) == Some(d.timeSystem) <==> NamesSystem(system.value, d.timeSystem))
  {
    hide *;
    if frame.Some? {
      FramesAreNamed(frame.value, d.frame);
    }
    if system.Some? {
      SystemsAreNamed(system.value, d.timeSystem);
    }
  }

  // ---------------------------------------------------------------------------------------
  // Data lines and the end of a segment
  // ---------------------------------------------------------------------------------------

  /** All the numbers, or nothing if one word is not a number. */
  function Numbers(r: Readers, words: seq<string>): (ns: Option<seq<real>>)
    ensures ns.Some? <==> forall i :: 0 <= i < |words| ==> r.number(words[i]).Some?
    ensures ns.Some? ==> |ns.value| == |words|
    ensures ns.Some? ==> forall i :: 0 <= i < |words| ==> ns.value[i] == r.number(words[i]).value
  {
    if words == [] then Some([])
    else
      var n, rest := r.number(words[0]), Numbers(r, words[1..]);
      if n.Some? && rest.Some? then Some([n.value] + rest.value) else None
  }

  /** The words of a data line: an epoch, six numbers, and three accelerations or none. */
  predicate IsDataLine(r: Readers, system: TimeSystem, words: seq<string>) {
    && (|words| == 7 || |words| == 10)
    && r.epoch(words[0], system).Some?
    && forall i :: 1 <= i < |words| ==> r.number(words[i]).Some?
  }

  /** The words say this epoch, and these six components in the order they are written. */
  predicate WordsSay(r: Readers, system: TimeSystem, words: seq<string>, epoch: Instant, state: seq<real>) {
    && IsDataLine(r, system, words)
    && epoch == r.epoch(words[0], system).value
    && |state| == 6
    && forall c :: 0 <= c < 6 ==> state[c] == r.number(words[1 + c]).value
  }

  /** A data line: its time and its state. */
  function DataLine(r: Readers, system: TimeSystem, line: string): (p: Option<(Instant, seq<real>)>)
    ensures p.Some? <==> IsDataLine(r, system, r.words(line))
    ensures p.Some? ==> WordsSay(r, system, r.words(line), p.value.0, p.value.1)
  {
    var words := r.words(line);
    if words == [] then None else
    var epoch, numbers := r.epoch(words[0], system), Numbers(r, words[1..]);
    assert forall i :: 1 <= i < |words| ==> words[1..][i - 1] == words[i];
    if epoch.Some? && numbers.Some? && (|numbers.value| == 6 || |numbers.value| == 9)
    then Some((epoch.value, numbers.value[..6])) else None
  }

  lemma DataLineReads(r: Readers, system: TimeSystem, line: string, epoch: Instant, state: seq<real>)
    requires WordsSay(r, system, r.words(line), epoch, state)
    ensures DataLine(r, system, line) == Some((epoch, state))
  {
    hide DataLine;
    var p := DataLine(r, system, line);
    assert p.value.1 == state;
  }

  /** The line is a data line whose epoch is later than the last one. */
  predicate Continues(r: Readers, d: Draft, line: string) {
    var words := r.words(line);
    && IsDataLine(r, d.timeSystem, words)
    && (d.epochs != [] ==> Rank(d.epochs[|d.epochs| - 1]) < Rank(r.epoch(words[0], d.timeSystem).value))
  }

  /** `push_data` */
  function AddData(r: Readers, d: Draft, number: nat, line: string): (p: Result<Draft, OemError>)
    requires ValidDraft(d)
    ensures p.Ok? <==> Continues(r, d, line)
    ensures p.Err? ==> p.error == Syntax(number)
    ensures p.Ok? ==> ValidDraft(p.value) && p.value == d.(epochs := p.value.epochs, states := p.value.states)
    ensures p.Ok? ==>
        && p.value.epochs == d.epochs + [r.epoch(r.words(line)[0], d.timeSystem).value]
        && |p.value.states| == |d.states| + 1 && p.value.states[..|d.states|] == d.states
        && forall c :: 0 <= c < 6 ==> p.value.states[|d.states|][c] == r.number(r.words(line)[1 + c]).value
  {
    match DataLine(r, d.timeSystem, line)
    case None => Err(Syntax(number))
    case Some((epoch, state)) =>
      if d.epochs != [] && Rank(epoch) <= Rank(d.epochs[|d.epochs| - 1]) then Err(Syntax(number))
      else
        assert d.epochs != [] ==>
            forall i :: 0 <= i < |d.epochs| - 1 ==> Rank(d.epochs[i]) < Rank(d.epochs[|d.epochs| - 1]);
        Ok(d.(epochs := d.epochs + [epoch], states := d.states + [state]))
  }

  function Max(a: Instant, b: Instant): Instant {
    if Rank(a) >= Rank(b) then a else b
  }

  function Min(a: Instant, b: Instant): Instant {
    if Rank(a) <= Rank(b) then a else b
  }

  /** `finish` */
  function Finish(d: Draft, segment: nat): (s: Result<Segment, OemError>)
    requires ValidDraft(d)
    ensures s.Ok? ==> ValidSegment(s.value)
  {
    if |d.states| < 2 then Err(BadSegment(segment)) else
    var start := Max(Or(d.useableStart, d.start), d.epochs[0]);
    var stop := Min(Or(d.useableStop, d.stop), d.epochs[|d.epochs| - 1]);
    if Rank(start) >= Rank(stop) then Err(BadSegment(segment))
    else Ok(Segment(d.objectName, d.objectId, d.frame, d.timeSystem, d.degree, start, stop, d.epochs, d.states))
  }

  predicate IsLater(t: Instant, a: Instant, b: Instant) {
    (t == a || t == b) && Rank(a) <= Rank(t) && Rank(b) <= Rank(t)
  }

  predicate IsEarlier(t: Instant, a: Instant, b: Instant) {
    (t == a || t == b) && Rank(t) <= Rank(a) && Rank(t) <= Rank(b)
  }

  /** The usable time: the useable times if there are any, otherwise all of it, but no more than the data. */
  predicate IsUsable(d: Draft, start: Instant, stop: Instant) {
    && d.epochs != []
    && IsLater(start, if d.useableStart.Some? then d.useableStart.value else d.start, d.epochs[0])
    && IsEarlier(stop, if d.useableStop.Some? then d.useableStop.value else d.stop, d.epochs[|d.epochs| - 1])
  }

  /** A draft becomes a segment exactly when it has two states and a usable time that is not empty. */
  lemma FinishedExactly(d: Draft, segment: nat, s: Segment)
    requires ValidDraft(d)
    ensures Finish(d, segment) == Ok(s) <==>
        && |d.states| >= 2 && IsUsable(d, s.start, s.stop) && Rank(s.start) < Rank(s.stop)
        && s.objectName == d.objectName && s.objectId == d.objectId && s.frame == d.frame
        && s.timeSystem == d.timeSystem && s.degree == d.degree && s.epochs == d.epochs && s.states == d.states
    ensures Finish(d, segment).Err? ==> Finish(d, segment).error == BadSegment(segment)
  {
    hide Rank;
    if |d.states| >= 2 {
      LaterIsMax(s.start, Or(d.useableStart, d.start), d.epochs[0]);
      EarlierIsMin(s.stop, Or(d.useableStop, d.stop), d.epochs[|d.epochs| - 1]);
    }
  }

  lemma LaterIsMax(t: Instant, a: Instant, b: Instant)
    ensures t == Max(a, b) <==> IsLater(t, a, b)
  {
    RankIsOrder(a, b);
  }

  lemma EarlierIsMin(t: Instant, a: Instant, b: Instant)
    ensures t == Min(a, b) <==> IsEarlier(t, a, b)
  {
    RankIsOrder(a, b);
  }

  // ---------------------------------------------------------------------------------------
  // The message
  // ---------------------------------------------------------------------------------------

  /** What the line loop carries: finished segments, open metadata, the open segment, the skipping flag. */
  datatype Progress = Progress(
    segments: seq<Segment>,
    meta: Option<seq<Entry>>,
    current: Option<Draft>,
    inCovariance: bool)

  predicate ValidProgress(p: Progress) {
    AllValid(p.segments) && (p.current.Some? ==> ValidDraft(p.current.value))
  }

  const NOTHING_READ: Progress := Progress([], None, None, false)

  /** Finishes the open segment, if there is one. */
  function Close(p: Progress): (q: Result<Progress, OemError>)
    requires ValidProgress(p)
    ensures q.Ok? ==> ValidProgress(q.value) && q.value.current.None?
  {
    match p.current
    case None => Ok(p)
    case Some(d) =>
      var s :- Finish(d, |p.segments| + 1);
      Ok(p.(segments := p.segments + [s], current := None))
  }

  /** One line, neither blank nor a comment. */
  function Step(r: Readers, p: Progress, number: nat, line: string): (q: Result<Progress, OemError>)
    requires ValidProgress(p)
    ensures q.Ok? ==> ValidProgress(q.value)
  {
    if p.inCovariance then Ok(p.(inCovariance := line != "COVARIANCE_STOP"))
    else if line == "META_START" then
      var closed :- Close(p);
      Ok(closed.(meta := Some([])))
    else if line == "META_STOP" then
      (match p.meta
       case None => Err(Syntax(number))
       case Some(meta) =>
         var d :- FromMeta(r, meta, |p.segments| + 1);
         Ok(p.(meta := None, current := Some(d))))
    else if line == "COVARIANCE_START" then Ok(p.(inCovariance := true))
    else
      match (p.meta, p.current)
      case (Some(meta), _) =>
        (match r.entry(line)
         case None => Err(Syntax(number))
         case Some(e) => Ok(p.(meta := Some(meta + [e]))))
      case (None, Some(d)) =>
        var d' :- AddData(r, d, number, line);
        Ok(p.(current := Some(d')))
      case (None, None) => if r.entry(line).None? then Err(Syntax(number)) else Ok(p)
  }

  /** Blank lines and comments, which do not reach the loop. */
  predicate Skipped(line: string) {
    line == "" || "COMMENT" <= line
  }

  /** Lines `from..end` of the text. */
  function Steps(r: Readers, text: seq<string>, from: nat, end: nat): (q: Result<Progress, OemError>)
    requires from <= end <= |text|
    ensures q.Ok? ==> ValidProgress(q.value)
    decreases end
  {
    if from == end then Ok(NOTHING_READ)
    else
      var p :- Steps(r, text, from, end - 1);
      if Skipped(text[end - 1]) then Ok(p) else Step(r, p, end, text[end - 1])
  }

  /** The first line that is neither blank nor a comment. */
  function FirstLine(text: seq<string>): (n: nat)
    ensures n <= |text|
    ensures forall i :: 0 <= i < n ==> Skipped(text[i])
    ensures n < |text| ==> !Skipped(text[n])
  {
    if text == [] || !Skipped(text[0]) then 0 else 1 + FirstLine(text[1..])
  }

  predicate IsVersion(r: Readers, line: string) {
    var e := r.entry(line);
    e.Some? && e.value.0 == "CCSDS_OEM_VERS"
  }

  // After the last line.
  function Conclude(p: Progress, lines: nat): (segments: Result<seq<Segment>, OemError>)
    requires ValidProgress(p)
    ensures segments.Ok? ==> segments.value != [] && AllValid(segments.value)
  {
    if p.meta.Some? then Err(Syntax(lines)) else
    var closed :- Close(p);
    if closed.segments == [] then Err(Empty) else Ok(closed.segments)
  }

  /** `parse`: `text` is the trimmed lines. */
  function Parse(r: Readers, text: seq<string>): (segments: Result<seq<Segment>, OemError>)
    ensures segments.Ok? ==> segments.value != [] && AllValid(segments.value)
  {
    var head := FirstLine(text);
    if head == |text| || !IsVersion(r, text[head]) then Err(NotOem) else
    var p :- Steps(r, text, head + 1, |text|);
    Conclude(p, |text|)
  }

  // ---------------------------------------------------------------------------------------
  // The loop
  // ---------------------------------------------------------------------------------------

  /** `SegmentBuilder`, as the loop holds it: the metadata and the two growing vectors. */
  class SegmentBuilder {
    const meta: Draft
    var epochs: seq<Instant>
    var states: seq<seq<real>>

    function Value(): Draft
      reads this
    {
      meta.(epochs := epochs, states := states)
    }

    constructor (d: Draft)
      ensures Value() == d
    {
      meta, epochs, states := d, d.epochs, d.states;
    }

    method PushData(r: Readers, number: nat, line: string) returns (error: Option<OemError>)
      requires ValidDraft(Value())
      modifies this
      ensures error == match AddData(r, old(Value()), number, line) case Ok(_) => None case Err(e) => Some(e)
      ensures Value() == match AddData(r, old(Value()), number, line) case Ok(d) => d case Err(_) => old(Value())
      ensures error.None? <==> Continues(r, old(Value()), line)
      ensures error.Some? ==> error.value == Syntax(number) && epochs == old(epochs) && states == old(states)
      ensures error.None? ==>
          && epochs == old(epochs) + [r.epoch(r.words(line)[0], meta.timeSystem).value]
          && |states| == |old(states)| + 1 && states[..|old(states)|] == old(states)
          && forall c :: 0 <= c < 6 ==> states[|old(states)|][c] == r.number(r.words(line)[1 + c]).value
    {
      var read := DataLine(r, meta.timeSystem, line);
      if read.None? {
        return Some(Syntax(number));
      }
      var (epoch, state) := read.value;
      if epochs != [] && Rank(epoch) <= Rank(epochs[|epochs| - 1]) {
        return Some(Syntax(number));
      }
      epochs, states := epochs + [epoch], states + [state];
      return None;
    }
  }

  /** `parse`, with its loop over the lines and its four variables. */
  method ParseMessage(r: Readers, text: seq<string>) returns (result: Result<seq<Segment>, OemError>)
    ensures result == Parse(r, text)
  {
    hide Finish, FromMeta, AddData, ValidDraft, AllValid, Steps, Skipped;
    var head := FirstLine(text);
    if head == |text| || !IsVersion(r, text[head]) {
      return Err(NotOem);
    }
    var segments: seq<Segment> := [];
    var meta: Option<seq<Entry>> := None;
    var current: SegmentBuilder? := null;
    var inCovariance := false;
    NoLines(r, text, head + 1);
    for i := head + 1 to |text|
      invariant Steps(r, text, head + 1, i)
          == Ok(Progress(segments, meta, if current == null then None else Some(current.Value()), inCovariance))
      invariant current != null ==> fresh(current)
    {
      var line := text[i];
      ghost var p := Progress(segments, meta, if current == null then None else Some(current.Value()), inCovariance);
      OneMoreLine(r, text, i, p);
      if Skipped(line) {
        continue;
      }
      if inCovariance {
        inCovariance := line != "COVARIANCE_STOP";
      } else if line == "META_START" {
        if current != null {
          var finished := Finish(current.Value(), |segments| + 1);
          if finished.Err? {
            return Err(finished.error);
          }
          segments, current := segments + [finished.value], null;
        }
        meta := Some([]);
      } else if line == "META_STOP" {
        if meta.None? {
          return Err(Syntax(i + 1));
        }
        var draft := FromMeta(r, meta.value, |segments| + 1);
        if draft.Err? {
          return Err(draft.error);
        }
        meta := None;
        current := new SegmentBuilder(draft.value);
      } else if line == "COVARIANCE_START" {
        inCovariance := true;
      } else if meta.Some? {
        var e := r.entry(line);
        if e.None? {
          return Err(Syntax(i + 1));
        }
        meta := Some(meta.value + [e.value]);
      } else if current != null {
        var error := current.PushData(r, i + 1, line);
        if error.Some? {
          return Err(error.value);
        }
      } else if r.entry(line).None? {
        return Err(Syntax(i + 1));
      }
    }
    if meta.Some? {
      return Err(Syntax(|text|));
    }
    if current != null {
      var finished := Finish(current.Value(), |segments| + 1);
      if finished.Err? {
        return Err(finished.error);
      }
      segments := segments + [finished.value];
    }
    if segments == [] {
      return Err(Empty);
    }
    return Ok(segments);
  }

  lemma NoLines(r: Readers, text: seq<string>, i: nat)
    requires i <= |text|
    ensures Steps(r, text, i, i) == Ok(NOTHING_READ)
  {
  }

  // The first error is the error of the whole text.
  lemma {:induction false} ErrorsStay(r: Readers, text: seq<string>, from: nat, i: nat)
    requires from <= i <= |text| && Steps(r, text, from, i).Err?
    ensures Steps(r, text, from, |text|) == Steps(r, text, from, i)
    decreases |text| - i
  {
    hide Step;
    if i < |text| {
      ErrorsStay(r, text, from, i + 1);
    }
  }

  lemma OneMoreLine(r: Readers, text: seq<string>, i: nat, p: Progress)
    requires FirstLine(text) < i < |text| && IsVersion(r, text[FirstLine(text)])
    requires Steps(r, text, FirstLine(text) + 1, i) == Ok(p)
    ensures var next := if Skipped(text[i]) then Ok(p) else Step(r, p, i + 1, text[i]);
            && Steps(r, text, FirstLine(text) + 1, i + 1) == next
            && (next.Err? ==> Parse(r, text) == Err(next.error))
  {
    hide Step;
    if Steps(r, text, FirstLine(text) + 1, i + 1).Err? {
      ErrorsStay(r, text, FirstLine(text) + 1, i + 1);
    }
  }

  // ---------------------------------------------------------------------------------------
  // What a message says
  // ---------------------------------------------------------------------------------------

  /** The lines of one segment, without its delimiters. */
  datatype Block = Block(meta: seq<string>, data: seq<string>)

  function BlockLines(b: Block): seq<string> {
    ["META_START"] + b.meta + ["META_STOP"] + b.data
  }

  function BlocksLines(blocks: seq<Block>): seq<string> {
    if blocks == [] then []
    else BlocksLines(blocks[..|blocks| - 1]) + BlockLines(blocks[|blocks| - 1])
  }

  /** A line that is not blank, not a comment and not a delimiter. */
  predicate Plain(line: string) {
    line != "" && !("COMMENT" <= line) && line != "META_START" && line != "META_STOP" && line != "COVARIANCE_START"
  }

  predicate PlainEntries(r: Readers, lines: seq<string>) {
    forall i :: 0 <= i < |lines| ==> Plain(lines[i]) && r.entry(lines[i]).Some?
  }

  function Entries(r: Readers, lines: seq<string>): seq<Entry>
    requires PlainEntries(r, lines)
  {
    seq(|lines|, i requires 0 <= i < |lines| => r.entry(lines[i]).value)
  }

  // Line `i` of the data is epoch and state `i`.
  predicate DataSays(r: Readers, system: TimeSystem, data: seq<string>, epochs: seq<Instant>, states: seq<seq<real>>) {
    && |data| == |epochs| == |states|
    && forall i :: 0 <= i < |data| ==> Plain(data[i]) && WordsSay(r, system, r.words(data[i]), epochs[i], states[i])
  }

  /** The block, as segment `n` of a message, says `s`. */
  predicate Says(r: Readers, b: Block, s: Segment, n: nat) {
    && PlainEntries(r, b.meta)
    && DataSays(r, s.timeSystem, b.data, s.epochs, s.states)
    && Increasing(s.epochs) && |s.epochs| >= 2 && Rank(s.start) < Rank(s.stop)
    && var head := FromMeta(r, Entries(r, b.meta), n);
       && head.Ok?
       && var d := head.value;
          && s.objectName == d.objectName && s.objectId == d.objectId && s.frame == d.frame
          && s.timeSystem == d.timeSystem && s.degree == d.degree
          && IsUsable(d.(epochs := s.epochs, states := s.states), s.start, s.stop)
  }

  // Later lines do not matter to earlier steps.
  lemma {:induction false} StepsOfPrefix(r: Readers, text: seq<string>, more: seq<string>, from: nat, i: nat)
    requires from <= i <= |text|
    ensures Steps(r, text + more, from, i) == Steps(r, text, from, i)
    decreases i
  {
    hide Step;
    if from < i {
      StepsOfPrefix(r, text, more, from, i - 1);
    }
  }

  lemma MetadataAreOtherErrors(r: Readers, meta: seq<Entry>, segment: nat)
    ensures FromMeta(r, meta, segment) != Err(NotOem)
  {
    hide Lookup, Upper, Frame, System;
  }

  lemma StepIsOtherError(r: Readers, p: Progress, number: nat, line: string)
    requires ValidProgress(p)
    ensures Step(r, p, number, line) != Err(NotOem)
  {
    hide FromMeta, AddData, ValidDraft, ValidSegment;
    if p.meta.Some? {
      MetadataAreOtherErrors(r, p.meta.value, |p.segments| + 1);
    }
  }

  // Neither the metadata nor the end of a segment is blamed on a line.
  lemma SegmentsAreNotSyntax(r: Readers, p: Progress)
    requires ValidProgress(p)
    ensures p.meta.Some? ==> var d := FromMeta(r, p.meta.value, |p.segments| + 1); d.Err? ==> !d.error.Syntax?
    ensures Close(p).Err? ==> !Close(p).error.Syntax?
  {
    hide Lookup, Upper, Frame, System;
  }

  /**
   Which lines are refused, with their number: the end of metadata that have not begun, a line of
   metadata that is not an entry, a line of data that does not continue the segment, and, before the
   first segment, a line that is not an entry.
   */
  lemma LineIsRefusedExactly(r: Readers, p: Progress, number: nat, line: string)
    requires ValidProgress(p)
    ensures var q := Step(r, p, number, line);
            q.Err? && q.error.Syntax? <==>
              && !p.inCovariance
              && line != "META_START" && line != "COVARIANCE_START"
              && if line == "META_STOP" then p.meta.None?
                 else if p.meta.Some? then r.entry(line).None?
                 else if p.current.Some? then !Continues(r, p.current.value, line)
                 else r.entry(line).None?
    ensures Step(r, p, number, line).Err? && Step(r, p, number, line).error.Syntax? ==>
              Step(r, p, number, line).error == Syntax(number)
  {
    SegmentsAreNotSyntax(r, p);
    hide FromMeta, AddData, Close, ValidDraft, ValidSegment, Continues;
  }

  /** Metadata that have begun and do not end are refused, at the last line. */
  lemma UnendedMetadataAreRefused(r: Readers, text: seq<string>)
    requires FirstLine(text) < |text| && IsVersion(r, text[FirstLine(text)])
    requires Steps(r, text, FirstLine(text) + 1, |text|).Ok?
    requires Steps(r, text, FirstLine(text) + 1, |text|).value.meta.Some?
    ensures Parse(r, text) == Err(Syntax(|text|))
  {
    hide Steps, Skipped;
  }

  // No line after the first makes a text something other than a message.
  lemma {:induction false} StepsAreOtherErrors(r: Readers, text: seq<string>, from: nat, i: nat)
    requires from <= i <= |text|
    ensures Steps(r, text, from, i) != Err(NotOem)
    decreases i
  {
    hide Step, Skipped;
    if from < i {
      StepsAreOtherErrors(r, text, from, i - 1);
      if Steps(r, text, from, i - 1).Ok? {
        StepIsOtherError(r, Steps(r, text, from, i - 1).value, i, text[i - 1]);
      }
    }
  }

  lemma StepsOfLongerText(r: Readers, text: seq<string>, line: string, from: nat, p: Progress)
    requires from <= |text| && Steps(r, text, from, |text|) == Ok(p)
    ensures Steps(r, text + [line], from, |text + [line]|)
        == if Skipped(line) then Ok(p) else Step(r, p, |text| + 1, line)
  {
    hide Step;
    StepsOfPrefix(r, text, [line], from, |text|);
  }

  lemma {:induction false} MetaLines(r: Readers, text: seq<string>, from: nat, p: Progress, lines: seq<string>)
    requires from <= |text|
    requires Steps(r, text, from, |text|) == Ok(p) && p.meta == Some([]) && !p.inCovariance
    requires PlainEntries(r, lines)
    ensures Steps(r, text + lines, from, |text + lines|) == Ok(p.(meta := Some(Entries(r, lines))))
  {
    hide FromMeta, Finish, AddData, ValidProgress, Steps, Close;
    if lines == [] {
      assert Entries(r, lines) == [] && text + lines == text;
    } else {
      var n := |lines| - 1;
      MetaLines(r, text, from, p, lines[..n]);
      StepsOfLongerText(r, text + lines[..n], lines[n], from, p.(meta := Some(Entries(r, lines[..n]))));
      assert text + lines == text + lines[..n] + [lines[n]];
      assert Entries(r, lines) == Entries(r, lines[..n]) + [r.entry(lines[n]).value];
    }
  }

  lemma PlainIsKept(line: string)
    requires Plain(line)
    ensures !Skipped(line)
  {
  }

  /** A blank line or a comment, anywhere, leaves no trace. */
  lemma BlankLinesAndCommentsAreSkipped(r: Readers, text: seq<string>, from: nat, p: Progress, line: string)
    requires from <= |text| && Steps(r, text, from, |text|) == Ok(p)
    requires line == "" || "COMMENT" <= line
    ensures Steps(r, text + [line], from, |text + [line]|) == Ok(p)
  {
    StepsOfLongerText(r, text, line, from, p);
  }

  lemma DataStep(r: Readers, p: Progress, d: Draft, number: nat, line: string, epoch: Instant, state: seq<real>)
    requires ValidProgress(p) && p.meta.None? && p.current == Some(d) && !p.inCovariance
    requires Plain(line) && DataLine(r, d.timeSystem, line) == Some((epoch, state))
    requires d.epochs != [] ==> Rank(d.epochs[|d.epochs| - 1]) < Rank(epoch)
    ensures Step(r, p, number, line)
        == Ok(p.(current := Some(d.(epochs := d.epochs + [epoch], states := d.states + [state]))))
  {
    hide DataLine, FromMeta, Finish, Close, AllValid, Increasing, Skipped;
  }

  lemma {:induction false} DataLines(
      r: Readers, text: seq<string>, from: nat, p: Progress, d: Draft, lines: seq<string>, epochs: seq<Instant>,
          states: seq<seq<real>>)
    requires from <= |text|
    requires Steps(r, text, from, |text|) == Ok(p) && p.meta.None? && p.current == Some(d) && !p.inCovariance
    requires d.epochs == [] && d.states == [] && Increasing(epochs)
    requires DataSays(r, d.timeSystem, lines, epochs, states)
    ensures Steps(r, text + lines, from, |text + lines|)
        == Ok(p.(current := Some(d.(epochs := epochs, states := states))))
  {
    hide DataLine, FromMeta, Finish, Close, ValidProgress, Steps, Step, Skipped;
    if lines == [] {
      assert text + lines == text;
    } else {
      var n := |lines| - 1;
      DataLines(r, text, from, p, d, lines[..n], epochs[..n], states[..n]);
      var d' := d.(epochs := epochs[..n], states := states[..n]);
      var p' := p.(current := Some(d'));
      StepsOfLongerText(r, text + lines[..n], lines[n], from, p');
      PlainIsKept(lines[n]);
      DataLineReads(r, d.timeSystem, lines[n], epochs[n], states[n]);
      DataStep(r, p', d', |text + lines[..n]| + 1, lines[n], epochs[n], states[n]);
      assert text + lines == text + lines[..n] + [lines[n]];
      assert epochs == epochs[..n] + [epochs[n]] && states == states[..n] + [states[n]];
    }
  }

  lemma DelimitersAreKept()
    ensures !Skipped("META_START") && !Skipped("META_STOP")
  {
    assert "META_START"[0] != "COMMENT"[0] && "META_STOP"[0] != "COMMENT"[0];
  }

  // One block: it closes the segment before it, and leaves its own open.
  lemma BlockIsRead(r: Readers, text: seq<string>, from: nat, p: Progress, b: Block, s: Segment)
    requires from <= |text| && Steps(r, text, from, |text|) == Ok(p) && p.meta.None? && !p.inCovariance
    requires Close(p).Ok? && Says(r, b, s, |Close(p).value.segments| + 1)
    ensures var q := Steps(r, text + BlockLines(b), from, |text + BlockLines(b)|);
            && q.Ok? && q.value.meta.None? && q.value.current.Some? && !q.value.inCovariance
            && q.value.segments == Close(p).value.segments
            && Finish(q.value.current.value, |q.value.segments| + 1) == Ok(s)
  {
    hide FromMeta, DataSays, PlainEntries, AddData, Steps, Skipped, Finish, IsUsable;
    DelimitersAreKept();
    var closed, d := Close(p).value, FromMeta(r, Entries(r, b.meta), |Close(p).value.segments| + 1).value;
    var entries := Entries(r, b.meta);
    StepsOfLongerText(r, text, "META_START", from, p);
    var t1, p1 := text + ["META_START"], closed.(meta := Some([]));
    assert Steps(r, t1, from, |t1|) == Ok(p1) by {
      hide Says, Finish;
    }
    MetaLines(r, t1, from, p1, b.meta);
    var t2, p2 := t1 + b.meta, p1.(meta := Some(entries));
    StepsOfLongerText(r, t2, "META_STOP", from, p2);
    var t3, p3 := t2 + ["META_STOP"], p2.(meta := None, current := Some(d));
    assert Steps(r, t3, from, |t3|) == Ok(p3) by {
      hide Finish, Close;
    }
    DataLines(r, t3, from, p3, d, b.data, s.epochs, s.states);
    assert t3 + b.data == text + BlockLines(b);
    var full := d.(epochs := s.epochs, states := s.states);
    FinishedExactly(full, |closed.segments| + 1, s);
  }

  // Inside a covariance block.
  lemma {:induction false} CovarianceGoesOn(r: Readers, text: seq<string>, from: nat, p: Progress, body: seq<string>)
    requires from <= |text| && Steps(r, text, from, |text|) == Ok(p) && p.inCovariance
    requires "COVARIANCE_STOP" !in body
    ensures Steps(r, text + body, from, |text + body|) == Ok(p)
  {
    hide Steps, Skipped, FromMeta, AddData, Close;
    if body == [] {
      assert text + body == text;
    } else {
      var n := |body| - 1;
      CovarianceGoesOn(r, text, from, p, body[..n]);
      StepsOfLongerText(r, text + body[..n], body[n], from, p);
      assert text + body == text + body[..n] + [body[n]];
    }
  }

  /** A covariance block, anywhere, leaves no trace, whatever lines are in it. */
  lemma CovarianceIsSkipped(r: Readers, text: seq<string>, from: nat, p: Progress, body: seq<string>)
    requires from <= |text| && Steps(r, text, from, |text|) == Ok(p) && !p.inCovariance
    requires "COVARIANCE_STOP" !in body
    ensures var longer := text + ["COVARIANCE_START"] + body + ["COVARIANCE_STOP"];
            Steps(r, longer, from, |longer|) == Ok(p)
  {
    hide Steps, Skipped, FromMeta, AddData, Close;
    assert !Skipped("COVARIANCE_START") && !Skipped("COVARIANCE_STOP") by {
      CovarianceLinesAreKept();
    }
    StepsOfLongerText(r, text, "COVARIANCE_START", from, p);
    var inside := text + ["COVARIANCE_START"];
    CovarianceGoesOn(r, inside, from, p.(inCovariance := true), body);
    StepsOfLongerText(r, inside + body, "COVARIANCE_STOP", from, p.(inCovariance := true));
  }

  lemma CovarianceLinesAreKept()
    ensures !Skipped("COVARIANCE_START") && !Skipped("COVARIANCE_STOP")
  {
    assert "COVARIANCE_START"[2] != "COMMENT"[2] && "COVARIANCE_STOP"[2] != "COMMENT"[2];
  }

  lemma ClosedAlready(p: Progress)
    requires ValidProgress(p) && p.current.None?
    ensures Close(p) == Ok(p)
  {
  }

  lemma ClosesWith(p: Progress, s: Segment)
    requires ValidProgress(p) && p.current.Some? && Finish(p.current.value, |p.segments| + 1) == Ok(s)
    ensures Close(p) == Ok(p.(segments := p.segments + [s], current := None))
  {
    hide Finish, ValidDraft, AllValid;
  }

  lemma {:induction false} BlocksAreRead(r: Readers, version: string, blocks: seq<Block>, segments: seq<Segment>)
    requires |blocks| == |segments| && version != "" && !("COMMENT" <= version)
    requires forall i :: 0 <= i < |blocks| ==> Says(r, blocks[i], segments[i], i + 1)
    ensures var text := [version] + BlocksLines(blocks);
            var q := Steps(r, text, 1, |text|);
            && q.Ok? && q.value.meta.None? && !q.value.inCovariance
            && Close(q.value).Ok? && Close(q.value).value == NOTHING_READ.(segments := segments)
  {
    hide Says, Steps, Close, BlockLines, Finish, ValidDraft, AllValid;
    if blocks == [] {
      assert [version] + BlocksLines(blocks) == [version];
      NoLines(r, [version], 1);
      ClosedAlready(NOTHING_READ);
    } else {
      var n := |blocks| - 1;
      BlocksAreRead(r, version, blocks[..n], segments[..n]);
      var text := [version] + BlocksLines(blocks[..n]);
      var p := Steps(r, text, 1, |text|).value;
      BlockIsRead(r, text, 1, p, blocks[n], segments[n]);
      assert [version] + BlocksLines(blocks) == text + BlockLines(blocks[n]);
      assert segments == segments[..n] + [segments[n]];
      var longer := text + BlockLines(blocks[n]);
      ClosesWith(Steps(r, longer, 1, |longer|).value, segments[n]);
    }
  }

  /**
   A message made of a version line and one block after another is read as exactly the segments the
   blocks say, in order: no state is dropped, moved or taken from another segment.
   */
  lemma MessageSaysItsSegments(r: Readers, version: string, blocks: seq<Block>, segments: seq<Segment>)
    requires version != "" && !("COMMENT" <= version)
    requires r.entry(version).Some? && r.entry(version).value.0 == "CCSDS_OEM_VERS"
    requires |blocks| == |segments| > 0
    requires forall i :: 0 <= i < |blocks| ==> Says(r, blocks[i], segments[i], i + 1)
    ensures Parse(r, [version] + BlocksLines(blocks)) == Ok(segments)
  {
    hide Says, Step, BlocksLines;
    var text := [version] + BlocksLines(blocks);
    assert text[0] == version;
    assert FirstLine(text) == 0;
    BlocksAreRead(r, version, blocks, segments);
  }

  /** A text is taken for a message exactly when its first line that counts is a version line. */
  lemma FirstLineDecides(r: Readers, text: seq<string>, n: nat)
    requires n < |text| && text[n] != "" && !("COMMENT" <= text[n])
    requires forall i :: 0 <= i < n ==> text[i] == "" || "COMMENT" <= text[i]
    ensures Parse(r, text) == Err(NotOem) <==>
              r.entry(text[n]).None? || r.entry(text[n]).value.0 != "CCSDS_OEM_VERS"
  {
    hide Steps, AllValid, ValidDraft;
    assert FirstLine(text) == n;
    StepsAreOtherErrors(r, text, n + 1, |text|);
  }

  /**
   A time that a parsed message accepts gets a state interpolated between two epochs of that message
   that enclose it; every other time is refused.
   */
  lemma ParsedMessagesNeverExtrapolate(r: Readers, text: seq<string>, time: Instant, rotate: Rotation)
    requires Parse(r, text).Ok?
    ensures var segments := Parse(r, text).value;
            && AllValid(segments)
            && (StateItrf(segments, time, rotate).Ok? <==>
                  exists i :: 0 <= i < |segments| && Rank(segments[i].start) <= Rank(time) <= Rank(segments[i].stop))
            && forall i :: 0 <= i < |segments| && LastToCover(segments, time, i) ==>
                 Encloses(segments[i], time) && GivesState(segments[i], time, rotate, StateItrf(segments, time, rotate))
  {
    hide AllValid, Smooth, ToItrf, Encloses, LastToCover, StateAt, StateItrf, GivesState;
    NeverExtrapolates(Parse(r, text).value, time, rotate);
  }
}
