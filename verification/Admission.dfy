/**
 Admission of visitors to the demo server.  Any number of threads admit visitors and drop their
 sessions at once; a step of this model is one atomic action of one thread: taking or returning a
 permit of the semaphore, taking or releasing the lock of the per-IP map, one action on the map under
 that lock, or one change of an atomic counter.
 */
module Admission {
  import opened Octets

  type Ip = nat

  // One call of `admit` and the life of the session it may return.
  type Visit = nat

  datatype Limits = Limits(maxSessions: nat, maxPerIp: nat)

  /** `Reject` */
  datatype Reject = Capacity | PerIp

  /** Where a visit is in `admit`, in its session, or in the drop of its guard. */
  datatype Stage =
    | Permitted(ip: Ip)  // has its permit
    | Looking(ip: Ip)    // has the lock
    | Found(ip: Ip)      // has made sure that the map has an entry
    | Refusing(ip: Ip)   // has found the entry at its limit
    | Counting(ip: Ip)   // has raised the entry
    | Counted(ip: Ip)    // has released the lock
    | Activated(ip: Ip)  // has raised `active`
    | Open(ip: Ip)       // has raised `total`: `admit` has returned a guard
    | Closing(ip: Ip)    // drop: has lowered `active`
    | Lowering(ip: Ip)   // has the lock
    | Lowered(ip: Ip)    // has lowered the entry
    | Cleared(ip: Ip)    // has removed the entry if it was zero
    | Returning(ip: Ip)  // has released the lock; only the permit is left to return

  predicate HasLock(g: Stage) {
    g.Looking? || g.Found? || g.Refusing? || g.Counting? || g.Lowering? || g.Lowered? || g.Cleared?
  }

  // The visit is in the map.
  predicate InMap(g: Stage) {
    g.Counting? || g.Counted? || g.Activated? || g.Open? || g.Closing? || g.Lowering?
  }

  // The visit is in `active`.
  predicate InActive(g: Stage) {
    g.Activated? || g.Open?
  }

  datatype State = State(
    permits: nat,
    lock: Option<Visit>,
    perIp: map<Ip, nat>,
    active: nat,
    total: nat,
    visits: map<Visit, Stage>)

  function Initial(l: Limits): State {
    State(l.maxSessions, None, map[], 0, 0, map[])
  }

  // ---------------------------------------------------------------------------------------
  // Steps
  // ---------------------------------------------------------------------------------------

  datatype Event = Arrive(visit: Visit, ip: Ip) | Advance(visit: Visit)

  /** Taking a permit; without one, the visitor is turned away and nothing changes. */
  function Arrived(s: State, v: Visit, ip: Ip): State {
    if s.permits == 0 then s
    else s.(permits := s.permits - 1, visits := s.visits[v := Permitted(ip)])
  }

  predicate Waits(s: State, v: Visit)
    requires v in s.visits
  {
    (s.visits[v].Permitted? || s.visits[v].Closing?) && s.lock.Some?
  }

  function At(s: State, v: Visit, g: Stage): State {
    s.(visits := s.visits[v := g])
  }

  function SaturatingSub1(n: nat): nat {
    if n == 0 then 0 else n - 1
  }

  // `fetch_sub(1)` on a 64-bit counter.
  function FetchSub1(n: nat): nat {
    if n == 0 then 0xFFFF_FFFF_FFFF_FFFF else n - 1
  }

  /** The next atomic action of visit `v`; waiting for the lock changes nothing. */
  function Advanced(l: Limits, s: State, v: Visit): State
    requires v in s.visits
  {
    match s.visits[v]
    case Permitted(ip) => if s.lock.Some? then s else At(s, v, Looking(ip)).(lock := Some(v))
    case Looking(ip) => At(s, v, Found(ip)).(perIp := if ip in s.perIp then s.perIp else s.perIp[ip := 0])
    case Found(ip) =>
      var n := if ip in s.perIp then s.perIp[ip] else 0;
      if n >= l.maxPerIp then At(s, v, Refusing(ip))
      else At(s, v, Counting(ip)).(perIp := s.perIp[ip := n + 1])
    case Refusing(ip) => At(s, v, Returning(ip)).(lock := None)
    case Counting(ip) => At(s, v, Counted(ip)).(lock := None)
    case Counted(ip) => At(s, v, Activated(ip)).(active := s.active + 1)
    case Activated(ip) => At(s, v, Open(ip)).(total := s.total + 1)
    case Open(ip) => At(s, v, Closing(ip)).(active := FetchSub1(s.active))
    case Closing(ip) => if s.lock.Some? then s else At(s, v, Lowering(ip)).(lock := Some(v))
    case Lowering(ip) =>
      At(s, v, Lowered(ip)).(perIp := if ip in s.perIp then s.perIp[ip := SaturatingSub1(s.perIp[ip])] else s.perIp)
    case Lowered(ip) =>
      At(s, v, Cleared(ip)).(perIp := if ip in s.perIp && s.perIp[ip] == 0 then s.perIp - {ip} else s.perIp)
    case Cleared(ip) => At(s, v, Returning(ip)).(lock := None)
    case Returning(ip) => s.(permits := s.permits + 1, visits := s.visits - {v})
  }

  predicate Enabled(s: State, e: Event) {
    match e
    case Arrive(v, _) => v !in s.visits
    case Advance(v) => v in s.visits
  }

  function After(l: Limits, s: State, e: Event): State
    requires Enabled(s, e)
  {
    match e
    case Arrive(v, ip) => Arrived(s, v, ip)
    case Advance(v) => Advanced(l, s, v)
  }

  // ---------------------------------------------------------------------------------------
  // The invariant
  // ---------------------------------------------------------------------------------------

  function MapVisits(visits: map<Visit, Stage>, ip: Ip): set<Visit> {
    set v | v in visits && InMap(visits[v]) && visits[v].ip == ip
  }

  function AllMapVisits(visits: map<Visit, Stage>): set<Visit> {
    set v | v in visits && InMap(visits[v])
  }

  function ActiveVisits(visits: map<Visit, Stage>): set<Visit> {
    set v | v in visits && InActive(visits[v])
  }

  function EntryOf(perIp: map<Ip, nat>, ip: Ip): nat {
    if ip in perIp then perIp[ip] else 0
  }

  // A zero entry is only there while the visit that has the lock works on it, unless no one is ever admitted.
  predicate ZeroEntryExplained(l: Limits, s: State, ip: Ip) {
    l.maxPerIp == 0
    || (s.lock.Some? && s.lock.value in s.visits
        && var g := s.visits[s.lock.value]; (g.Found? || g.Lowered?) && g.ip == ip)
  }

  // Every visit has one permit.
  predicate PermitInv(l: Limits, s: State) {
    s.permits + |s.visits| == l.maxSessions
  }

  // The lock is with the one visit that works on the map.
  predicate LockInv(visits: map<Visit, Stage>, lock: Option<Visit>) {
    && (forall v :: v in visits ==> (HasLock(visits[v]) <==> lock == Some(v)))
    && (lock.Some? ==> lock.value in visits)
  }

  // The map counts the visits.
  ghost predicate MapInv(l: Limits, s: State) {
    && (forall ip :: EntryOf(s.perIp, ip) == |MapVisits(s.visits, ip)|)
    && (forall ip :: ip in s.perIp ==> s.perIp[ip] <= l.maxPerIp)
  }

  predicate ActiveInv(s: State) {
    s.active == |ActiveVisits(s.visits)|
  }

  // No entry is left behind.
  predicate ZeroInv(l: Limits, s: State) {
    forall ip :: ip in s.perIp && s.perIp[ip] == 0 ==> ZeroEntryExplained(l, s, ip)
  }

  ghost predicate Inv(l: Limits, s: State) {
    PermitInv(l, s) && LockInv(s.visits, s.lock) && MapInv(l, s) && ActiveInv(s) && ZeroInv(l, s)
  }

  lemma InitialHolds(l: Limits)
    ensures Inv(l, Initial(l))
  {
    forall ip ensures |MapVisits(map[], ip)| == 0 {
      assert MapVisits(map[], ip) == {};
    }
    assert ActiveVisits(map[]) == {};
  }

  function Share(g: Stage, ip: Ip): nat {
    if InMap(g) && g.ip == ip then 1 else 0
  }

  function ActiveShare(g: Stage): nat {
    if InActive(g) then 1 else 0
  }

  // What moving one visit does to the numbers of visits counted.
  lemma MovedInMap(visits: map<Visit, Stage>, v: Visit, g: Stage, ip: Ip)
    requires v in visits && visits[v].ip == g.ip
    ensures |MapVisits(visits[v := g], ip)| == |MapVisits(visits, ip)| + Share(g, ip) - Share(visits[v], ip)
  {
    hide InMap;
    var was, now := MapVisits(visits, ip), MapVisits(visits[v := g], ip);
    assert now == if Share(g, ip) == 1 then was + {v} else was - {v};
  }

  lemma MovedInActive(visits: map<Visit, Stage>, v: Visit, g: Stage)
    requires v in visits
    ensures |ActiveVisits(visits[v := g])| == |ActiveVisits(visits)| + ActiveShare(g) - ActiveShare(visits[v])
  {
    hide InActive;
    var was, now := ActiveVisits(visits), ActiveVisits(visits[v := g]);
    assert now == if InActive(g) then was + {v} else was - {v};
  }

  lemma MovedKeepsNumber(visits: map<Visit, Stage>, v: Visit, g: Stage)
    requires v in visits
    ensures |visits[v := g]| == |visits|
  {
    assert visits[v := g].Keys == visits.Keys;
  }

  lemma Joined(visits: map<Visit, Stage>, v: Visit, ip: Ip)
    requires v !in visits
    ensures forall i :: MapVisits(visits[v := Permitted(ip)], i) == MapVisits(visits, i)
    ensures ActiveVisits(visits[v := Permitted(ip)]) == ActiveVisits(visits)
    ensures |visits[v := Permitted(ip)]| == |visits| + 1
  {
    assert visits[v := Permitted(ip)].Keys == visits.Keys + {v};
  }

  lemma Left(visits: map<Visit, Stage>, v: Visit)
    requires v in visits && visits[v].Returning?
    ensures forall ip :: MapVisits(visits - {v}, ip) == MapVisits(visits, ip)
    ensures ActiveVisits(visits - {v}) == ActiveVisits(visits)
    ensures |visits - {v}| == |visits| - 1
  {
    assert (visits - {v}).Keys == visits.Keys - {v};
  }

  lemma InMapIsCounted(visits: map<Visit, Stage>, v: Visit)
    requires v in visits && InMap(visits[v])
    ensures |MapVisits(visits, visits[v].ip)| > 0
  {
    assert v in MapVisits(visits, visits[v].ip);
  }

  lemma ActiveIsCounted(visits: map<Visit, Stage>, v: Visit)
    requires v in visits && InActive(visits[v])
    ensures |ActiveVisits(visits)| > 0
  {
    assert v in ActiveVisits(visits);
  }

  lemma ArrivalHolds(l: Limits, s: State, v: Visit, ip: Ip)
    requires Inv(l, s) && v !in s.visits
    ensures Inv(l, Arrived(s, v, ip))
  {
    hide MapVisits, ActiveVisits;
    Joined(s.visits, v, ip);
  }

  lemma PermitStep(l: Limits, s: State, v: Visit)
    requires PermitInv(l, s) && v in s.visits
    ensures PermitInv(l, Advanced(l, s, v))
  {
    hide EntryOf;
    if s.visits[v].Returning? {
      Left(s.visits, v);
    } else {
      MovedKeepsNumber(s.visits, v, Advanced(l, s, v).visits[v]);
    }
  }

  lemma LockMoves(visits: map<Visit, Stage>, lock: Option<Visit>, v: Visit, g: Stage)
    requires LockInv(visits, lock) && v in visits && (HasLock(g) ==> lock.None? || lock == Some(v))
    ensures LockInv(visits[v := g], if HasLock(g) then Some(v) else if HasLock(visits[v]) then None else lock)
  {
    hide HasLock;
  }

  lemma LockStays(visits: map<Visit, Stage>, lock: Option<Visit>, v: Visit)
    requires LockInv(visits, lock) && v in visits && !HasLock(visits[v])
    ensures LockInv(visits - {v}, lock)
  {
    hide HasLock;
  }

  lemma LockStep(l: Limits, s: State, v: Visit)
    requires LockInv(s.visits, s.lock) && v in s.visits
    ensures LockInv(Advanced(l, s, v).visits, Advanced(l, s, v).lock)
  {
    assert HasLock(s.visits[v]) <==> s.lock == Some(v);
    hide LockInv;
    if s.visits[v].Returning? {
      LockStays(s.visits, s.lock, v);
    } else if !Waits(s, v) {
      LockMoves(s.visits, s.lock, v, Advanced(l, s, v).visits[v]);
    }
  }

  lemma ActiveStep(l: Limits, s: State, v: Visit)
    requires ActiveInv(s) && v in s.visits
    ensures ActiveInv(Advanced(l, s, v))
  {
    hide ActiveVisits, EntryOf;
    if s.visits[v].Returning? {
      Left(s.visits, v);
    } else {
      MovedInActive(s.visits, v, Advanced(l, s, v).visits[v]);
      if s.visits[v].Open? {
        ActiveIsCounted(s.visits, v);
      }
    }
  }

  lemma ZeroStep(l: Limits, s: State, v: Visit)
    requires LockInv(s.visits, s.lock) && ZeroInv(l, s) && v in s.visits
    ensures ZeroInv(l, Advanced(l, s, v))
  {
  }

  // What a step does to the entry of one address.
  lemma MapStepAt(l: Limits, s: State, v: Visit, ip: Ip)
    requires v in s.visits && EntryOf(s.perIp, s.visits[v].ip) == |MapVisits(s.visits, s.visits[v].ip)|
    requires EntryOf(s.perIp, ip) == |MapVisits(s.visits, ip)|
    ensures EntryOf(Advanced(l, s, v).perIp, ip) == |MapVisits(Advanced(l, s, v).visits, ip)|
  {
    hide MapVisits;
    if s.visits[v].Returning? {
      Left(s.visits, v);
    } else {
      MovedInMap(s.visits, v, Advanced(l, s, v).visits[v], ip);
      if InMap(s.visits[v]) {
        InMapIsCounted(s.visits, v);
      }
      hide InMap;
      EntryMoves(l, s, v, ip);
    }
  }

  // The entry moves with the share of the visit.
  lemma EntryMoves(l: Limits, s: State, v: Visit, ip: Ip)
    requires v in s.visits && !s.visits[v].Returning?
    requires InMap(s.visits[v]) ==> EntryOf(s.perIp, s.visits[v].ip) > 0
    ensures var t := Advanced(l, s, v);
            EntryOf(t.perIp, ip) == EntryOf(s.perIp, ip) + Share(t.visits[v], ip) - Share(s.visits[v], ip)
  {
  }

  lemma MapStep(l: Limits, s: State, v: Visit)
    requires MapInv(l, s) && v in s.visits
    ensures MapInv(l, Advanced(l, s, v))
  {
    hide MapVisits, EntryOf;
    var t := Advanced(l, s, v);
    forall ip ensures EntryOf(t.perIp, ip) == |MapVisits(t.visits, ip)| {
      MapStepAt(l, s, v, ip);
    }
    EntriesStayBounded(l, s, v);
  }

  lemma EntriesStayBounded(l: Limits, s: State, v: Visit)
    requires v in s.visits && forall ip :: ip in s.perIp ==> s.perIp[ip] <= l.maxPerIp
    ensures var t := Advanced(l, s, v); forall ip :: ip in t.perIp ==> t.perIp[ip] <= l.maxPerIp
  {
  }

  lemma StepHolds(l: Limits, s: State, e: Event)
    requires Inv(l, s) && Enabled(s, e)
    ensures Inv(l, After(l, s, e))
  {
    hide PermitInv, LockInv, MapInv, ActiveInv, ZeroInv, Advanced, Arrived;
    match e
    case Arrive(v, ip) => ArrivalHolds(l, s, v, ip);
    case Advance(v) =>
      PermitStep(l, s, v);
      LockStep(l, s, v);
      MapStep(l, s, v);
      ActiveStep(l, s, v);
      ZeroStep(l, s, v);
  }

  // ---------------------------------------------------------------------------------------
  // Runs
  // ---------------------------------------------------------------------------------------

  /** `states` follows the server through `events`, from its start. */
  predicate IsRun(l: Limits, states: seq<State>, events: seq<Event>) {
    && |states| == |events| + 1 && states[0] == Initial(l)
    && forall i :: 0 <= i < |events| ==>
        Enabled(states[i], events[i]) && states[i + 1] == After(l, states[i], events[i])
  }

  lemma {:induction false} RunHolds(l: Limits, states: seq<State>, events: seq<Event>, i: nat)
    requires IsRun(l, states, events) && i < |states|
    ensures Inv(l, states[i])
  {
    hide Inv, After;
    if i == 0 {
      InitialHolds(l);
    } else {
      RunHolds(l, states, events, i - 1);
      StepHolds(l, states[i - 1], events[i - 1]);
    }
  }

  ghost function Pick(m: map<Ip, nat>): (ip: Ip)
    requires m != map[]
    ensures ip in m
  {
    assert m.Keys != {};
    var ip :| ip in m; ip
  }

  /** The sum of the per-IP map. */
  ghost function Sum(m: map<Ip, nat>): nat {
    if m == map[] then 0 else m[Pick(m)] + Sum(m - {Pick(m)})
  }

  ghost function VisitsFrom(visits: map<Visit, Stage>, m: map<Ip, nat>): set<Visit> {
    set v | v in visits && InMap(visits[v]) && visits[v].ip in m
  }

  lemma VisitsFromOneMore(visits: map<Visit, Stage>, m: map<Ip, nat>, ip: Ip)
    requires ip in m
    ensures |VisitsFrom(visits, m)| == |MapVisits(visits, ip)| + |VisitsFrom(visits, m - {ip})|
  {
    assert VisitsFrom(visits, m) == MapVisits(visits, ip) + VisitsFrom(visits, m - {ip});
    assert MapVisits(visits, ip) !! VisitsFrom(visits, m - {ip});
  }

  lemma {:induction false} SumCountsVisits(visits: map<Visit, Stage>, m: map<Ip, nat>)
    requires forall ip :: ip in m ==> m[ip] == |MapVisits(visits, ip)|
    ensures Sum(m) == |VisitsFrom(visits, m)|
    decreases |m|
  {
    hide MapVisits;
    if m == map[] {
      assert VisitsFrom(visits, m) == {};
    } else {
      var ip := Pick(m);
      SumCountsVisits(visits, m - {ip});
      VisitsFromOneMore(visits, m, ip);
    }
  }

  lemma SumIsAllMapVisits(l: Limits, s: State)
    requires MapInv(l, s)
    ensures Sum(s.perIp) == |AllMapVisits(s.visits)|
  {
    forall ip | ip in s.perIp ensures s.perIp[ip] == |MapVisits(s.visits, ip)| {
      assert EntryOf(s.perIp, ip) == s.perIp[ip];
    }
    SumCountsVisits(s.visits, s.perIp);
    forall v | v in AllMapVisits(s.visits) ensures v in VisitsFrom(s.visits, s.perIp) {
      InMapIsCounted(s.visits, v);
      assert EntryOf(s.perIp, s.visits[v].ip) > 0;
    }
    assert AllMapVisits(s.visits) == VisitsFrom(s.visits, s.perIp);
  }

  lemma SubsetSize<T>(a: set<T>, b: set<T>)
    requires a <= b
    ensures |a| <= |b|
    ensures |a| == |b| ==> a == b
  {
    assert b == a + (b - a);
    assert |b| == |a| + |b - a|;
  }

  /** The chain of bounds, in one state. */
  lemma BoundsHold(l: Limits, s: State)
    requires Inv(l, s)
    ensures s.active <= Sum(s.perIp) <= l.maxSessions - s.permits <= l.maxSessions
    ensures forall ip :: ip in s.perIp ==> s.perIp[ip] <= l.maxPerIp
  {
    hide MapVisits;
    SumIsAllMapVisits(l, s);
    SubsetSize(ActiveVisits(s.visits), AllMapVisits(s.visits));
    SubsetSize(AllMapVisits(s.visits), s.visits.Keys);
  }

  /**
   At every step of every run of any number of threads: the active sessions are at most the sum of the
   per-IP map, that is at most the permits taken, those are at most `max_sessions`, and no address has
   more than `max_per_ip`.
   */
  lemma AdmissionIsBounded(l: Limits, states: seq<State>, events: seq<Event>, i: nat)
    requires IsRun(l, states, events) && i < |states|
    ensures var s := states[i];
            && s.active <= Sum(s.perIp) <= l.maxSessions - s.permits <= l.maxSessions
            && forall ip :: ip in s.perIp ==> s.perIp[ip] <= l.maxPerIp
  {
    hide Inv, IsRun, Sum;
    RunHolds(l, states, events, i);
    BoundsHold(l, states[i]);
  }

  /** No subtraction meets zero: the counters are not zero when a guard's drop lowers them. */
  lemma NothingUnderflows(l: Limits, states: seq<State>, events: seq<Event>, i: nat, v: Visit)
    requires IsRun(l, states, events) && i < |states| && v in states[i].visits
    ensures states[i].visits[v].Open? ==> states[i].active > 0
    ensures states[i].visits[v].Lowering? ==>
              states[i].visits[v].ip in states[i].perIp && states[i].perIp[states[i].visits[v].ip] > 0
  {
    hide IsRun, MapVisits, ActiveVisits;
    RunHolds(l, states, events, i);
    var s := states[i];
    if InActive(s.visits[v]) {
      ActiveIsCounted(s.visits, v);
    }
    if InMap(s.visits[v]) {
      InMapIsCounted(s.visits, v);
      assert EntryOf(s.perIp, s.visits[v].ip) > 0;
    }
  }

  predicate Quiet(s: State) {
    forall v :: v in s.visits ==> s.visits[v].Open?
  }

  function SessionsOf(s: State, ip: Ip): set<Visit> {
    set v | v in s.visits && s.visits[v] == Open(ip)
  }

  /**
   With no operation in flight all counts agree: the open sessions are the active ones, the sum of the
   map and the permits taken, each address has its own number, and only addresses with a session have
   an entry, except that a limit of zero per address leaves zero entries.
   */
  lemma QuietCountsAgree(l: Limits, states: seq<State>, events: seq<Event>, i: nat)
    requires IsRun(l, states, events) && i < |states| && Quiet(states[i])
    ensures var s := states[i];
            && s.active == Sum(s.perIp) == l.maxSessions - s.permits == |s.visits|
            && (forall ip :: EntryOf(s.perIp, ip) == |SessionsOf(s, ip)|)
            && (l.maxPerIp > 0 ==> forall ip :: ip in s.perIp <==> SessionsOf(s, ip) != {})
  {
    hide IsRun, Sum;
    RunHolds(l, states, events, i);
    var s := states[i];
    SumIsAllMapVisits(l, s);
    assert ActiveVisits(s.visits) == AllMapVisits(s.visits) == s.visits.Keys;
    forall ip ensures SessionsOf(s, ip) == MapVisits(s.visits, ip) {
    }
    forall ip | l.maxPerIp > 0 && ip in s.perIp ensures s.perIp[ip] > 0 {
      assert s.lock.None?;
    }
  }

  predicate HasSession(s: State, v: Visit) {
    v in s.visits && s.visits[v].Open?
  }

  /** Steps, up to the `i`th state, at which a visit gets its session. */
  function SessionsBegun(states: seq<State>, events: seq<Event>, i: nat): nat
    requires i < |states| <= |events| + 1
  {
    if i == 0 then 0
    else
      var v := events[i - 1].visit;
      SessionsBegun(states, events, i - 1)
      + if HasSession(states[i], v) && !HasSession(states[i - 1], v) then 1 else 0
  }

  /** The total is the number of sessions ever begun. */
  lemma {:induction false} TotalCountsSessions(l: Limits, states: seq<State>, events: seq<Event>, i: nat)
    requires IsRun(l, states, events) && i < |states|
    ensures states[i].total == SessionsBegun(states, events, i)
  {
    if i > 0 {
      hide SessionsBegun;
      TotalCountsSessions(l, states, events, i - 1);
      OneStepOfTheTotal(l, states[i - 1], events[i - 1]);
      BegunOneMore(states, events, i);
    }
  }

  lemma BegunOneMore(states: seq<State>, events: seq<Event>, i: nat)
    requires 0 < i < |states| <= |events| + 1
    ensures SessionsBegun(states, events, i) == SessionsBegun(states, events, i - 1)
        + if HasSession(states[i], events[i - 1].visit) && !HasSession(states[i - 1], events[i - 1].visit) then 1 else 0
  {
    hide HasSession;
  }

  lemma OneStepOfTheTotal(l: Limits, s: State, e: Event)
    requires Enabled(s, e)
    ensures var next := After(l, s, e);
            next.total == s.total + if HasSession(next, e.visit) && !HasSession(s, e.visit) then 1 else 0
  {
  }

  /** When everyone has left, the server is as it started, apart from the total. */
  lemma EverythingIsReturned(l: Limits, states: seq<State>, events: seq<Event>, i: nat)
    requires IsRun(l, states, events) && i < |states| && states[i].visits == map[] && l.maxPerIp > 0
    ensures states[i] == Initial(l).(total := states[i].total)
  {
    hide IsRun, Sum;
    RunHolds(l, states, events, i);
    QuietCountsAgree(l, states, events, i);
    var s := states[i];
    forall ip ensures ip !in s.perIp {
      assert SessionsOf(s, ip) == {};
    }
    assert s.perIp == map[];
  }

  /** No deadlock: as long as a visit is under way, some visit under way can act. */
  lemma SomeoneCanAct(l: Limits, states: seq<State>, events: seq<Event>, i: nat, v: Visit)
    requires IsRun(l, states, events) && i < |states|
    requires v in states[i].visits && !states[i].visits[v].Open?
    ensures exists w :: w in states[i].visits && !states[i].visits[w].Open? && !Waits(states[i], w)
  {
    hide IsRun;
    RunHolds(l, states, events, i);
    var s := states[i];
    var w := if Waits(s, v) then s.lock.value else v;
    assert !Waits(s, w);
  }

  /** How far a visit is from its next rest: an open session, or the end. */
  function StepsLeft(g: Stage): nat {
    match g
    case Permitted(_) => 6
    case Looking(_) => 5
    case Found(_) => 4
    case Counting(_) => 3
    case Counted(_) => 2
    case Activated(_) => 1
    case Open(_) => 0
    case Refusing(_) => 2
    case Closing(_) => 5
    case Lowering(_) => 4
    case Lowered(_) => 3
    case Cleared(_) => 2
    case Returning(_) => 1
  }

  /** Each action brings a visit nearer to its rest, and does not touch any other visit. */
  lemma ActingGetsNearer(l: Limits, s: State, v: Visit)
    requires v in s.visits && !s.visits[v].Open? && !Waits(s, v)
    ensures var t := Advanced(l, s, v);
            && (v in t.visits ==> StepsLeft(t.visits[v]) < StepsLeft(s.visits[v]) && t.visits[v].ip == s.visits[v].ip)
            && (v !in t.visits ==> s.visits[v].Returning?)
            && t.visits - {v} == s.visits - {v}
  {
  }

  // ---------------------------------------------------------------------------------------
  // Who is turned away
  // ---------------------------------------------------------------------------------------

  /** A visitor is refused for its address exactly when that address has its limit of visits in the map. */
  lemma RefusedExactly(l: Limits, s: State, v: Visit)
    requires Inv(l, s) && v in s.visits && s.visits[v].Found?
    ensures Advanced(l, s, v).visits[v].Refusing? <==> |MapVisits(s.visits, s.visits[v].ip)| >= l.maxPerIp
  {
    assert EntryOf(s.perIp, s.visits[v].ip) == |MapVisits(s.visits, s.visits[v].ip)|;
  }

  function OpenVisits(s: State): set<Visit> {
    set v | v in s.visits && s.visits[v].Open?
  }

  /**
   Who is turned away for capacity: in every state of every run, a visitor finds no permit exactly when
   as many visits as there may be sessions are under way, in whatever stage.  Fewer than that are open
   sessions exactly when some visit is on its way in, about to be refused for its address, or on its
   way out.
   */
  lemma CapacityRefusedExactly(l: Limits, states: seq<State>, events: seq<Event>, i: nat, v: Visit, ip: Ip)
    requires IsRun(l, states, events) && i < |states| && v !in states[i].visits
    ensures var s := states[i];
            && (Arrived(s, v, ip) == s <==> |s.visits| == l.maxSessions)
            && (Arrived(s, v, ip) == s ==> (|OpenVisits(s)| < l.maxSessions <==> !Quiet(s)))
  {
    hide IsRun;
    RunHolds(l, states, events, i);
    var s := states[i];
    SubsetSize(OpenVisits(s), s.visits.Keys);
    assert OpenVisits(s) == s.visits.Keys <==> Quiet(s);
  }

  // ---------------------------------------------------------------------------------------
  // A limit of zero per address
  // ---------------------------------------------------------------------------------------

  // Nobody gets as far as the map's count, and all entries are zero.
  predicate NobodyCounts(s: State) {
    && (forall v :: v in s.visits ==>
          var g := s.visits[v];
          g.Permitted? || g.Looking? || g.Found? || g.Refusing? || g.Returning?)
    && (forall ip :: ip in s.perIp ==> s.perIp[ip] == 0)
  }

  // Event `k` is a visit from `ip` making sure that the map has an entry.
  predicate LooksUp(states: seq<State>, events: seq<Event>, k: nat, ip: Ip)
    requires k < |events| < |states|
  {
    events[k].Advance? && events[k].visit in states[k].visits && states[k].visits[events[k].visit] == Looking(ip)
  }

  lemma ZeroLimitStep(l: Limits, s: State, e: Event)
    requires NobodyCounts(s) && l.maxPerIp == 0 && Enabled(s, e)
    ensures NobodyCounts(After(l, s, e))
    ensures forall ip :: ip in After(l, s, e).perIp <==>
              ip in s.perIp || (e.Advance? && s.visits[e.visit] == Looking(ip))
  {
  }

  /**
   With `max_per_ip` 0 nobody is admitted, and every address that was ever looked up keeps a zero entry
   for good: the entries are exactly the addresses looked up so far.
   */
  lemma {:induction false} ZeroLimitKeepsEntries(l: Limits, states: seq<State>, events: seq<Event>, i: nat)
    requires IsRun(l, states, events) && i < |states| && l.maxPerIp == 0
    ensures NobodyCounts(states[i]) && states[i].active == 0
    ensures forall ip :: ip in states[i].perIp <==> exists k :: 0 <= k < i && LooksUp(states, events, k, ip)
  {
    hide After, NobodyCounts, Inv;
    if i == 0 {
      assert NobodyCounts(states[0]) by { EmptyCounts(l); }
    } else {
      ZeroLimitKeepsEntries(l, states, events, i - 1);
      ZeroLimitStep(l, states[i - 1], events[i - 1]);
      forall ip ensures ip in states[i].perIp <==> exists k :: 0 <= k < i && LooksUp(states, events, k, ip) {
        if ip in states[i].perIp && ip !in states[i - 1].perIp {
          assert LooksUp(states, events, i - 1, ip);
        }
        if k :| 0 <= k < i && LooksUp(states, events, k, ip) {
          assert k < i - 1 ==> ip in states[i - 1].perIp;
        }
      }
    }
    RunHolds(l, states, events, i);
    NobodyIsActive(l, states[i]);
  }

  lemma EmptyCounts(l: Limits)
    ensures NobodyCounts(Initial(l))
  {
  }

  lemma NobodyIsActive(l: Limits, s: State)
    requires Inv(l, s) && NobodyCounts(s)
    ensures s.active == 0
  {
    assert ActiveVisits(s.visits) == {};
  }

  /** Entries never leave under a limit of zero. */
  lemma ZeroLimitEntriesStay(l: Limits, states: seq<State>, events: seq<Event>, i: nat, j: nat)
    requires IsRun(l, states, events) && i <= j < |states| && l.maxPerIp == 0
    ensures states[i].perIp.Keys <= states[j].perIp.Keys
  {
    hide IsRun, NobodyCounts;
    ZeroLimitKeepsEntries(l, states, events, i);
    ZeroLimitKeepsEntries(l, states, events, j);
  }

  lemma EmptyServer(l: Limits, s: State)
    requires Inv(l, s) && s.visits == map[]
    ensures s == Initial(l).(total := s.total) <==> forall ip :: ip !in s.perIp
  {
    assert ActiveVisits(s.visits) == {};
    assert s.perIp == map[] <==> forall ip :: ip !in s.perIp;
  }

  /** When all have left, everything but the total is as at the start, unless a limit of zero left entries. */
  lemma ReturnedExactly(l: Limits, states: seq<State>, events: seq<Event>, i: nat)
    requires IsRun(l, states, events) && i < |states| && states[i].visits == map[]
    ensures states[i] == Initial(l).(total := states[i].total)
        <==> l.maxPerIp > 0 || forall k, ip :: 0 <= k < i ==> !LooksUp(states, events, k, ip)
  {
    hide IsRun, NobodyCounts, LooksUp, Inv;
    if l.maxPerIp > 0 {
      EverythingIsReturned(l, states, events, i);
    } else {
      ZeroLimitKeepsEntries(l, states, events, i);
      RunHolds(l, states, events, i);
      EmptyServer(l, states[i]);
      RunLength(l, states, events);
      forall k, ip | 0 <= k < i && LooksUp(states, events, k, ip) ensures ip in states[i].perIp {
        assert exists k :: 0 <= k < i && LooksUp(states, events, k, ip);
      }
    }
  }

  /** A visitor comes and is refused, everyone has left, and the entry is still there. */
  lemma ZeroLimitLeavesEntry() returns (states: seq<State>, events: seq<Event>)
    ensures IsRun(Limits(1, 0), states, events)
    ensures states[|events|] == State(1, None, map[7 := 0], 0, 0, map[])
  {
    hide IsRun;
    var l := Limits(1, 0);
    states, events := [Initial(l)], [];
    RunStarts(l);
    var s := Initial(l);
    states, events, s := Extended(l, states, events, Arrive(1, 7), State(0, None, map[], 0, 0, map[1 := Permitted(7)]));
    states, events, s := Extended(l, states, events, Advance(1), State(0, Some(1), map[], 0, 0, map[1 := Looking(7)]));
    states, events, s := Extended(l, states, events, Advance(1),
        State(0, Some(1), map[7 := 0], 0, 0, map[1 := Found(7)]));
    states, events, s := Extended(l, states, events, Advance(1),
        State(0, Some(1), map[7 := 0], 0, 0, map[1 := Refusing(7)]));
    states, events, s := Extended(l, states, events, Advance(1),
        State(0, None, map[7 := 0], 0, 0, map[1 := Returning(7)]));
    states, events, s := Extended(l, states, events, Advance(1), State(1, None, map[7 := 0], 0, 0, map[]));
  }

  // ---------------------------------------------------------------------------------------
  // Runs one can name
  // ---------------------------------------------------------------------------------------

  // One more event at the end of a run.
  lemma RunGoesOn(l: Limits, states: seq<State>, events: seq<Event>, e: Event, next: State)
    requires IsRun(l, states, events) && Enabled(states[|events|], e) && next == After(l, states[|events|], e)
    ensures IsRun(l, states + [next], events + [e])
    ensures (states + [next])[|events + [e]|] == next
  {
    hide After;
  }

  // A visitor comes to the empty server and gets its session.
  lemma OneSessionOpens(l: Limits, v: Visit, ip: Ip) returns (states: seq<State>, events: seq<Event>)
    requires l.maxSessions > 0 && l.maxPerIp > 0
    ensures IsRun(l, states, events)
    ensures states[|events|] == State(l.maxSessions - 1, None, map[ip := 1], 1, 1, map[v := Open(ip)])
  {
    hide IsRun;
    states, events := [Initial(l)], [];
    RunStarts(l);
    var s := Initial(l);
    states, events, s := Extended(l, states, events, Arrive(v, ip),
        State(l.maxSessions - 1, None, map[], 0, 0, map[v := Permitted(ip)]));
    states, events, s := Extended(l, states, events, Advance(v),
        State(l.maxSessions - 1, Some(v), map[], 0, 0, map[v := Looking(ip)]));
    states, events, s := Extended(l, states, events, Advance(v),
        State(l.maxSessions - 1, Some(v), map[ip := 0], 0, 0, map[v := Found(ip)]));
    states, events, s := Extended(l, states, events, Advance(v),
        State(l.maxSessions - 1, Some(v), map[ip := 1], 0, 0, map[v := Counting(ip)]));
    states, events, s := Extended(l, states, events, Advance(v),
        State(l.maxSessions - 1, None, map[ip := 1], 0, 0, map[v := Counted(ip)]));
    states, events, s := Extended(l, states, events, Advance(v),
        State(l.maxSessions - 1, None, map[ip := 1], 1, 0, map[v := Activated(ip)]));
    states, events, s := Extended(l, states, events, Advance(v),
        State(l.maxSessions - 1, None, map[ip := 1], 1, 1, map[v := Open(ip)]));
  }

  lemma RunStarts(l: Limits)
    ensures IsRun(l, [Initial(l)], [])
  {
  }

  lemma Extended(l: Limits, states: seq<State>, events: seq<Event>, e: Event, next: State)
      returns (states': seq<State>, events': seq<Event>, s: State)
    requires |states| == |events| + 1 && IsRun(l, states, events)
    requires Enabled(states[|events|], e) && next == After(l, states[|events|], e)
    ensures states' == states + [next] && events' == events + [e] && s == next
    ensures IsRun(l, states', events') && |states'| == |events'| + 1 && states'[|events'|] == next
  {
    hide After;
    RunGoesOn(l, states, events, e, next);
    states', events', s := states + [next], events + [e], next;
  }

  /**
   A visitor can be turned away for capacity although sessions are free: a visitor who is about to be
   refused for its address holds the last permit.
   */
  lemma RefusedVisitorTakesLastPermit() returns (l: Limits, states: seq<State>, events: seq<Event>)
    ensures l == Limits(2, 1) && IsRun(l, states, events)
    ensures var s := states[|events|];
            && s == State(0, None, map[7 := 1], 1, 1, map[1 := Open(7), 2 := Permitted(7)])
            && Enabled(s, Arrive(3, 8)) && After(l, s, Arrive(3, 8)) == s
  {
    hide IsRun;
    l := Limits(2, 1);
    states, events := OneSessionOpens(l, 1, 7);
    var s;
    assert |states| == |events| + 1 by { RunLength(l, states, events); }
    states, events, s := Extended(l, states, events, Arrive(2, 7),
        State(0, None, map[7 := 1], 1, 1, map[1 := Open(7), 2 := Permitted(7)]));
  }

  lemma RunLength(l: Limits, states: seq<State>, events: seq<Event>)
    requires IsRun(l, states, events)
    ensures |states| == |events| + 1
  {
  }

  // ---------------------------------------------------------------------------------------
  // A visit that nobody interrupts
  // ---------------------------------------------------------------------------------------

  // `n` actions of visit `v` and of nobody else.
  function Acts(l: Limits, s: State, v: Visit, n: nat): State {
    if n == 0 then s
    else
      var before := Acts(l, s, v, n - 1);
      if v in before.visits then Advanced(l, before, v) else before
  }

  // The visits in `visits`, but for visit `v`, are those of `others`.
  predicate OnlyMoves(visits: map<Visit, Stage>, others: map<Visit, Stage>, v: Visit) {
    v in visits && visits == others[v := visits[v]]
  }

  lemma OneMoves(l: Limits, s: State, v: Visit, others: map<Visit, Stage>)
    requires OnlyMoves(s.visits, others, v) && !s.visits[v].Returning?
    ensures OnlyMoves(Advanced(l, s, v).visits, others, v)
  {
    var t := Advanced(l, s, v);
    assert t.visits == s.visits[v := t.visits[v]];
  }

  // The `n`th action.
  lemma Acting(l: Limits, s: State, v: Visit, n: nat, others: map<Visit, Stage>)
    requires OnlyMoves(Acts(l, s, v, n).visits, others, v)
    ensures Acts(l, s, v, n + 1) == Advanced(l, Acts(l, s, v, n), v)
    ensures !Acts(l, s, v, n).visits[v].Returning? ==> OnlyMoves(Acts(l, s, v, n + 1).visits, others, v)
  {
    hide Advanced, OnlyMoves;
    assert v in Acts(l, s, v, n).visits by { OnlyMovesHasIt(Acts(l, s, v, n).visits, others, v); }
    if !Acts(l, s, v, n).visits[v].Returning? {
      OneMoves(l, Acts(l, s, v, n), v, others);
    }
  }

  lemma OnlyMovesHasIt(visits: map<Visit, Stage>, others: map<Visit, Stage>, v: Visit)
    requires OnlyMoves(visits, others, v)
    ensures v in visits && visits == others[v := visits[v]]
  {
  }

  lemma EntersAlone(s: State, v: Visit, ip: Ip)
    requires s.permits > 0
    ensures OnlyMoves(Arrived(s, v, ip).visits, s.visits, v)
  {
  }

  // Leaving gives back the visits there were.
  lemma LeavesOthers(visits: map<Visit, Stage>, others: map<Visit, Stage>, v: Visit)
    requires OnlyMoves(visits, others, v)
    ensures visits - {v} == others - {v}
    ensures v !in others ==> others - {v} == others
  {
  }

  lemma EntryTwice(perIp: map<Ip, nat>, ip: Ip, a: nat, b: nat)
    ensures perIp[ip := a][ip := b] == perIp[ip := b]
    ensures perIp[ip := a] - {ip} == perIp - {ip}
    ensures ip in perIp && a == perIp[ip] ==> perIp[ip := a] == perIp
  {
  }

  lemma ActsNothing(l: Limits, s: State, v: Visit)
    ensures Acts(l, s, v, 0) == s
  {
  }

  // As far as the entry of the map.
  lemma AdmitFinds(l: Limits, s: State, v: Visit, ip: Ip)
    requires s.lock.None? && s.permits > 0 && v !in s.visits
    ensures var e := Arrived(s, v, ip);
            && Acts(l, e, v, 2) == s.(permits := s.permits - 1, lock := Some(v),
                 perIp := s.perIp[ip := EntryOf(s.perIp, ip)], visits := s.visits[v := Found(ip)])
            && v in Acts(l, e, v, 0).visits && v in Acts(l, e, v, 1).visits
  {
    hide Acts, OnlyMoves;
    var e := Arrived(s, v, ip);
    ActsNothing(l, e, v);
    EntersAlone(s, v, ip);
    Acting(l, e, v, 0, s.visits);
    OnlyMovesHasIt(Acts(l, e, v, 1).visits, s.visits, v);
    Acting(l, e, v, 1, s.visits);
    OnlyMovesHasIt(Acts(l, e, v, 2).visits, s.visits, v);
    EntryTwice(s.perIp, ip, EntryOf(s.perIp, ip), 0);
  }

  // From there, with the entry at its limit.
  lemma AdmitRefuses(l: Limits, s: State, v: Visit, ip: Ip)
    requires s.lock.None? && s.permits > 0 && v !in s.visits && EntryOf(s.perIp, ip) >= l.maxPerIp
    ensures var e := Arrived(s, v, ip);
            && Acts(l, e, v, 5) == s.(perIp := s.perIp[ip := EntryOf(s.perIp, ip)])
            && forall k :: 0 <= k < 5 ==> v in Acts(l, e, v, k).visits
  {
    hide Acts, OnlyMoves, Arrived;
    var n, e := EntryOf(s.perIp, ip), Arrived(s, v, ip);
    AdmitFinds(l, s, v, ip);
    assert OnlyMoves(Acts(l, e, v, 2).visits, s.visits, v) by { FoundAlone(s.visits, v, Found(ip)); }
    Acting(l, e, v, 2, s.visits);
    OnlyMovesHasIt(Acts(l, e, v, 3).visits, s.visits, v);
    Acting(l, e, v, 3, s.visits);
    OnlyMovesHasIt(Acts(l, e, v, 4).visits, s.visits, v);
    Acting(l, e, v, 4, s.visits);
    LeavesOthers(Acts(l, e, v, 4).visits, s.visits, v);
  }

  // From there, with room for one more.
  lemma AdmitAdmits(l: Limits, s: State, v: Visit, ip: Ip)
    requires s.lock.None? && s.permits > 0 && v !in s.visits && EntryOf(s.perIp, ip) < l.maxPerIp
    ensures var e := Arrived(s, v, ip);
            && Acts(l, e, v, 6) == s.(
                 permits := s.permits - 1, perIp := s.perIp[ip := EntryOf(s.perIp, ip) + 1],
                 active := s.active + 1, total := s.total + 1, visits := s.visits[v := Open(ip)])
            && (forall k :: 0 <= k < 5 ==> v in Acts(l, e, v, k).visits)
            && OnlyMoves(Acts(l, e, v, 5).visits, s.visits, v)
  {
    hide Acts, OnlyMoves, Arrived;
    var n, e := EntryOf(s.perIp, ip), Arrived(s, v, ip);
    AdmitFinds(l, s, v, ip);
    assert OnlyMoves(Acts(l, e, v, 2).visits, s.visits, v) by { FoundAlone(s.visits, v, Found(ip)); }
    EntryTwice(s.perIp, ip, n, n + 1);
    Acting(l, e, v, 2, s.visits);
    OnlyMovesHasIt(Acts(l, e, v, 3).visits, s.visits, v);
    Acting(l, e, v, 3, s.visits);
    OnlyMovesHasIt(Acts(l, e, v, 4).visits, s.visits, v);
    Acting(l, e, v, 4, s.visits);
    OnlyMovesHasIt(Acts(l, e, v, 5).visits, s.visits, v);
    Acting(l, e, v, 5, s.visits);
    OnlyMovesHasIt(Acts(l, e, v, 6).visits, s.visits, v);
  }

  /** `admit` without anyone in between. */
  lemma UninterruptedAdmit(l: Limits, s: State, v: Visit, ip: Ip)
    requires s.lock.None? && s.permits > 0 && v !in s.visits
    ensures var n := EntryOf(s.perIp, ip);
            var entered := Arrived(s, v, ip);
            if n >= l.maxPerIp then Acts(l, entered, v, 5) == s.(perIp := s.perIp[ip := n])
            else Acts(l, entered, v, 6) == s.(
                   permits := s.permits - 1, perIp := s.perIp[ip := n + 1],
                   active := s.active + 1, total := s.total + 1, visits := s.visits[v := Open(ip)])
    ensures forall k :: 0 <= k < 5 ==> v in Acts(l, Arrived(s, v, ip), v, k).visits
    ensures EntryOf(s.perIp, ip) >= l.maxPerIp <==> v !in Acts(l, Arrived(s, v, ip), v, 5).visits
    ensures EntryOf(s.perIp, ip) < l.maxPerIp ==> OnlyMoves(Acts(l, Arrived(s, v, ip), v, 5).visits, s.visits, v)
  {
    hide Acts, OnlyMoves, Arrived;
    if EntryOf(s.perIp, ip) >= l.maxPerIp {
      AdmitRefuses(l, s, v, ip);
    } else {
      AdmitAdmits(l, s, v, ip);
      OnlyMovesHasIt(Acts(l, Arrived(s, v, ip), v, 5).visits, s.visits, v);
    }
  }

  lemma FoundAlone(visits: map<Visit, Stage>, v: Visit, g: Stage)
    ensures OnlyMoves(visits[v := g], visits, v)
  {
  }

  // As far as the lowered entry.
  lemma DropLowers(l: Limits, s: State, v: Visit)
    requires s.lock.None? && v in s.visits && s.visits[v].Open? && s.active > 0 && EntryOf(s.perIp, s.visits[v].ip) > 0
    ensures var ip := s.visits[v].ip;
            && Acts(l, s, v, 3) == s.(lock := Some(v), active := s.active - 1,
                 perIp := s.perIp[ip := EntryOf(s.perIp, ip) - 1], visits := s.visits[v := Lowered(ip)])
            && forall k :: 0 <= k < 3 ==> v in Acts(l, s, v, k).visits
  {
    hide Acts, OnlyMoves;
    ActsNothing(l, s, v);
    assert OnlyMoves(s.visits, s.visits, v) by { StandsStill(s.visits, v); }
    Acting(l, s, v, 0, s.visits);
    OnlyMovesHasIt(Acts(l, s, v, 1).visits, s.visits, v);
    Acting(l, s, v, 1, s.visits);
    OnlyMovesHasIt(Acts(l, s, v, 2).visits, s.visits, v);
    Acting(l, s, v, 2, s.visits);
    OnlyMovesHasIt(Acts(l, s, v, 3).visits, s.visits, v);
  }

  /** The drop of a guard without anyone in between. */
  lemma UninterruptedDrop(l: Limits, s: State, v: Visit)
    requires s.lock.None? && v in s.visits && s.visits[v].Open? && s.active > 0 && EntryOf(s.perIp, s.visits[v].ip) > 0
    ensures var ip := s.visits[v].ip;
            var n := EntryOf(s.perIp, ip) - 1;
            Acts(l, s, v, 6) == s.(
              permits := s.permits + 1, active := s.active - 1, visits := s.visits - {v},
              perIp := if n == 0 then s.perIp - {ip} else s.perIp[ip := n])
    ensures forall k :: 0 <= k < 6 ==> v in Acts(l, s, v, k).visits
  {
    hide Acts, OnlyMoves;
    var ip := s.visits[v].ip;
    DropLowers(l, s, v);
    EntryTwice(s.perIp, ip, EntryOf(s.perIp, ip) - 1, 0);
    assert OnlyMoves(Acts(l, s, v, 3).visits, s.visits, v) by { FoundAlone(s.visits, v, Lowered(ip)); }
    Acting(l, s, v, 3, s.visits);
    OnlyMovesHasIt(Acts(l, s, v, 4).visits, s.visits, v);
    Acting(l, s, v, 4, s.visits);
    OnlyMovesHasIt(Acts(l, s, v, 5).visits, s.visits, v);
    Acting(l, s, v, 5, s.visits);
    LeavesOthers(Acts(l, s, v, 5).visits, s.visits, v);
  }

  /** Dropping the guard undoes the admission, all but the total. */
  lemma DropUndoesAdmit(l: Limits, s: State, v: Visit, ip: Ip)
    requires Inv(l, s) && s.lock.None? && s.permits > 0 && v !in s.visits && EntryOf(s.perIp, ip) < l.maxPerIp
    ensures Acts(l, Acts(l, Arrived(s, v, ip), v, 6), v, 6) == s.(total := s.total + 1)
  {
    hide Acts, Advanced, Arrived, Inv, OnlyMoves;
    var n := EntryOf(s.perIp, ip);
    UninterruptedAdmit(l, s, v, ip);
    UninterruptedDrop(l, Acts(l, Arrived(s, v, ip), v, 6), v);
    EntryComesBack(s.perIp, ip);
    if n == 0 {
      NoZeroEntry(l, s, ip);
    }
    assert s.visits[v := Open(ip)] - {v} == s.visits;
  }

  lemma NoZeroEntry(l: Limits, s: State, ip: Ip)
    requires Inv(l, s) && s.lock.None? && l.maxPerIp > 0 && EntryOf(s.perIp, ip) == 0
    ensures ip !in s.perIp
  {
    hide MapVisits, ActiveVisits;
  }

  lemma EntryComesBack(perIp: map<Ip, nat>, ip: Ip)
    ensures var n := EntryOf(perIp, ip);
            && (ip in perIp ==> perIp[ip := n + 1][ip := n] == perIp)
            && (ip !in perIp ==> perIp[ip := n + 1] - {ip} == perIp)
  {
  }

  lemma StandsStill(visits: map<Visit, Stage>, v: Visit)
    requires v in visits
    ensures OnlyMoves(visits, visits, v)
  {
    assert visits[v := visits[v]] == visits;
  }

  // ---------------------------------------------------------------------------------------
  // The shared state
  // ---------------------------------------------------------------------------------------

  /** `AppState`, with the place of every visit in the code. */
  class AppState {
    const limits: Limits
    var permits: nat
    var lock: Option<Visit>
    var perIp: map<Ip, nat>
    var active: nat
    var total: nat
    var visits: map<Visit, Stage>

    function Value(): State
      reads this
    {
      State(permits, lock, perIp, active, total, visits)
    }

    ghost predicate Valid()
      reads this
    {
      Inv(limits, Value())
    }

    constructor (l: Limits)
      ensures Valid() && limits == l && Value() == Initial(l)
    {
      limits, permits, lock, perIp, active, total, visits := l, l.maxSessions, None, map[], 0, 0, map[];
      new;
      InitialHolds(l);
    }

    /** The start of `admit`. */
    method Arrive(v: Visit, ip: Ip) returns (admitted: bool)
      requires Valid() && v !in visits
      modifies this
      ensures Valid() && Value() == After(limits, old(Value()), Event.Arrive(v, ip))
      ensures admitted == (old(permits) > 0) && (admitted <==> v in visits)
    {
      hide Inv;
      StepHolds(limits, Value(), Event.Arrive(v, ip));
      if permits == 0 {
        return false;
      }
      permits := permits - 1;
      visits := visits[v := Permitted(ip)];
      return true;
    }

    /** One atomic action of visit `v`. */
    method Advance(v: Visit)
      requires Valid() && v in visits
      modifies this
      ensures Valid() && Value() == After(limits, old(Value()), Event.Advance(v))
    {
      hide Inv;
      StepHolds(limits, Value(), Event.Advance(v));
      match visits[v]
      case Permitted(ip) =>
        if lock.None? {
          lock, visits := Some(v), visits[v := Looking(ip)];
        }
      case Looking(ip) =>
        if ip !in perIp {
          perIp := perIp[ip := 0];
        }
        visits := visits[v := Found(ip)];
      case Found(ip) =>
        var n := if ip in perIp then perIp[ip] else 0;
        if n >= limits.maxPerIp {
          visits := visits[v := Refusing(ip)];
        } else {
          perIp, visits := perIp[ip := n + 1], visits[v := Counting(ip)];
        }
      case Refusing(ip) => lock, visits := None, visits[v := Returning(ip)];
      case Counting(ip) => lock, visits := None, visits[v := Counted(ip)];
      case Counted(ip) => active, visits := active + 1, visits[v := Activated(ip)];
      case Activated(ip) => total, visits := total + 1, visits[v := Open(ip)];
      case Open(ip) => active, visits := FetchSub1(active), visits[v := Closing(ip)];
      case Closing(ip) =>
        if lock.None? {
          lock, visits := Some(v), visits[v := Lowering(ip)];
        }
      case Lowering(ip) =>
        if ip in perIp {
          perIp := perIp[ip := SaturatingSub1(perIp[ip])];
        }
        visits := visits[v := Lowered(ip)];
      case Lowered(ip) =>
        if ip in perIp && perIp[ip] == 0 {
          perIp := perIp - {ip};
        }
        visits := visits[v := Cleared(ip)];
      case Cleared(ip) => lock, visits := None, visits[v := Returning(ip)];
      case Returning(_) => permits, visits := permits + 1, visits - {v};
    }

    /** `admit`, uninterrupted. */
    method Admit(v: Visit, ip: Ip) returns (rejected: Option<Reject>)
      requires Valid() && v !in visits && lock.None?
      modifies this
      ensures Valid() && lock.None?
      ensures rejected == if old(permits) == 0 then Some(Capacity)
                          else if EntryOf(old(perIp), ip) >= limits.maxPerIp then Some(PerIp)
                          else None
      ensures rejected.None? ==> Value() == old(Value()).(
                permits := old(permits) - 1, perIp := old(perIp)[ip := EntryOf(old(perIp), ip) + 1],
                active := old(active) + 1, total := old(total) + 1, visits := old(visits)[v := Open(ip)])
      ensures rejected == Some(Capacity) ==> Value() == old(Value())
      ensures rejected == Some(PerIp) ==> Value() == old(Value()).(perIp := old(perIp)[ip := EntryOf(old(perIp), ip)])
    {
      hide Inv, Advanced, Acts;
      ghost var s := Value();
      var admitted := Arrive(v, ip);
      if !admitted {
        return Some(Capacity);
      }
      UninterruptedAdmit(limits, s, v, ip);
      Repeat(v, 5);
      if v !in visits {
        return Some(PerIp);
      }
      Advance(v);
      Acting(limits, Arrived(s, v, ip), v, 5, s.visits);
      return None;
    }

    /** The drop of a guard, uninterrupted. */
    method DropGuard(v: Visit)
      requires Valid() && v in visits && visits[v].Open? && lock.None?
      modifies this
      ensures Valid() && lock.None?
      ensures old(active) > 0 && EntryOf(old(perIp), old(visits[v].ip)) > 0
      ensures var ip := old(visits[v].ip);
              var n := EntryOf(old(perIp), ip) - 1;
              Value() == old(Value()).(
                permits := old(permits) + 1, active := old(active) - 1, visits := old(visits) - {v},
                perIp := if n == 0 then old(perIp) - {ip} else old(perIp)[ip := n])
    {
      hide Advanced, Acts, MapVisits, ActiveVisits;
      ActiveIsCounted(visits, v);
      InMapIsCounted(visits, v);
      UninterruptedDrop(limits, Value(), v);
      Repeat(v, 6);
    }

    // `count` actions of visit `v`.
    method Repeat(v: Visit, count: nat)
      requires Valid() && forall k :: 0 <= k < count ==> v in Acts(limits, Value(), v, k).visits
      modifies this
      ensures Valid() && Value() == Acts(limits, old(Value()), v, count)
    {
      hide Inv, Advanced;
      for i := 0 to count
        invariant Valid() && Value() == Acts(limits, old(Value()), v, i)
      {
        assert v in Acts(limits, old(Value()), v, i).visits;
        Advance(v);
      }
    }
  }
}
