/**
 * The one-shot session store and the `/response` handler around it. A handler looks a
 * session up, awaits verification, and then records the outcome by state; polls, sweeps,
 * other handlers and the clock run in between.
 */
module SessionStore {
  import opened Options
  import opened Sets

  datatype Status = Pending | Done | Failed | Expired

  datatype Outcome = Verified(result: string) | Rejected(error: string)

  /** The part of a session that changes, with the fields that decide when. */
  datatype Record = Record(state: string, expiresAt: int, status: Status, result: Option<string>, error: Option<string>)

  // ----- The store's operations on values -----

  /** records holds every session ever created; a session's identity is its position. */
  datatype Sessions = Sessions(records: seq<Record>, table: map<string, nat>)

  ghost predicate Consistent(st: Sessions) {
    forall k :: k in st.table ==> st.table[k] < |st.records| && st.records[st.table[k]].state == k
  }

  function Lapsed(r: Record, now: int): bool {
    now >= r.expiresAt
  }

  function SpecCreate(st: Sessions, state: string, now: int, ttlMs: int): Option<Sessions> {
    if state in st.table then None
    else Some(Sessions(st.records + [Record(state, now + ttlMs, Pending, None, None)], st.table[state := |st.records|]))
  }

  function SpecGet(st: Sessions, state: string, now: int): (Sessions, Option<nat>)
    requires Consistent(st)
  {
    if state !in st.table then (st, None)
    else
      var i := st.table[state];
      if Lapsed(st.records[i], now)
      then (Sessions(st.records[i := st.records[i].(status := Expired)], st.table - {state}), Some(i))
      else (st, Some(i))
  }

  function Recorded(r: Record, outcome: Outcome): Record {
    match outcome
    case Verified(result) => r.(status := Done, result := Some(result))
    case Rejected(error) => r.(status := Failed, error := Some(error))
  }

  function SpecComplete(st: Sessions, state: string, outcome: Outcome, now: int): (Sessions, bool)
    requires Consistent(st)
  {
    if state !in st.table then (st, false)
    else
      var i := st.table[state];
      var r := st.records[i];
      if r.status != Pending then (st, false)
      else if Lapsed(r, now) then (Sessions(st.records[i := r.(status := Expired)], st.table - {state}), false)
      else (Sessions(st.records[i := Recorded(r, outcome)], st.table), true)
  }

  function SpecSweep(st: Sessions, now: int): Sessions
    requires Consistent(st)
  {
    Sessions(st.records, map k | k in st.table && !Lapsed(st.records[st.table[k]], now) :: st.table[k])
  }

  /** A sweep under way: the keys still to be visited are untouched. */
  ghost function SweptExcept(st: Sessions, keys: set<string>, now: int): Sessions
    requires Consistent(st)
  {
    Sessions(st.records, map k | k in st.table && (k in keys || !Lapsed(st.records[st.table[k]], now)) :: st.table[k])
  }

  ghost predicate SweepState(before: Sessions, st: Sessions, keys: set<string>, now: int) {
    Consistent(before) && keys <= st.table.Keys && st == SweptExcept(before, keys, now)
  }

  lemma NothingSwept(st: Sessions, now: int)
    requires Consistent(st)
    ensures SweepState(st, st, st.table.Keys, now)
  {
    assert SweptExcept(st, st.table.Keys, now).table == st.table;
  }

  lemma NothingLeft(before: Sessions, st: Sessions, now: int)
    requires SweepState(before, st, {}, now)
    ensures st == SpecSweep(before, now)
  {
  }

  lemma SweepOne(st: Sessions, keys: set<string>, k: string, now: int)
    requires Consistent(st) && k in st.table && k !in keys
    ensures var with, without := SweptExcept(st, keys + {k}, now), SweptExcept(st, keys, now);
      && k in with.table && with.table[k] == st.table[k]
      && without == if Lapsed(st.records[st.table[k]], now) then Sessions(with.records, with.table - {k}) else with
  {
    var with, without := SweptExcept(st, keys + {k}, now), SweptExcept(st, keys, now);
    if Lapsed(st.records[st.table[k]], now) {
      assert without.table == with.table - {k};
    } else {
      assert without.table == with.table;
    }
  }

  // ----- The store object -----

  class Session {
    const state: string
    const expiresAt: int
    var status: Status
    var result: Option<string>
    var error: Option<string>

    constructor (state: string, expiresAt: int)
      ensures View() == Record(state, expiresAt, Pending, None, None)
    {
      this.state, this.expiresAt := state, expiresAt;
      status, result, error := Pending, None, None;
    }

    ghost function View(): Record
      reads this
    {
      Record(state, expiresAt, status, result, error)
    }
  }

  class Store {
    var sessions: map<string, Session>
    const ttlMs: int
    /** Every session ever created, and where each current one sits among them. */
    ghost var all: seq<Session>
    ghost var table: map<string, nat>

    ghost predicate Valid()
      reads this, all
    {
      && (forall i, j :: 0 <= i < j < |all| ==> all[i] != all[j])
      && table.Keys == sessions.Keys
      && (forall k :: k in sessions ==> table[k] < |all| && all[table[k]] == sessions[k] && sessions[k].state == k)
    }

    ghost function Abs(): (st: Sessions)
      requires Valid()
      reads this, all
      ensures Consistent(st)
    {
      Sessions(seq(|all|, i requires 0 <= i < |all| reads this, all => all[i].View()), table)
    }

    constructor (ttlMs: int)
      ensures Valid() && all == [] && this.ttlMs == ttlMs
      ensures Abs() == Sessions([], map[])
    {
      this.ttlMs := ttlMs;
      sessions, all, table := map[], [], map[];
    }

    /** None where the original throws on a state collision. */
    method Create(state: string, now: int) returns (r: Option<Session>)
      requires Valid()
      modifies this
      ensures Valid()
      ensures r.None? <==> SpecCreate(old(Abs()), state, now, ttlMs).None?
      ensures r.None? ==> Abs() == old(Abs())
      ensures r.Some? ==> Abs() == SpecCreate(old(Abs()), state, now, ttlMs).value && all == old(all) + [r.value]
      ensures r.Some? <==> state !in old(sessions)
      ensures r.Some? ==> sessions == old(sessions)[state := r.value] && fresh(r.value)
      ensures r.Some? ==> r.value.View() == Record(state, now + ttlMs, Pending, None, None)
      ensures r.None? ==> sessions == old(sessions)
    {
      if state in sessions {
        return None;
      }
      var session := new Session(state, now + ttlMs);
      table := table[state := |all|];
      sessions := sessions[state := session];
      all := all + [session];
      assert Abs().records == old(Abs()).records + [session.View()];
      r := Some(session);
    }

    method Get(state: string, now: int) returns (r: Option<Session>)
      requires Valid()
      modifies this, all
      ensures Valid() && all == old(all)
      ensures Abs() == SpecGet(old(Abs()), state, now).0
      ensures var i := SpecGet(old(Abs()), state, now).1; if i.Some? then r == Some(all[i.value]) else r == None
      ensures if state in old(sessions) then r == Some(old(sessions)[state]) else r == None
      ensures r.Some? && now >= r.value.expiresAt ==> r.value.status == Expired && sessions == old(sessions) - {state}
      ensures r.Some? && now < r.value.expiresAt ==> r.value.View() == old(sessions[state].View())
      ensures r.None? || now < r.value.expiresAt ==> sessions == old(sessions)
    {
      if state !in sessions {
        return None;
      }
      var session := sessions[state];
      if now >= session.expiresAt {
        Expire(state);
        return Some(session);
      }
      r := Some(session);
    }

    /** Marks a session as expired and drops it from the map. */
    method Expire(state: string)
      requires Valid() && state in sessions
      modifies this, sessions[state]
      ensures Valid() && all == old(all)
      ensures sessions == old(sessions) - {state} && old(sessions)[state].status == Expired
      ensures var st, i := old(Abs()), old(table)[state];
        Abs() == Sessions(st.records[i := st.records[i].(status := Expired)], st.table - {state})
    {
      ghost var st, i := Abs(), table[state];
      sessions[state].status := Expired;
      sessions := sessions - {state};
      table := table - {state};
      assert Abs().records == st.records[i := st.records[i].(status := Expired)];
    }

    method Complete(state: string, outcome: Outcome, now: int) returns (ok: bool)
      requires Valid()
      modifies this, all
      ensures Valid() && all == old(all)
      ensures (Abs(), ok) == SpecComplete(old(Abs()), state, outcome, now)
      ensures ok <==>
        state in old(sessions) && old(sessions[state].status) == Pending && now < old(sessions)[state].expiresAt
      ensures ok ==> match outcome
        case Verified(x) =>
          var session := old(sessions)[state];
          session.status == Done && session.result == Some(x) && session.error == old(sessions[state].error)
        case Rejected(x) =>
          var session := old(sessions)[state];
          session.status == Failed && session.error == Some(x) && session.result == old(sessions[state].result)
    {
      if state !in sessions {
        return false;
      }
      var session := sessions[state];
      if session.status != Pending {
        return false;
      }
      if now >= session.expiresAt {
        Expire(state);
        return false;
      }
      ghost var st, i := Abs(), table[state];
      match outcome {
        case Rejected(error) =>
          session.status := Failed;
          session.error := Some(error);
        case Verified(result) =>
          session.status := Done;
          session.result := Some(result);
      }
      assert Abs().records == st.records[i := Recorded(st.records[i], outcome)];
      return true;
    }

    /** The periodic sweep: deletes lapsed entries one by one, leaving the session objects as they are. */
    method Sweep(now: int)
      requires Valid()
      modifies this
      ensures Valid() && all == old(all)
      ensures Abs() == SpecSweep(old(Abs()), now)
      ensures forall k :: k in sessions <==> k in old(sessions) && now < old(sessions)[k].expiresAt
      ensures forall k :: k in sessions ==> sessions[k] == old(sessions)[k]
    {
      var keys := sessions.Keys;
      ghost var before := Abs();
      NothingSwept(before, now);
      while keys != {}
        invariant Valid() && all == old(all)
        invariant SweepState(before, Abs(), keys, now)
        decreases |keys|
      {
        var k :| k in keys;
        WithoutOne(keys, k);
        SweepKey(k, now, before, keys - {k});
        keys := keys - {k};
      }
      NothingLeft(before, Abs(), now);
    }

    /** One turn of the sweep. */
    method SweepKey(k: string, now: int, ghost before: Sessions, ghost rest: set<string>)
      requires Valid() && k !in rest && SweepState(before, Abs(), rest + {k}, now)
      modifies this
      ensures Valid() && all == old(all)
      ensures SweepState(before, Abs(), rest, now)
    {
      assert k in rest + {k};
      SweepOne(before, rest, k, now);
      DropIfLapsed(k, now);
    }

    method DropIfLapsed(k: string, now: int)
      requires Valid() && k in Abs().table
      modifies this
      ensures Valid() && all == old(all)
      ensures var st := old(Abs());
        Abs() == if Lapsed(st.records[st.table[k]], now) then Sessions(st.records, st.table - {k}) else st
    {
      ghost var st := Abs();
      assert st.records[table[k]] == sessions[k].View();
      if now >= sessions[k].expiresAt {
        sessions := sessions - {k};
        table := table - {k};
        assert Abs().records == st.records;
      }
    }

    /** Seconds until expiry, rounded up; 0 for a missing or lapsed session. */
    method TtlSeconds(state: string, now: int) returns (seconds: int)
      requires Valid()
      ensures seconds >= 0
      ensures state !in Abs().table ==> seconds == 0
      ensures state in Abs().table ==>
        var left := Abs().records[Abs().table[state]].expiresAt - now;
        if left <= 0 then seconds == 0 else left <= seconds * 1000 < left + 1000
    {
      if state !in sessions {
        return 0;
      }
      var left := sessions[state].expiresAt - now;
      seconds := if left <= 0 then 0 else (left + 999) / 1000;
    }
  }

  // ----- Handlers, polls, sweeps and the clock -----

  /** A handler past its lookup verifies against the session object it was given. */
  datatype Handler = Verifying(state: string, session: nat) | Answered(session: nat, recorded: bool) | Refused

  /** How the awaited verification ends; a thrown error records nothing. */
  datatype Ending = Finished(outcome: Outcome) | Threw

  datatype System = System(now: int, store: Sessions, handlers: seq<Handler>)

  datatype Event =
    | Tick(elapsed: nat)
    | Create(state: string)
    | Poll(state: string)
    | Respond(state: string, encrypted: bool)
    | Resume(handler: nat, ending: Ending)
    | SweepAll

  const ENCRYPTED: Outcome := Rejected("Encrypted responses are not supported by this verifier.")

  ghost predicate Enabled(s: System, e: Event) {
    match e
    case Resume(h, _) => h < |s.handlers| && s.handlers[h].Verifying?
    case Create(state) => state !in s.store.table
    case _ => true
  }

  /** The synchronous part of the handler, up to its answer or its await. */
  function StartResponse(st: Sessions, state: string, encrypted: bool, now: int): (Sessions, Handler)
    requires Consistent(st)
  {
    var (st', found) := SpecGet(st, state, now);
    if found.None? || st'.records[found.value].status != Pending then (st', Refused)
    else if encrypted then
      var (st'', ok) := SpecComplete(st', state, ENCRYPTED, now);
      (st'', Answered(found.value, ok))
    else (st', Verifying(state, found.value))
  }

  ghost function Step(s: System, e: Event, ttlMs: int): System
    requires Consistent(s.store) && Enabled(s, e)
  {
    match e
    case Tick(d) => s.(now := s.now + d)
    case Create(state) => s.(store := SpecCreate(s.store, state, s.now, ttlMs).value)
    case Poll(state) => s.(store := SpecGet(s.store, state, s.now).0)
    case Respond(state, encrypted) =>
      var (st, h) := StartResponse(s.store, state, encrypted, s.now);
      s.(store := st, handlers := s.handlers + [h])
    case Resume(h, ending) =>
      var started := s.handlers[h];
      (match ending
       case Threw => s.(handlers := s.handlers[h := Answered(started.session, false)])
       case Finished(outcome) =>
         var (st, ok) := SpecComplete(s.store, started.state, outcome, s.now);
         s.(store := st, handlers := s.handlers[h := Answered(started.session, ok)]))
    case SweepAll => s.(store := SpecSweep(s.store, s.now))
  }

  ghost predicate StepsTo(s: System, s': System, ttlMs: int) {
    Consistent(s.store) && exists e :: Enabled(s, e) && s' == Step(s, e, ttlMs)
  }

  ghost predicate StepsAt(run: seq<System>, i: int, ttlMs: int)
    requires 0 <= i < |run| - 1
  {
    StepsTo(run[i], run[i + 1], ttlMs)
  }

  ghost predicate IsRun(run: seq<System>, ttlMs: int) {
    && run != [] && run[0] == System(run[0].now, Sessions([], map[]), [])
    && forall i :: 0 <= i < |run| - 1 ==> StepsAt(run, i, ttlMs)
  }

  // ----- What a session's record does over time -----

  /** Pending to done or failed, and anything to expired; nothing else. */
  predicate MayBecome(a: Status, b: Status) {
    a == b || b == Expired || a == Pending
  }

  /** Identity and deadline are fixed; the outcome is fixed once the session is no longer pending. */
  ghost predicate Evolves(r: Record, r': Record) {
    && r'.state == r.state && r'.expiresAt == r.expiresAt
    && MayBecome(r.status, r'.status)
    && (r.status != Pending ==> r'.result == r.result && r'.error == r.error)
  }

  /** Outcomes are there exactly when the status says so. */
  ghost predicate WellRecorded(r: Record) {
    && (r.status == Pending ==> r.result.None? && r.error.None?)
    && (r.status == Done ==> r.result.Some? && r.error.None?)
    && (r.status == Failed ==> r.result.None? && r.error.Some?)
    && !(r.result.Some? && r.error.Some?)
  }

  /** No step invents, drops or renames a session, and every record evolves. */
  lemma StepEvolves(s: System, s': System, ttlMs: int, i: nat)
    requires StepsTo(s, s', ttlMs) && i < |s.store.records|
    ensures |s.store.records| <= |s'.store.records| && Evolves(s.store.records[i], s'.store.records[i])
    ensures s.now <= s'.now && |s.handlers| <= |s'.handlers|
  {
  }

  lemma {:induction false} RunIsGood(run: seq<System>, ttlMs: int, i: nat)
    requires IsRun(run, ttlMs) && i < |run|
    ensures Good(run[i].store)
  {
    if i > 0 {
      RunIsGood(run, ttlMs, i - 1);
      assert StepsAt(run, i - 1, ttlMs);
      var e :| Enabled(run[i - 1], e) && run[i] == Step(run[i - 1], e, ttlMs);
      StepKeepsGood(run[i - 1], e, ttlMs);
    }
  }

  ghost predicate Good(st: Sessions) {
    Consistent(st) && forall o :: 0 <= o < |st.records| ==> WellRecorded(st.records[o])
  }

  lemma GetKeepsGood(st: Sessions, state: string, now: int)
    requires Good(st)
    ensures Good(SpecGet(st, state, now).0)
  {
  }

  lemma CompleteKeepsGood(st: Sessions, state: string, outcome: Outcome, now: int)
    requires Good(st)
    ensures Good(SpecComplete(st, state, outcome, now).0)
  {
  }

  lemma StepKeepsGood(s: System, e: Event, ttlMs: int)
    requires Good(s.store) && Enabled(s, e)
    ensures Good(Step(s, e, ttlMs).store)
  {
    match e
    case Poll(state) => GetKeepsGood(s.store, state, s.now);
    case Respond(state, encrypted) =>
      GetKeepsGood(s.store, state, s.now);
      CompleteKeepsGood(SpecGet(s.store, state, s.now).0, state, ENCRYPTED, s.now);
    case Resume(h, ending) =>
      if ending.Finished? { CompleteKeepsGood(s.store, s.handlers[h].state, ending.outcome, s.now); }
    case _ =>
  }

  /** Over any stretch of any run a session's record evolves: its outcome, once set, never changes. */
  lemma {:induction false} RecordsEvolve(run: seq<System>, ttlMs: int, i: nat, j: nat, o: nat)
    requires IsRun(run, ttlMs) && i <= j < |run| && o < |run[i].store.records|
    ensures o < |run[j].store.records| && Evolves(run[i].store.records[o], run[j].store.records[o])
    ensures run[i].now <= run[j].now
    decreases j
  {
    if i < j {
      RecordsEvolve(run, ttlMs, i, j - 1, o);
      RunStepEvolves(run, ttlMs, j - 1, o);
      EvolvesThrough(run[i].store.records[o], run[j - 1].store.records[o], run[j].store.records[o]);
    }
  }

  lemma RunStepEvolves(run: seq<System>, ttlMs: int, j: nat, o: nat)
    requires IsRun(run, ttlMs) && j + 1 < |run| && o < |run[j].store.records|
    ensures o < |run[j + 1].store.records| && Evolves(run[j].store.records[o], run[j + 1].store.records[o])
    ensures run[j].now <= run[j + 1].now
  {
    assert StepsAt(run, j, ttlMs);
    StepEvolves(run[j], run[j + 1], ttlMs, o);
  }

  lemma EvolvesThrough(a: Record, b: Record, c: Record)
    requires Evolves(a, b) && Evolves(b, c)
    ensures Evolves(a, c)
  {
  }

  ghost predicate HasOutcome(r: Record) {
    r.result.Some? || r.error.Some?
  }

  /** The step from state k records the session's outcome, while it is pending and before its deadline. */
  ghost predicate RecordedAt(run: seq<System>, k: int, o: nat) {
    && 0 <= k < |run| - 1 && o < |run[k].store.records| && o < |run[k + 1].store.records|
    && run[k].store.records[o].status == Pending
    && HasOutcome(run[k + 1].store.records[o])
    && run[k].now < run[k].store.records[o].expiresAt
  }

  lemma OutcomeAppears(s: System, s': System, ttlMs: int, o: nat)
    requires StepsTo(s, s', ttlMs) && o < |s'.store.records| && HasOutcome(s'.store.records[o])
    requires Good(s.store)
    ensures o < |s.store.records|
    ensures HasOutcome(s.store.records[o]) ||
      (s.store.records[o].status == Pending && s.now < s.store.records[o].expiresAt)
  {
  }

  /**
   * In every interleaving, a session that has an outcome got it in exactly one step, while it was
   * pending and strictly before its deadline.
   */
  lemma {:induction false} OutcomeIsRecordedOnce(run: seq<System>, ttlMs: int, j: nat, o: nat)
    requires IsRun(run, ttlMs) && j < |run| && o < |run[j].store.records| && HasOutcome(run[j].store.records[o])
    ensures exists k :: 0 <= k < j && RecordedAt(run, k, o)
    ensures forall k, m :: RecordedAt(run, k, o) && RecordedAt(run, m, o) ==> k == m
  {
    if j > 0 {
      RunIsGood(run, ttlMs, j - 1);
      assert StepsAt(run, j - 1, ttlMs);
      OutcomeAppears(run[j - 1], run[j], ttlMs, o);
      if HasOutcome(run[j - 1].store.records[o]) {
        OutcomeIsRecordedOnce(run, ttlMs, j - 1, o);
      } else {
        assert RecordedAt(run, j - 1, o);
      }
    }
    forall k, m | RecordedAt(run, k, o) && RecordedAt(run, m, o)
      ensures k == m
    {
      NotTwice(run, ttlMs, k, m, o);
      NotTwice(run, ttlMs, m, k, o);
    }
  }

  lemma NotTwice(run: seq<System>, ttlMs: int, k: int, m: int, o: nat)
    requires IsRun(run, ttlMs) && RecordedAt(run, k, o) && RecordedAt(run, m, o)
    ensures k >= m
  {
    if k < m {
      RunIsGood(run, ttlMs, k + 1);
      RecordsEvolve(run, ttlMs, k + 1, m, o);
    }
  }

  // ----- Which handler an outcome comes from -----

  /** No state is given to a second session: the library draws a fresh one for each. */
  ghost predicate StatesUnique(st: Sessions) {
    forall i, j :: 0 <= i < j < |st.records| ==> st.records[i].state != st.records[j].state
  }

  /** A handler past its lookup holds a session with its state; one that recorded left it completed. */
  ghost predicate Holds(st: Sessions, h: Handler) {
    match h
    case Verifying(state, i) => i < |st.records| && st.records[i].state == state
    case Answered(i, recorded) => i < |st.records| && (recorded ==> st.records[i].status != Pending)
    case Refused => true
  }

  ghost predicate HandlersHold(s: System) {
    forall h :: 0 <= h < |s.handlers| ==> Holds(s.store, s.handlers[h])
  }

  lemma HoldsLater(s: System, s': System, ttlMs: int, h: Handler)
    requires StepsTo(s, s', ttlMs) && Holds(s.store, h)
    ensures Holds(s'.store, h)
  {
    if !h.Refused? { StepEvolves(s, s', ttlMs, h.session); }
  }

  /** What the step does to the handler it runs. */
  lemma ResumedHandlerHolds(s: System, h: nat, outcome: Outcome)
    requires Good(s.store) && StatesUnique(s.store)
    requires h < |s.handlers| && s.handlers[h].Verifying? && Holds(s.store, s.handlers[h])
    ensures var (st, ok) := SpecComplete(s.store, s.handlers[h].state, outcome, s.now);
      var own, records := s.handlers[h].session, s.store.records;
      && Holds(st, Answered(own, ok))
      && (ok ==> records[own].status == Pending && st.records == records[own := Recorded(records[own], outcome)])
  {
    var state, i := s.handlers[h].state, s.handlers[h].session;
    if state in s.store.table {
      assert s.store.records[s.store.table[state]].state == s.store.records[i].state;
      assert s.store.table[state] == i;
    }
  }

  lemma StartedHandlerHolds(st: Sessions, state: string, encrypted: bool, now: int)
    requires Good(st)
    ensures var (st', h) := StartResponse(st, state, encrypted, now); Holds(st', h)
    ensures var (st', h) := StartResponse(st, state, encrypted, now);
      h.Answered? && h.recorded ==> h.session < |st.records| && st.records[h.session].status == Pending
  {
  }

  lemma StepKeepsHandlers(s: System, e: Event, ttlMs: int)
    requires Good(s.store) && StatesUnique(s.store) && HandlersHold(s) && Enabled(s, e)
    ensures HandlersHold(Step(s, e, ttlMs))
  {
    var s' := Step(s, e, ttlMs);
    assert StepsTo(s, s', ttlMs);
    forall h | 0 <= h < |s'.handlers|
      ensures Holds(s'.store, s'.handlers[h])
    {
      if h < |s.handlers| { HoldsLater(s, s', ttlMs, s.handlers[h]); }
      match e
      case Respond(state, encrypted) => StartedHandlerHolds(s.store, state, encrypted, s.now);
      case Resume(r, ending) => if r == h && ending.Finished? { ResumedHandlerHolds(s, h, ending.outcome); }
      case _ =>
    }
  }

  lemma {:induction false} RunKeepsHandlers(run: seq<System>, ttlMs: int, i: nat)
    requires IsRun(run, ttlMs) && i < |run|
    requires forall k :: 0 <= k <= i ==> StatesUnique(run[k].store)
    ensures HandlersHold(run[i])
  {
    if i > 0 {
      RunKeepsHandlers(run, ttlMs, i - 1);
      RunIsGood(run, ttlMs, i - 1);
      assert StepsAt(run, i - 1, ttlMs);
      var e :| Enabled(run[i - 1], e) && run[i] == Step(run[i - 1], e, ttlMs);
      StepKeepsHandlers(run[i - 1], e, ttlMs);
    }
  }

  /**
   * When states are never reused, a resumed handler that records does so in the very session it
   * verified against, so the recorded outcome was checked against that session's nonce.
   */
  lemma OutcomeComesFromItsOwnHandler(run: seq<System>, ttlMs: int, i: nat, h: nat, outcome: Outcome)
    requires IsRun(run, ttlMs) && i < |run| && Enabled(run[i], Resume(h, Finished(outcome)))
    requires forall k :: 0 <= k <= i ==> StatesUnique(run[k].store)
    ensures Good(run[i].store) && HandlersHold(run[i])
    ensures var own := run[i].handlers[h].session;
      var s' := Step(run[i], Resume(h, Finished(outcome)), ttlMs);
      var before, after := run[i].store.records, s'.store.records;
      forall o :: 0 <= o < |before| && HasOutcome(after[o]) && !HasOutcome(before[o]) ==>
        && o == own && after[o].state == before[o].state && after[o].expiresAt == before[o].expiresAt
        && match outcome
           case Verified(x) => after[o].status == Done && after[o].result == Some(x) && after[o].error == None
           case Rejected(x) => after[o].status == Failed && after[o].result == None && after[o].error == Some(x)
  {
    RunIsGood(run, ttlMs, i);
    RunKeepsHandlers(run, ttlMs, i);
    ResumedHandlerHolds(run[i], h, outcome);
  }

  // ----- Where an outcome comes from, field by field -----

  /** The step from state k resumes handler h, which verified against session o, with that outcome. */
  ghost predicate ResumedWith(run: seq<System>, ttlMs: int, k: int, h: nat, o: nat, outcome: Outcome) {
    && 0 <= k < |run| - 1 && h < |run[k].handlers| && run[k].handlers[h].Verifying? && run[k].handlers[h].session == o
    && Consistent(run[k].store) && run[k + 1] == Step(run[k], Resume(h, Finished(outcome)), ttlMs)
  }

  /** The step from state k answers an encrypted response for session o. */
  ghost predicate RefusedEncrypted(run: seq<System>, ttlMs: int, k: int, o: nat) {
    && 0 <= k < |run| - 1 && o < |run[k].store.records| && Consistent(run[k].store)
    && run[k + 1] == Step(run[k], Respond(run[k].store.records[o].state, true), ttlMs)
  }

  /** A result was delivered by a handler of the session, and so was an error, unless the response was encrypted. */
  ghost predicate HasSource(run: seq<System>, ttlMs: int, o: nat, r: Record) {
    && (r.result.Some? ==> exists k, h :: ResumedWith(run, ttlMs, k, h, o, Verified(r.result.value)))
    && (r.error.Some? ==>
         || (exists k, h :: ResumedWith(run, ttlMs, k, h, o, Rejected(r.error.value)))
         || (r.error.value == "Encrypted responses are not supported by this verifier." &&
             exists k :: RefusedEncrypted(run, ttlMs, k, o)))
  }

  /** A step that gives session o an outcome resumes a handler of o with it or refuses an encrypted response. */
  lemma StepHasSource(s: System, e: Event, ttlMs: int, o: nat)
    requires Good(s.store) && StatesUnique(s.store) && HandlersHold(s) && Enabled(s, e)
    requires o < |s.store.records| && !HasOutcome(s.store.records[o])
    requires HasOutcome(Step(s, e, ttlMs).store.records[o])
    ensures var r := Step(s, e, ttlMs).store.records[o];
      || (e.Resume? && s.handlers[e.handler].session == o && e.ending.Finished? &&
          match e.ending.outcome
          case Verified(x) => r.status == Done && r.result == Some(x) && r.error == None
          case Rejected(x) => r.status == Failed && r.result == None && r.error == Some(x))
      || (e == Respond(s.store.records[o].state, true) && r.status == Failed && r.result == None &&
          r.error == Some("Encrypted responses are not supported by this verifier."))
  {
    assert WellRecorded(s.store.records[o]);
    if e.Resume? && e.ending.Finished? {
      assert Holds(s.store, s.handlers[e.handler]);
      ResumedHandlerHolds(s, e.handler, e.ending.outcome);
    }
  }

  lemma SourceLasts(run: seq<System>, ttlMs: int, o: nat, r: Record, r': Record)
    requires HasSource(run, ttlMs, o, r) && r'.result == r.result && r'.error == r.error
    ensures HasSource(run, ttlMs, o, r')
  {
  }

  /** When states are never reused, every outcome that a session shows at any time was delivered for that session. */
  lemma {:induction false} OutcomesHaveSources(run: seq<System>, ttlMs: int, i: nat, o: nat)
    requires IsRun(run, ttlMs) && i < |run| && o < |run[i].store.records|
    requires forall k :: 0 <= k <= i ==> StatesUnique(run[k].store)
    ensures HasSource(run, ttlMs, o, run[i].store.records[o])
  {
    if i > 0 && HasOutcome(run[i].store.records[o]) {
      var s := run[i - 1];
      RunIsGood(run, ttlMs, i - 1);
      RunKeepsHandlers(run, ttlMs, i - 1);
      assert StepsAt(run, i - 1, ttlMs);
      var e :| Enabled(s, e) && run[i] == Step(s, e, ttlMs);
      OutcomeAppears(s, run[i], ttlMs, o);
      if HasOutcome(s.store.records[o]) {
        OutcomesHaveSources(run, ttlMs, i - 1, o);
        StepEvolves(s, run[i], ttlMs, o);
        assert WellRecorded(s.store.records[o]);
        SourceLasts(run, ttlMs, o, s.store.records[o], run[i].store.records[o]);
      } else {
        StepHasSource(s, e, ttlMs, o);
        if e.Resume? { assert ResumedWith(run, ttlMs, i - 1, e.handler, o, e.ending.outcome); }
        else { assert RefusedEncrypted(run, ttlMs, i - 1, o); }
      }
    }
  }

  /** A session is done only with a verified result and failed only with a rejection, each delivered for it. */
  lemma DoneOnlyIfVerified(run: seq<System>, ttlMs: int, i: nat, o: nat)
    requires IsRun(run, ttlMs) && i < |run| && o < |run[i].store.records|
    requires forall k :: 0 <= k <= i ==> StatesUnique(run[k].store)
    ensures var r := run[i].store.records[o];
      && (r.status == Done ==>
           && r.result.Some? && r.error.None?
           && exists k, h :: ResumedWith(run, ttlMs, k, h, o, Verified(r.result.value)))
      && (r.status == Failed ==>
           && r.error.Some? && r.result.None?
           && ((exists k, h :: ResumedWith(run, ttlMs, k, h, o, Rejected(r.error.value))) ||
               (r.error.value == "Encrypted responses are not supported by this verifier." &&
                exists k :: RefusedEncrypted(run, ttlMs, k, o))))
  {
    RunIsGood(run, ttlMs, i);
    assert WellRecorded(run[i].store.records[o]);
    OutcomesHaveSources(run, ttlMs, i, o);
  }

  // ----- Responses in time are recorded -----

  /** A pending session before its deadline is still found under its state. */
  ghost predicate Listed(s: System, o: nat) {
    o < |s.store.records| && s.store.records[o].status == Pending && s.now < s.store.records[o].expiresAt ==>
      s.store.records[o].state in s.store.table && s.store.table[s.store.records[o].state] == o
  }

  lemma StepKeepsListed(s: System, e: Event, ttlMs: int, o: nat)
    requires Good(s.store) && Enabled(s, e) && Listed(s, o)
    ensures Listed(Step(s, e, ttlMs), o)
  {
  }

  lemma {:induction false} PendingSessionsAreListed(run: seq<System>, ttlMs: int, i: nat, o: nat)
    requires IsRun(run, ttlMs) && i < |run|
    ensures Listed(run[i], o)
  {
    if i > 0 {
      PendingSessionsAreListed(run, ttlMs, i - 1, o);
      RunIsGood(run, ttlMs, i - 1);
      assert StepsAt(run, i - 1, ttlMs);
      var e :| Enabled(run[i - 1], e) && run[i] == Step(run[i - 1], e, ttlMs);
      StepKeepsListed(run[i - 1], e, ttlMs, o);
    }
  }

  /**
   * When states are never reused, a resumed handler records its outcome exactly when its own session is then
   * pending and before its deadline.
   */
  lemma RecordsExactlyInTime(run: seq<System>, ttlMs: int, i: nat, h: nat, outcome: Outcome)
    requires IsRun(run, ttlMs) && i < |run| && Enabled(run[i], Resume(h, Finished(outcome)))
    requires forall k :: 0 <= k <= i ==> StatesUnique(run[k].store)
    ensures Good(run[i].store) && HandlersHold(run[i])
    ensures var own := run[i].handlers[h].session;
      own < |run[i].store.records| &&
      (Step(run[i], Resume(h, Finished(outcome)), ttlMs).handlers[h] == Answered(own, true) <==>
        run[i].store.records[own].status == Pending && run[i].now < run[i].store.records[own].expiresAt)
  {
    RunIsGood(run, ttlMs, i);
    RunKeepsHandlers(run, ttlMs, i);
    assert Holds(run[i].store, run[i].handlers[h]);
    PendingSessionsAreListed(run, ttlMs, i, run[i].handlers[h].session);
    ResumedHandlerHolds(run[i], h, outcome);
  }

  /**
   * What a new response meets: it is verified exactly when its state names a pending session before its deadline
   * and the response is not encrypted; an encrypted one fails that session at once; any other is refused.
   */
  lemma ResponseMeets(st: Sessions, state: string, encrypted: bool, now: int)
    requires Good(st)
    ensures var (st', h) := StartResponse(st, state, encrypted, now);
      if state in st.table && st.records[st.table[state]].status == Pending &&
         now < st.records[st.table[state]].expiresAt
      then
        var o := st.table[state];
        if encrypted then
          h == Answered(o, true) && st'.table == st.table && st'.records ==
            st.records[o := st.records[o].(status := Failed,
              error := Some("Encrypted responses are not supported by this verifier."))]
        else h == Verifying(state, o) && st' == st
      else h == Refused
  {
  }

  predicate Recorder(h: Handler) {
    h.Answered? && h.recorded
  }

  ghost predicate AtMostOneRecorder(s: System) {
    forall g, h :: 0 <= g < h < |s.handlers| && Recorder(s.handlers[g]) && Recorder(s.handlers[h]) ==>
      s.handlers[g].session != s.handlers[h].session
  }

  lemma StepKeepsOneRecorder(s: System, e: Event, ttlMs: int)
    requires Good(s.store) && StatesUnique(s.store) && HandlersHold(s) && Enabled(s, e) && AtMostOneRecorder(s)
    ensures AtMostOneRecorder(Step(s, e, ttlMs))
  {
    forall g | 0 <= g < |s.handlers| && Recorder(s.handlers[g])
      ensures s.handlers[g].session < |s.store.records| && s.store.records[s.handlers[g].session].status != Pending
    {
      assert Holds(s.store, s.handlers[g]);
    }
    match e
    case Respond(state, encrypted) => StartedHandlerHolds(s.store, state, encrypted, s.now);
    case Resume(h, ending) => if ending.Finished? { ResumedHandlerHolds(s, h, ending.outcome); }
    case _ =>
  }

  /** Of all the handlers that ever answer for a session, at most one records its outcome. */
  lemma {:induction false} OneRecorderPerSession(run: seq<System>, ttlMs: int, i: nat)
    requires IsRun(run, ttlMs) && i < |run|
    requires forall k :: 0 <= k <= i ==> StatesUnique(run[k].store)
    ensures AtMostOneRecorder(run[i])
  {
    if i > 0 {
      OneRecorderPerSession(run, ttlMs, i - 1);
      RunKeepsHandlers(run, ttlMs, i - 1);
      RunIsGood(run, ttlMs, i - 1);
      assert StepsAt(run, i - 1, ttlMs);
      var e :| Enabled(run[i - 1], e) && run[i] == Step(run[i - 1], e, ttlMs);
      StepKeepsOneRecorder(run[i - 1], e, ttlMs);
    }
  }

  /** The resumed handler gives some session other than the one it verified against an outcome. */
  ghost predicate GivesForeignOutcome(s: System, h: nat, outcome: Outcome, ttlMs: int)
    requires Consistent(s.store) && Enabled(s, Resume(h, Finished(outcome)))
  {
    var s' := Step(s, Resume(h, Finished(outcome)), ttlMs);
    exists o: nat :: o < |s.store.records| && o != s.handlers[h].session &&
      !HasOutcome(s.store.records[o]) && HasOutcome(s'.store.records[o])
  }

  /**
   * In any good state: a resumed handler's outcome goes to another session exactly when its state now
   * names a different session that is pending and before its deadline.
   */
  lemma ForeignOutcomeExactly(s: System, h: nat, outcome: Outcome, ttlMs: int)
    requires Good(s.store) && Enabled(s, Resume(h, Finished(outcome)))
    ensures GivesForeignOutcome(s, h, outcome, ttlMs) <==>
      var state, own, st := s.handlers[h].state, s.handlers[h].session, s.store;
      && state in st.table && st.table[state] != own
      && st.records[st.table[state]].status == Pending && !Lapsed(st.records[st.table[state]], s.now)
  {
    var state, own, st := s.handlers[h].state, s.handlers[h].session, s.store;
    var s' := Step(s, Resume(h, Finished(outcome)), ttlMs);
    if state in st.table && st.table[state] != own && st.records[st.table[state]].status == Pending &&
       !Lapsed(st.records[st.table[state]], s.now) {
      var o := st.table[state];
      assert WellRecorded(st.records[o]);
      assert s'.store.records[o] == Recorded(st.records[o], outcome);
    }
  }

  /**
   * The assumption on states is needed: after a sweep, a second session with the same state takes
   * the outcome of a handler that was still verifying against the first.
   */
  lemma ReusedStateTakesForeignOutcome(ttlMs: int)
    requires ttlMs > 0
    ensures
      var outcome := Verified("claims");
      var s0 := System(0, Sessions([], map[]), []);
      var s1 := Step(s0, Create("a"), ttlMs);
      var s2 := Step(s1, Respond("a", false), ttlMs);
      var s3 := Step(s2, Tick(ttlMs), ttlMs);
      var s4 := Step(s3, SweepAll, ttlMs);
      Consistent(s4.store) && Enabled(s4, Create("a")) &&
      var s5 := Step(s4, Create("a"), ttlMs);
      Enabled(s5, Resume(0, Finished(outcome))) &&
      var s6 := Step(s5, Resume(0, Finished(outcome)), ttlMs);
      s5.handlers[0].session == 0 && s6.store.records[1].result == Some("claims")
  {
    var s0 := System(0, Sessions([], map[]), []);
    var s1 := Step(s0, Create("a"), ttlMs);
    var s2 := Step(s1, Respond("a", false), ttlMs);
    assert s2.handlers == [Verifying("a", 0)];
    var s3 := Step(s2, Tick(ttlMs), ttlMs);
    var s4 := Step(s3, SweepAll, ttlMs);
    assert s4.store.table == map[];
  }
}
