/**
 * The list-of-lists trust store: one refresh in flight at a time, shared by every caller
 * that needs it, and a stored snapshot that outlives failing refreshes. Code between two
 * awaits is one step; calls, refreshes and the clock interleave freely.
 */
module LotlTrustStore {
  import opened Options

  datatype Snapshot = Snapshot(content: int, fetchedAt: int)

  /** How a refresh promise settles. */
  datatype Result = Ok(snapshot: Snapshot) | Fail

  /** A call to getSnapshot either has its answer at once or waits for a refresh promise. */
  datatype Progress = Immediate(snapshot: Snapshot) | Joined(flight: nat)

  // ----- The store object -----

  /** The store's fields; promises are numbered in the order they are created. */
  datatype Fields = Fields(snapshot: Option<Snapshot>, inFlight: Option<nat>, started: nat)

  function FreshEnough(snapshot: Option<Snapshot>, now: int, interval: int): bool {
    snapshot.Some? && now - snapshot.value.fetchedAt < interval
  }

  function BeginCall(f: Fields, now: int, interval: int): (Fields, Progress) {
    if FreshEnough(f.snapshot, now, interval) then (f, Immediate(f.snapshot.value))
    else if f.inFlight.Some? then (f, Joined(f.inFlight.value))
    else (f.(inFlight := Some(f.started), started := f.started + 1), Joined(f.started))
  }

  function Succeed(f: Fields, content: int, now: int): (Fields, Result) {
    (f.(snapshot := Some(Snapshot(content, now)), inFlight := None), Ok(Snapshot(content, now)))
  }

  function FallBack(f: Fields): (Fields, Result) {
    (f.(inFlight := None), if f.snapshot.Some? then Ok(f.snapshot.value) else Fail)
  }

  class Store {
    var snapshot: Option<Snapshot>
    var inFlight: Option<nat>
    var started: nat
    const refreshInterval: int

    ghost function View(): Fields
      reads this
    {
      Fields(snapshot, inFlight, started)
    }

    constructor (refreshInterval: int)
      ensures View() == Fields(None, None, 0) && this.refreshInterval == refreshInterval
    {
      this.refreshInterval := refreshInterval;
      snapshot, inFlight, started := None, None, 0;
    }

    /** getSnapshot up to its return or its await. */
    method GetSnapshot(now: int) returns (p: Progress)
      modifies this
      ensures (View(), p) == BeginCall(old(View()), now, refreshInterval)
      ensures p.Immediate? <==> old(snapshot).Some? && now - old(snapshot).value.fetchedAt < refreshInterval
      ensures p.Immediate? ==> old(snapshot) == Some(p.snapshot) && View() == old(View())
      ensures p.Joined? ==> inFlight == Some(p.flight) && snapshot == old(snapshot)
    {
      if snapshot.Some? && now - snapshot.value.fetchedAt < refreshInterval {
        return Immediate(snapshot.value);
      }
      p := Refresh();
    }

    method Refresh() returns (p: Progress)
      modifies this
      ensures p.Joined? && inFlight == Some(p.flight) && snapshot == old(snapshot)
      ensures old(inFlight).Some? ==> View() == old(View())
      ensures old(inFlight).None? ==> p.flight == old(started) && started == old(started) + 1
    {
      if inFlight.Some? {
        return Joined(inFlight.value);
      }
      inFlight := Some(started);
      started := started + 1;
      p := Joined(inFlight.value);
    }

    /** The refresh body after its last await, with its finally block. */
    method RefreshSucceeded(content: int, now: int) returns (r: Result)
      modifies this
      ensures (View(), r) == Succeed(old(View()), content, now)
      ensures snapshot == Some(Snapshot(content, now)) && inFlight == None && r == Ok(Snapshot(content, now))
    {
      snapshot := Some(Snapshot(content, now));
      r := Ok(snapshot.value);
      inFlight := None;
    }

    /** The catch block and the finally block. */
    method RefreshFailed() returns (r: Result)
      modifies this
      ensures (View(), r) == FallBack(old(View()))
      ensures snapshot == old(snapshot) && inFlight == None
      ensures if old(snapshot).Some? then r == Ok(old(snapshot).value) else r == Fail
    {
      r := if snapshot.Some? then Ok(snapshot.value) else Fail;
      inFlight := None;
    }
  }

  // ----- Interleavings -----

  datatype Flight = Running | Settled(result: Result)

  datatype CallState = Waiting(flight: nat) | Returned(result: Result, at: nat)

  datatype Call = Call(since: nat, state: CallState)

  /** step counts the events so far. */
  datatype State = State(step: nat, now: int, fields: Fields, flights: seq<Flight>, calls: seq<Call>)

  datatype Event =
    | Tick(elapsed: nat)
    | NewCall
    | FetchDone(flight: nat, content: int)
    | FetchFailed(flight: nat)
    | Deliver(call: nat)

  ghost predicate Enabled(s: State, e: Event) {
    match e
    case Tick(_) => true
    case NewCall => true
    case FetchDone(f, _) => f < |s.flights| && s.flights[f].Running?
    case FetchFailed(f) => f < |s.flights| && s.flights[f].Running?
    case Deliver(c) =>
      c < |s.calls| && s.calls[c].state.Waiting? && s.calls[c].state.flight < |s.flights| &&
      s.flights[s.calls[c].state.flight].Settled?
  }

  ghost function Step(s: State, e: Event, interval: int): State
    requires Enabled(s, e)
  {
    var s := s.(step := s.step + 1);
    match e
    case Tick(d) => s.(now := s.now + d)
    case NewCall =>
      var (fields, p) := BeginCall(s.fields, s.now, interval);
      var flights := if fields.started > s.fields.started then s.flights + [Running] else s.flights;
      var state := match p case Immediate(snap) => Returned(Ok(snap), s.step - 1) case Joined(f) => Waiting(f);
      s.(fields := fields, flights := flights, calls := s.calls + [Call(s.step - 1, state)])
    case FetchDone(f, content) =>
      var (fields, r) := Succeed(s.fields, content, s.now);
      s.(fields := fields, flights := s.flights[f := Settled(r)])
    case FetchFailed(f) =>
      var (fields, r) := FallBack(s.fields);
      s.(fields := fields, flights := s.flights[f := Settled(r)])
    case Deliver(c) =>
      var r := s.flights[s.calls[c].state.flight].result;
      s.(calls := s.calls[c := Call(s.calls[c].since, Returned(r, s.step))])
  }

  ghost function Initial(now: int): State {
    State(0, now, Fields(None, None, 0), [], [])
  }

  ghost predicate IsRun(run: seq<State>, interval: int) {
    && run != [] && run[0] == Initial(run[0].now)
    && forall i :: 0 <= i < |run| - 1 ==> StepsTo(run[i], run[i + 1], interval)
  }

  ghost predicate StepsTo(s: State, s': State, interval: int) {
    exists e :: Enabled(s, e) && s' == Step(s, e, interval)
  }

  // ----- What every state keeps -----

  /** A promise is unsettled exactly when it is the one in flight. */
  ghost predicate SingleFlight(s: State) {
    && s.fields.started == |s.flights|
    && (s.fields.inFlight.Some? ==> s.fields.inFlight.value < |s.flights|)
    && (forall f: nat :: f < |s.flights| ==> (s.flights[f].Running? <==> s.fields.inFlight == Some(f)))
  }

  ghost predicate FetchedInThePast(s: State) {
    s.fields.snapshot.Some? ==> s.fields.snapshot.value.fetchedAt <= s.now
  }

  /** Every waiting call waits for a promise that exists, so it will be answered when that settles. */
  ghost predicate CallsWaitOnFlights(s: State) {
    forall c :: 0 <= c < |s.calls| ==>
      s.calls[c].since < s.step && (s.calls[c].state.Waiting? ==> s.calls[c].state.flight < |s.flights|)
  }

  ghost predicate Sane(s: State) {
    SingleFlight(s) && FetchedInThePast(s) && CallsWaitOnFlights(s)
  }

  lemma StepKeepsSane(s: State, e: Event, interval: int)
    requires Sane(s) && Enabled(s, e)
    ensures Sane(Step(s, e, interval))
  {
  }

  lemma {:induction false} RunIsSane(run: seq<State>, interval: int, i: nat)
    requires IsRun(run, interval) && i < |run|
    ensures Sane(run[i]) && run[i].step == i
  {
    if i > 0 {
      RunIsSane(run, interval, i - 1);
      assert StepsTo(run[i - 1], run[i], interval);
      var e :| Enabled(run[i - 1], e) && run[i] == Step(run[i - 1], e, interval);
      StepKeepsSane(run[i - 1], e, interval);
    }
  }

  /** At most one refresh is running, in every state of every run. */
  lemma AtMostOneRefresh(run: seq<State>, interval: int, i: nat, f: nat, g: nat)
    requires IsRun(run, interval) && i < |run|
    requires f < |run[i].flights| && g < |run[i].flights|
    requires run[i].flights[f].Running? && run[i].flights[g].Running?
    ensures f == g
  {
    RunIsSane(run, interval, i);
  }

  ghost predicate NoOlder(a: Option<Snapshot>, b: Option<Snapshot>) {
    a.Some? ==> b.Some? && a.value.fetchedAt <= b.value.fetchedAt
  }

  /** A stored snapshot is never lost and never replaced by one fetched earlier. */
  lemma {:induction false} SnapshotNeverReverts(run: seq<State>, interval: int, i: nat, j: nat)
    requires IsRun(run, interval) && i <= j < |run|
    ensures NoOlder(run[i].fields.snapshot, run[j].fields.snapshot)
    decreases j
  {
    if i < j {
      SnapshotNeverReverts(run, interval, i, j - 1);
      RunIsSane(run, interval, j - 1);
      assert StepsTo(run[j - 1], run[j], interval);
    }
  }

  /** r was the store's answer at some state from since to until: its snapshot, or none yet. */
  ghost predicate CurrentBetween(run: seq<State>, since: nat, until: nat, r: Result) {
    exists k: nat :: since <= k <= until && k < |run| &&
      match r case Ok(s) => run[k].fields.snapshot == Some(s) case Fail => run[k].fields.snapshot == None
  }

  lemma CurrentAt(run: seq<State>, since: nat, until: nat, r: Result, k: nat)
    requires since <= k <= until && k < |run|
    requires match r case Ok(s) => run[k].fields.snapshot == Some(s) case Fail => run[k].fields.snapshot == None
    ensures CurrentBetween(run, since, until, r)
  {
  }

  lemma CurrentLonger(run: seq<State>, since: nat, until: nat, until': nat, r: Result)
    requires CurrentBetween(run, since, until, r) && until <= until'
    ensures CurrentBetween(run, since, until', r)
  {
  }

  /** What a call may count on at state i: its answer, or the answer of the refresh it waits for. */
  ghost predicate CallIsServed(run: seq<State>, i: nat, c: nat)
    requires i < |run| && c < |run[i].calls|
  {
    var call := run[i].calls[c];
    match call.state
    case Returned(r, at) => at <= i && CurrentBetween(run, call.since, at, r)
    case Waiting(f) => f < |run[i].flights| && run[i].flights[f].Settled? ==>
      CurrentBetween(run, call.since, i, run[i].flights[f].result)
  }

  lemma {:induction false} CallsAreServed(run: seq<State>, interval: int, i: nat, c: nat)
    requires IsRun(run, interval) && i < |run| && c < |run[i].calls|
    ensures CallIsServed(run, i, c)
  {
    if i > 0 {
      var s := run[i - 1];
      assert StepsTo(s, run[i], interval);
      RunIsSane(run, interval, i - 1);
      if c < |s.calls| {
        CallsAreServed(run, interval, i - 1, c);
        ServedStaysServed(run, interval, i, c);
      } else if run[i].calls[c].state.Returned? {
        CurrentAt(run, i - 1, i - 1, run[i].calls[c].state.result, i - 1);
      }
    }
  }

  lemma ServedStaysServed(run: seq<State>, interval: int, i: nat, c: nat)
    requires IsRun(run, interval) && 0 < i < |run| && c < |run[i - 1].calls| && CallIsServed(run, i - 1, c)
    requires Sane(run[i - 1]) && run[i - 1].step == i - 1
    ensures c < |run[i].calls| && CallIsServed(run, i, c)
  {
    var s, s' := run[i - 1], run[i];
    assert StepsTo(s, s', interval);
    var e :| Enabled(s, e) && s' == Step(s, e, interval);
    var call := s.calls[c];
    if call.state.Waiting? {
      var f := call.state.flight;
      if s.flights[f].Settled? {
        CurrentLonger(run, call.since, i - 1, i, s.flights[f].result);
      } else if s'.flights[f].Settled? {
        CurrentAt(run, call.since, i, s'.flights[f].result, i);
      }
    }
  }

  /** No refresh succeeded in the first k states. */
  ghost predicate NothingStoredUpTo(run: seq<State>, k: int) {
    0 <= k < |run| && forall m :: 0 <= m <= k ==> run[m].fields.snapshot == None
  }

  /**
   * In every interleaving, a call that returned got a snapshot that was the stored one at some
   * state during the call; a call that failed did so when no refresh had succeeded yet.
   */
  lemma CallsReturnCurrentSnapshots(run: seq<State>, interval: int, i: nat, c: nat)
    requires IsRun(run, interval) && i < |run| && c < |run[i].calls| && run[i].calls[c].state.Returned?
    ensures var call := run[i].calls[c];
      && call.since <= call.state.at <= i
      && match call.state.result
         case Ok(s) => exists k :: call.since <= k <= call.state.at && run[k].fields.snapshot == Some(s)
         case Fail => exists k :: call.since <= k <= call.state.at && NothingStoredUpTo(run, k)
  {
    CallsAreServed(run, interval, i, c);
    var call := run[i].calls[c];
    var k: nat :| call.since <= k <= call.state.at && k < |run| &&
      match call.state.result
      case Ok(s) => run[k].fields.snapshot == Some(s)
      case Fail => run[k].fields.snapshot == None;
    if call.state.result.Fail? {
      forall m: nat | m <= k
        ensures run[m].fields.snapshot == None
      {
        SnapshotNeverReverts(run, interval, m, k);
      }
      assert NothingStoredUpTo(run, k);
    }
  }

  // ----- Freshness and content -----

  ghost predicate YoungerThan(snapshot: Option<Snapshot>, now: int, interval: int) {
    snapshot.Some? && now - snapshot.value.fetchedAt < interval
  }

  /**
   * A new call is answered at once exactly when the stored snapshot is younger than the interval, and with that
   * snapshot; otherwise it waits for the one refresh that is then running.
   */
  lemma CallsMeet(s: State, interval: int)
    requires Sane(s)
    ensures var s' := Step(s, NewCall, interval);
      && |s'.calls| == |s.calls| + 1
      && var state := s'.calls[|s.calls|].state;
         if YoungerThan(s.fields.snapshot, s.now, interval)
         then state == Returned(Ok(s.fields.snapshot.value), s.step) && s'.flights == s.flights
         else state.Waiting? && state.flight < |s'.flights| && s'.flights[state.flight].Running?
  {
  }

  /** The call was answered by the step that began it, or waited for a refresh. */
  ghost predicate AnsweredFreshOrWaited(run: seq<State>, interval: int, c: Call) {
    match c.state
    case Waiting(_) => true
    case Returned(r, at) =>
      c.since < at ||
      (c.since == at < |run| && YoungerThan(run[at].fields.snapshot, run[at].now, interval) &&
       r == Ok(run[at].fields.snapshot.value))
  }

  /** In every run, an answer that did not wait for a refresh was younger than the interval when it was given. */
  lemma {:induction false} ImmediateAnswersAreFresh(run: seq<State>, interval: int, i: nat, c: nat)
    requires IsRun(run, interval) && i < |run| && c < |run[i].calls|
    ensures AnsweredFreshOrWaited(run, interval, run[i].calls[c])
  {
    if i > 0 {
      var s := run[i - 1];
      RunIsSane(run, interval, i - 1);
      assert StepsTo(s, run[i], interval);
      var e :| Enabled(s, e) && run[i] == Step(s, e, interval);
      if c < |s.calls| {
        ImmediateAnswersAreFresh(run, interval, i - 1, c);
        if e == Deliver(c) { assert s.calls[c].since < s.step; }
      } else {
        CallsMeet(s, interval);
      }
    }
  }

  /** The step from state k ends refresh f with that content, at the time the snapshot gives. */
  ghost predicate FetchedAt(run: seq<State>, interval: int, k: int, f: nat, snapshot: Snapshot) {
    && 0 <= k < |run| - 1 && Enabled(run[k], FetchDone(f, snapshot.content))
    && run[k + 1] == Step(run[k], FetchDone(f, snapshot.content), interval) && run[k].now == snapshot.fetchedAt
  }

  /** In every run, the stored snapshot has the content that some refresh delivered, and the time at which it did. */
  lemma {:induction false} SnapshotsWereFetched(run: seq<State>, interval: int, i: nat)
    requires IsRun(run, interval) && i < |run| && run[i].fields.snapshot.Some?
    ensures exists k, f :: k < i && FetchedAt(run, interval, k, f, run[i].fields.snapshot.value)
  {
    if i > 0 {
      var s := run[i - 1];
      assert StepsTo(s, run[i], interval);
      var e :| Enabled(s, e) && run[i] == Step(s, e, interval);
      if e.FetchDone? {
        assert FetchedAt(run, interval, i - 1, e.flight, run[i].fields.snapshot.value);
      } else {
        SnapshotsWereFetched(run, interval, i - 1);
      }
    }
  }
}
