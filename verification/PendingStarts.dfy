/**
  Single flight of starts: the tables `pendingStarts` (managed starts, pkg/sablier/
  instance_request.go) and `depStarts` (dependency starts, pkg/sablier/instance_dependency.go),
  both guarded by `pendingMu`. Each critical section is one atomic step, and so is each
  point at which a start goroutine becomes visible outside the lock.
*/
module PendingStarts {
  import opened Common

  // ---------- State ----------

  /** Where the goroutine of a managed start is. */
  datatype Phase =
    | Running    // inside startWithDependencies
    | Failed     // it returned an error, `ps.err` is set
    | Succeeded  // it returned, the entry is about to be cleaned up
    | Cleaned    // the cleanup section has run
    | Closed     // `done` is closed

  datatype Start = Start(name: string, phase: Phase, failed: bool)

  /** One InstanceStart issued by `ensureDependencyStarted`. */
  datatype Flight = Flight(name: string, calling: bool)

  /** `delivered` and `discarded` say what became of the errors of failed starts. */
  datatype State = State(
    starts: seq<Start>,
    pending: map<string, nat>,
    flights: seq<Flight>,
    depStarts: map<string, nat>,
    delivered: seq<nat>,
    discarded: seq<nat>)

  function Initial(): State {
    State([], map[], [], map[], [], [])
  }

  // ---------- Steps ----------

  datatype Action =
    | Enter(name: string)            // requestStart, first critical section
    | Register(name: string)         // requestStart, second critical section
    | Consume(name: string)          // consumePendingError
    | Returned(id: nat, ok: bool)    // startWithDependencies returned
    | CleanUp(id: nat)               // the success branch takes the lock
    | CloseDone(id: nat)             // deferred close(ps.done)
    | Ensure(name: string)           // ensureDependencyStarted, first critical section
    | Landed(id: nat)                // ensureDependencyStarted, second critical section

  datatype Reply =
    | Nothing
    | Proceed               // go on: inspect, or no entry
    | Join(id: nat)         // a start is in progress, use its info
    | Error(id: nat)        // the error of this start
    | New(id: nat)          // this caller has to issue the start
    | Deferred              // a managed start owns the instance
    | Wait(id: nat)         // wait for this flight

  datatype Effect = Effect(state: State, reply: Reply)

  predicate IsClosed(s: State, id: nat) {
    id < |s.starts| && s.starts[id].phase == Closed
  }

  predicate Enabled(s: State, a: Action) {
    match a
    case Returned(id, _) => id < |s.starts| && s.starts[id].phase == Running
    case CleanUp(id) => id < |s.starts| && s.starts[id].phase == Succeeded
    case CloseDone(id) => id < |s.starts| && (s.starts[id].phase == Failed || s.starts[id].phase == Cleaned)
    case Landed(id) => id < |s.flights| && s.flights[id].calling
    case _ => true
  }

  function InPhase(s: State, id: nat, phase: Phase): State
    requires id < |s.starts|
  {
    s.(starts := s.starts[id := s.starts[id].(phase := phase, failed := s.starts[id].failed || phase == Failed)])
  }

  /** Registering a fresh `pendingStart` and dispatching its goroutine. */
  function Dispatched(s: State, name: string): Effect {
    Effect(s.(starts := s.starts + [Start(name, Running, false)], pending := s.pending[name := |s.starts|]),
           New(|s.starts|))
  }

  function Removed(s: State, name: string): State {
    s.(pending := s.pending - {name})
  }

  function Step(s: State, a: Action): Effect {
    if !Enabled(s, a) then Effect(s, Nothing)
    else match a
      case Enter(name) =>
        if name !in s.pending then Effect(s, Proceed)
        else
          var id := s.pending[name];
          if !IsClosed(s, id) then Effect(s, Join(id))
          else if s.starts[id].failed
          then Effect(Removed(s, name).(delivered := s.delivered + [id]), Error(id))
          else Effect(Removed(s, name), Proceed)
      case Register(name) =>
        if name !in s.pending then Dispatched(s, name)
        else
          var id := s.pending[name];
          if !IsClosed(s, id) then Effect(s, Join(id))
          else if s.starts[id].failed
          then Dispatched(Removed(s, name).(discarded := s.discarded + [id]), name)
          else Dispatched(Removed(s, name), name)
      case Consume(name) =>
        if name !in s.pending then Effect(s, Proceed)
        else
          var id := s.pending[name];
          if !IsClosed(s, id) then Effect(s, Join(id))
          else if s.starts[id].failed
          then Effect(Removed(s, name).(delivered := s.delivered + [id]), Error(id))
          else Effect(Removed(s, name), Proceed)
      case Returned(id, ok) => Effect(InPhase(s, id, if ok then Succeeded else Failed), Nothing)
      case CleanUp(id) =>
        var t := InPhase(s, id, Cleaned);
        var name := s.starts[id].name;
        Effect(if name in s.pending && s.pending[name] == id then Removed(t, name) else t, Nothing)
      case CloseDone(id) => Effect(InPhase(s, id, Closed), Nothing)
      case Ensure(name) =>
        if name in s.pending then Effect(s, Deferred)
        else if name in s.depStarts then Effect(s, Wait(s.depStarts[name]))
        else Effect(s.(flights := s.flights + [Flight(name, true)],
                       depStarts := s.depStarts[name := |s.flights|]), New(|s.flights|))
      case Landed(id) =>
        var name := s.flights[id].name;
        var t := s.(flights := s.flights[id := Flight(name, false)]);
        Effect(if name in s.depStarts && s.depStarts[name] == id then t.(depStarts := s.depStarts - {name}) else t,
               Nothing)
  }

  function After(run: seq<Action>): State {
    if run == [] then Initial() else Step(After(Front(run)), Last(run)).state
  }

  // ---------- Invariant ----------

  /** The goroutine has neither cleaned up nor closed `done`. */
  predicate InStart(p: Phase) {
    p == Running || p == Failed || p == Succeeded
  }

  predicate IsEntry(s: State, id: nat)
    requires id < |s.starts|
  {
    s.starts[id].name in s.pending && s.pending[s.starts[id].name] == id
  }

  /** Everybody still inside a start is the entry of its name, and a closed entry carries an error. */
  ghost predicate PendingOk(s: State) {
    && (forall id :: 0 <= id < |s.starts| && InStart(s.starts[id].phase) ==> IsEntry(s, id))
    && (forall id :: 0 <= id < |s.starts| ==>
          && (s.starts[id].phase == Failed ==> s.starts[id].failed)
          && (s.starts[id].phase == Running || s.starts[id].phase == Succeeded || s.starts[id].phase == Cleaned ==>
                !s.starts[id].failed))
    && (forall n :: n in s.pending ==>
          var id := s.pending[n];
          id < |s.starts| && s.starts[id].name == n && s.starts[id].phase != Cleaned
          && (s.starts[id].phase == Closed ==> s.starts[id].failed))
  }

  /** How often the error of a start was returned to a request or dropped. */
  function Outcomes(s: State, id: nat): nat {
    multiset(s.delivered)[id] + multiset(s.discarded)[id]
  }

  /** A failed start's error is pending, delivered or discarded: one of them, once. */
  ghost predicate ErrorsOk(s: State) {
    forall id: nat ::
      Outcomes(s, id) ==
        if id < |s.starts| && s.starts[id].failed && s.starts[id].phase == Closed && !IsEntry(s, id) then 1 else 0
  }

  ghost predicate FlightsOk(s: State) {
    && (forall id :: 0 <= id < |s.flights| && s.flights[id].calling ==>
          s.flights[id].name in s.depStarts && s.depStarts[s.flights[id].name] == id)
    && (forall n :: n in s.depStarts ==>
          s.depStarts[n] < |s.flights| && s.flights[s.depStarts[n]] == Flight(n, true))
  }

  lemma StepKeepsPending(s: State, a: Action)
    requires PendingOk(s)
    ensures PendingOk(Step(s, a).state)
  {
    hide Step, PendingOk;
    if a.Enter? || a.Register? || a.Consume? {
      RequestKeepsPending(s, a);
    } else {
      GoroutineKeepsPending(s, a);
    }
  }

  lemma RequestKeepsPending(s: State, a: Action)
    requires PendingOk(s) && (a.Enter? || a.Register? || a.Consume?)
    ensures PendingOk(Step(s, a).state)
  {
  }

  lemma GoroutineKeepsPending(s: State, a: Action)
    requires PendingOk(s) && !a.Enter? && !a.Register? && !a.Consume?
    ensures PendingOk(Step(s, a).state)
  {
  }

  /** The action removes a closed, failed entry. */
  predicate Takes(s: State, a: Action, id: nat) {
    (a.Enter? || a.Consume? || a.Register?) && a.name in s.pending && s.pending[a.name] == id
    && IsClosed(s, id) && s.starts[id].failed
  }

  lemma OutcomesCount(s: State, a: Action, id: nat)
    ensures Outcomes(Step(s, a).state, id) == Outcomes(s, id) + if Takes(s, a, id) then 1 else 0
  {
  }

  lemma StepKeepsErrors(s: State, a: Action)
    requires PendingOk(s) && ErrorsOk(s)
    ensures ErrorsOk(Step(s, a).state)
  {
    var r := Step(s, a).state;
    forall id: nat
      ensures Outcomes(r, id) ==
        if id < |r.starts| && r.starts[id].failed && r.starts[id].phase == Closed && !IsEntry(r, id) then 1 else 0
    {
      OutcomesCount(s, a, id);
      EntriesLeave(s, a, id);
    }
  }

  lemma EntriesLeave(s: State, a: Action, id: nat)
    requires PendingOk(s)
    ensures var r := Step(s, a).state;
      var done := id < |s.starts| && s.starts[id].failed && s.starts[id].phase == Closed && !IsEntry(s, id);
      var done' := id < |r.starts| && r.starts[id].failed && r.starts[id].phase == Closed && !IsEntry(r, id);
      done' <==> done || Takes(s, a, id)
    ensures Takes(s, a, id) ==> id < |s.starts| && IsEntry(s, id)
  {
  }

  lemma StepKeepsFlights(s: State, a: Action)
    requires FlightsOk(s)
    ensures FlightsOk(Step(s, a).state)
  {
    hide Step;
    if a.Ensure? || a.Landed? {
      FlightsMove(s, a);
    } else {
      FlightsStay(s, a);
    }
  }

  lemma FlightsStay(s: State, a: Action)
    requires !a.Ensure? && !a.Landed?
    ensures Step(s, a).state.flights == s.flights && Step(s, a).state.depStarts == s.depStarts
  {
  }

  lemma FlightsMove(s: State, a: Action)
    requires FlightsOk(s) && (a.Ensure? || a.Landed?)
    ensures FlightsOk(Step(s, a).state)
  {
  }

  lemma {:induction false} RunKeepsInvariant(run: seq<Action>)
    ensures PendingOk(After(run)) && ErrorsOk(After(run)) && FlightsOk(After(run))
  {
    hide Step, PendingOk, ErrorsOk, FlightsOk;
    if run == [] {
      NothingStarted();
    } else {
      RunKeepsInvariant(Front(run));
      var s := After(Front(run));
      StepKeepsPending(s, Last(run));
      StepKeepsErrors(s, Last(run));
      StepKeepsFlights(s, Last(run));
    }
  }

  lemma NothingStarted()
    ensures PendingOk(Initial()) && ErrorsOk(Initial()) && FlightsOk(Initial())
  {
  }

  // ---------- What callers can rely on, over all runs ----------

  /** Single flight: at most one goroutine is inside a start of a name, and it is the table's entry. */
  lemma {:induction false} AtMostOneStartPerName(run: seq<Action>, i: nat, j: nat)
    requires var s := After(run);
      i < |s.starts| && j < |s.starts| && InStart(s.starts[i].phase) && InStart(s.starts[j].phase)
      && s.starts[i].name == s.starts[j].name
    ensures i == j && IsEntry(After(run), i)
  {
    RunKeepsInvariant(run);
  }

  /**
    The fall-through for a start that "succeeded previously" is unreachable: a closed entry
    always carries an error. For the same reason the cleanup always finds its own entry.
  */
  lemma {:induction false} ClosedEntriesFailed(run: seq<Action>, name: string)
    requires name in After(run).pending
    ensures var s := After(run);
      var id := s.pending[name];
      id < |s.starts| && (IsClosed(s, id) ==> s.starts[id].failed)
    ensures forall id :: Enabled(After(run), CleanUp(id)) ==> IsEntry(After(run), id)
  {
    RunKeepsInvariant(run);
  }

  function Errors(run: seq<Action>): seq<nat> {
    if run == [] then []
    else
      var reply := Step(After(Front(run)), Last(run)).reply;
      Errors(Front(run)) + if reply.Error? then [reply.id] else []
  }

  lemma {:induction false} ErrorsAreDelivered(run: seq<Action>)
    ensures Errors(run) == After(run).delivered
  {
    if run != [] {
      ErrorsAreDelivered(Front(run));
    }
  }

  /**
    Each failure is returned to at most one request. Once its goroutine is done it is, exactly
    once, either still in the table, returned, or dropped by a request that raced past it.
  */
  lemma {:induction false} FailureReturnedAtMostOnce(run: seq<Action>, id: nat)
    ensures multiset(Errors(run))[id] <= 1
    ensures id < |After(run).starts| && After(run).starts[id].failed ==>
              multiset(Errors(run))[id] + multiset(After(run).discarded)[id]
              + (if IsEntry(After(run), id) then 1 else 0) == 1
  {
    RunKeepsInvariant(run);
    ErrorsAreDelivered(run);
    var s := After(run);
    assert Outcomes(s, id) <= 1;
  }

  /** Dependency starts: at most one InstanceStart per name is in flight, and the table holds just these. */
  lemma {:induction false} AtMostOneFlightPerName(run: seq<Action>, i: nat, j: nat)
    requires var s := After(run);
      i < |s.flights| && j < |s.flights| && s.flights[i].calling && s.flights[j].calling
      && s.flights[i].name == s.flights[j].name
    ensures i == j
    ensures var s := After(run); s.flights[i].name in s.depStarts && s.depStarts[s.flights[i].name] == i
  {
    RunKeepsInvariant(run);
  }

  /** A dependency start is issued exactly if no start of the instance, managed or not, is in the tables. */
  lemma {:induction false} FlightIssuedOnlyWhenIdle(run: seq<Action>, name: string)
    ensures var s := After(run);
      Step(s, Ensure(name)).reply.New? <==>
        && (forall id :: 0 <= id < |s.flights| && s.flights[id].calling ==> s.flights[id].name != name)
        && name !in s.pending
  {
    RunKeepsInvariant(run);
  }

  /** A managed start and a dependency start of the same instance are in flight together. */
  ghost predicate Overlap(s: State, name: string) {
    && (exists i :: 0 <= i < |s.flights| && s.flights[i] == Flight(name, true))
    && (exists j :: 0 <= j < |s.starts| && s.starts[j].name == name && s.starts[j].phase == Running)
  }

  /** A new managed start meets a dependency start in the air exactly if the tables say so before the call. */
  lemma {:induction false} ManagedStartMeetsFlight(run: seq<Action>, name: string)
    ensures var s := After(run);
      Step(s, Register(name)).reply.New? && (exists i :: 0 <= i < |s.flights| && s.flights[i] == Flight(name, true))
      <==> name in s.depStarts && (name !in s.pending || IsClosed(s, s.pending[name]))
  {
    RunKeepsInvariant(run);
  }

  /**
    Over every run, that is the only way two starts of one instance come to overlap: one step
    brings it about if and only if it registers a managed start while `depStarts` holds the
    name and `pendingStarts` holds no start of it that is still going on.
  */
  lemma {:induction false} OverlapBegins(run: seq<Action>, a: Action, name: string)
    requires !Overlap(After(run), name)
    ensures var s := After(run);
      Overlap(Step(s, a).state, name) <==>
        a == Register(name) && name in s.depStarts && (name !in s.pending || IsClosed(s, s.pending[name]))
  {
    RunKeepsInvariant(run);
    var s := After(run);
    hide After, ErrorsOk;
    if a == Register(name) {
      RegisterOverlaps(s, name);
    } else {
      OthersDoNotOverlap(s, a, name);
    }
  }

  lemma RegisterOverlaps(s: State, name: string)
    requires PendingOk(s) && FlightsOk(s) && !Overlap(s, name)
    ensures Overlap(Step(s, Register(name)).state, name) <==>
      name in s.depStarts && (name !in s.pending || IsClosed(s, s.pending[name]))
  {
    var r := Step(s, Register(name)).state;
    if name in s.depStarts {
      assert r.flights[s.depStarts[name]] == Flight(name, true);
      if name !in s.pending || IsClosed(s, s.pending[name]) {
        assert r.starts[|s.starts|] == Start(name, Running, false);
      }
    }
  }

  lemma OthersDoNotOverlap(s: State, a: Action, name: string)
    requires PendingOk(s) && FlightsOk(s) && !Overlap(s, name) && a != Register(name)
    ensures !Overlap(Step(s, a).state, name)
  {
  }

  /** The two tables do not exclude each other: two calls suffice. */
  lemma ManagedStartMayOverlapFlight(name: string)
    ensures var s := After([Ensure(name), Register(name)]);
      s.flights == [Flight(name, true)] && s.starts == [Start(name, Running, false)]
  {
    var run := [Ensure(name), Register(name)];
    assert Front(run) == [Ensure(name)] && Front([Ensure(name)]) == [];
    assert After([Ensure(name)]) == Step(Initial(), Ensure(name)).state;
  }
}
