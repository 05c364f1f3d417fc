/**
  What the two start tables mean: over every run, each start's state follows from what its
  goroutine did, the tables hold exactly the starts that are under way or have an error nobody
  was told, and every reply says which of these is the case.
*/
module StartOutcomes {
  import opened Common
  import opened PendingStarts

  /** The actions of a run that were possible when they came. */
  function Taken(run: seq<Action>): seq<Action> {
    if run == [] then []
    else Taken(Front(run)) + if Enabled(After(Front(run)), Last(run)) then [Last(run)] else []
  }

  /** The names for which a managed start was dispatched, in order. */
  function Dispatches(run: seq<Action>): seq<string> {
    if run == [] then []
    else
      Dispatches(Front(run)) +
      if Last(run).Register? && Step(After(Front(run)), Last(run)).reply.New? then [Last(run).name] else []
  }

  /** The names for which a dependency start was issued, in order. */
  function Issues(run: seq<Action>): seq<string> {
    if run == [] then []
    else
      Issues(Front(run)) +
      if Last(run).Ensure? && Step(After(Front(run)), Last(run)).reply.New? then [Last(run).name] else []
  }

  // ---------- Starts ----------

  /** The state of start `id`, from what its goroutine has done. */
  ghost predicate Follows(s: State, done: seq<Action>, id: nat) {
    if id < |s.starts| then
      var p := s.starts[id].phase;
      && (p == Running <==> Returned(id, true) !in done && Returned(id, false) !in done)
      && (s.starts[id].failed <==> Returned(id, false) in done)
      && (Returned(id, true) in done ==> Returned(id, false) !in done)
      && (p == Cleaned || (p == Closed && !s.starts[id].failed) <==> CleanUp(id) in done)
      && (p == Closed <==> CloseDone(id) in done)
    else
      Returned(id, true) !in done && Returned(id, false) !in done && CleanUp(id) !in done && CloseDone(id) !in done
  }

  lemma StepFollows(s: State, a: Action, done: seq<Action>, id: nat)
    requires PendingOk(s) && Follows(s, done, id)
    ensures Follows(Step(s, a).state, done + if Enabled(s, a) then [a] else [], id)
  {
    var r := Step(s, a).state;
    var more := done + if Enabled(s, a) then [a] else [];
    assert forall x :: x in more <==> x in done || (Enabled(s, a) && x == a);
    if id < |s.starts| {
      assert s.starts[id].phase == Failed ==> s.starts[id].failed;
      StartMoves(s, a, id);
    } else {
      StartAppears(s, a, id);
    }
  }

  lemma StartMoves(s: State, a: Action, id: nat)
    requires id < |s.starts|
    ensures var t := Step(s, a).state.starts;
      && id < |t| && t[id].name == s.starts[id].name
      && (Enabled(s, a) && a == Returned(id, true) ==>
            s.starts[id].phase == Running && t[id].phase == Succeeded && t[id].failed == s.starts[id].failed)
      && (Enabled(s, a) && a == Returned(id, false) ==>
            s.starts[id].phase == Running && t[id].phase == Failed && t[id].failed)
      && (Enabled(s, a) && a == CleanUp(id) ==>
            s.starts[id].phase == Succeeded && t[id].phase == Cleaned && t[id].failed == s.starts[id].failed)
      && (Enabled(s, a) && a == CloseDone(id) ==>
            && (s.starts[id].phase == Failed || s.starts[id].phase == Cleaned)
            && t[id].phase == Closed && t[id].failed == s.starts[id].failed)
      && (a != Returned(id, true) && a != Returned(id, false) && a != CleanUp(id) && a != CloseDone(id) ==>
            t[id] == s.starts[id])
      && (!Enabled(s, a) ==> t[id] == s.starts[id])
  {
  }

  lemma StartAppears(s: State, a: Action, id: nat)
    requires id >= |s.starts|
    ensures var t := Step(s, a).state.starts;
      && (id < |t| ==> t[id].phase == Running && !t[id].failed)
      && (Enabled(s, a) ==>
            a != Returned(id, true) && a != Returned(id, false) && a != CleanUp(id) && a != CloseDone(id))
  {
  }

  /**
    A start has failed exactly if its goroutine returned an error, is cleaned up only after a
    success, and is closed exactly if its goroutine has ended.
  */
  lemma {:induction false} StartsEndAsReturned(run: seq<Action>, id: nat)
    ensures Follows(After(run), Taken(run), id)
  {
    hide Step, Follows, Enabled;
    if run == [] {
      NothingFollows(id);
    } else {
      StartsEndAsReturned(Front(run), id);
      RunKeepsInvariant(Front(run));
      StepFollows(After(Front(run)), Last(run), Taken(Front(run)), id);
    }
  }

  lemma NothingFollows(id: nat)
    ensures Follows(Initial(), [], id)
  {
  }

  /** A goroutine can always go on until it has closed `done`, whatever its start came to. */
  lemma GoroutinesGoOn(s: State, id: nat)
    requires id < |s.starts|
    ensures match s.starts[id].phase
      case Running => Enabled(s, Returned(id, true)) && Enabled(s, Returned(id, false))
      case Succeeded => Enabled(s, CleanUp(id))
      case Failed => Enabled(s, CloseDone(id))
      case Cleaned => Enabled(s, CloseDone(id))
      case Closed => true
  {
  }

  // ---------- Entries ----------

  /** The goroutine of this start has neither been cleaned up nor closed `done`. */
  ghost predicate UnderWay(s: State, name: string, id: nat) {
    id < |s.starts| && s.starts[id].name == name && InStart(s.starts[id].phase)
  }

  /** The start failed, its goroutine has ended, and no request was told or overtook it. */
  ghost predicate Unreported(s: State, name: string, id: nat) {
    && id < |s.starts| && s.starts[id].name == name && s.starts[id].failed && s.starts[id].phase == Closed
    && id !in s.delivered && id !in s.discarded
  }

  ghost predicate InAir(s: State, name: string, id: nat) {
    id < |s.flights| && s.flights[id] == Flight(name, true)
  }

  /** The tables hold exactly the starts under way, the unreported failures and the flights in the air. */
  lemma {:induction false} TablesMean(run: seq<Action>, name: string, id: nat)
    ensures var s := After(run);
      && (name in s.pending && s.pending[name] == id <==> UnderWay(s, name, id) || Unreported(s, name, id))
      && (name in s.depStarts && s.depStarts[name] == id <==> InAir(s, name, id))
  {
    RunKeepsInvariant(run);
    var s := After(run);
    hide After;
    assert id in s.delivered || id in s.discarded <==> Outcomes(s, id) > 0;
    assert FlightsOk(s) && PendingOk(s) && ErrorsOk(s);
  }

  // ---------- Replies ----------

  /**
    A request joins exactly the start of its name that is under way, is told exactly an
    unreported failure, and otherwise goes on; a registering request that finds none under
    way dispatches its own, and the failure it overtakes is dropped.
  */
  lemma {:induction false} RequestsAreToldTheTruth(run: seq<Action>, name: string, id: nat)
    ensures var s := After(run);
      && (Step(s, Enter(name)).reply == Join(id) <==> UnderWay(s, name, id))
      && (Step(s, Consume(name)).reply == Join(id) <==> UnderWay(s, name, id))
      && (Step(s, Register(name)).reply == Join(id) <==> UnderWay(s, name, id))
      && (Step(s, Enter(name)).reply == Error(id) <==> Unreported(s, name, id))
      && (Step(s, Consume(name)).reply == Error(id) <==> Unreported(s, name, id))
      && (Step(s, Register(name)).reply == New(id) <==>
            id == |s.starts| && forall i :: !UnderWay(s, name, i))
  {
    hide After, UnderWay, Unreported;
    var s := After(run);
    TablesMean(run, name, id);
    if name in s.pending {
      TablesMean(run, name, s.pending[name]);
      ClosedEntriesFailed(run, name);
      EntryKinds(s, name, s.pending[name]);
    }
    EntryKinds(s, name, id);
    forall i ensures UnderWay(s, name, i) ==> name in s.pending && s.pending[name] == i {
      TablesMean(run, name, i);
    }
  }

  lemma EntryKinds(s: State, name: string, id: nat)
    ensures UnderWay(s, name, id) ==> id < |s.starts| && !IsClosed(s, id)
    ensures Unreported(s, name, id) ==> id < |s.starts| && IsClosed(s, id) && s.starts[id].failed
  {
  }

  /** Every request gets one of these replies. */
  lemma RepliesAreOfTheseKinds(s: State, name: string)
    ensures var e := Step(s, Enter(name)).reply; e.Join? || e.Error? || e == Proceed
    ensures var c := Step(s, Consume(name)).reply; c.Join? || c.Error? || c == Proceed
    ensures var r := Step(s, Register(name)).reply; r.Join? || r.New?
    ensures var d := Step(s, Ensure(name)).reply; d == Deferred || d.Wait? || d.New?
  {
  }

  /**
    A dependency start defers exactly to a start in `pendingStarts`, else waits for exactly the
    flight of its name in the air, and else is issued.
  */
  lemma {:induction false} DependencyStartsAreToldTheTruth(run: seq<Action>, name: string, id: nat)
    ensures var s := After(run);
      && (Step(s, Ensure(name)).reply == Deferred <==>
            exists i :: UnderWay(s, name, i) || Unreported(s, name, i))
      && (Step(s, Ensure(name)).reply == Wait(id) <==>
            InAir(s, name, id) && forall i :: !UnderWay(s, name, i) && !Unreported(s, name, i))
      && (Step(s, Ensure(name)).reply == New(id) <==>
            && id == |s.flights| && (forall i :: !InAir(s, name, i))
            && forall i :: !UnderWay(s, name, i) && !Unreported(s, name, i))
  {
    hide After, UnderWay, Unreported, InAir;
    var s := After(run);
    forall i
      ensures UnderWay(s, name, i) || Unreported(s, name, i) <==> name in s.pending && s.pending[name] == i
      ensures InAir(s, name, i) <==> name in s.depStarts && s.depStarts[name] == i
    {
      TablesMean(run, name, i);
    }
    if name in s.pending {
      assert UnderWay(s, name, s.pending[name]) || Unreported(s, name, s.pending[name]);
    }
    if name in s.depStarts {
      assert InAir(s, name, s.depStarts[name]);
    }
  }

  /** Each error handed to a request is that of a start whose goroutine returned an error before. */
  lemma {:induction false} ErrorsAreReal(run: seq<Action>, id: nat)
    requires id in Errors(run)
    ensures Returned(id, false) in Taken(run) && CloseDone(id) in Taken(run)
  {
    hide Step, After;
    RunKeepsInvariant(run);
    ErrorsAreDelivered(run);
    StartsEndAsReturned(run, id);
    assert Outcomes(After(run), id) > 0;
  }

  // ---------- Names and flights ----------

  /** Starts and flights bear the names they were begun for; a flight is in the air until it has landed. */
  ghost predicate Named(s: State, dispatches: seq<string>, issues: seq<string>) {
    && |s.starts| == |dispatches| && |s.flights| == |issues|
    && (forall id :: 0 <= id < |s.starts| ==> s.starts[id].name == dispatches[id])
    && (forall id :: 0 <= id < |s.flights| ==> s.flights[id].name == issues[id])
  }

  ghost predicate Lands(s: State, done: seq<Action>) {
    forall id: nat {:trigger Landed(id)} :: Landed(id) in done <==> id < |s.flights| && !s.flights[id].calling
  }

  lemma StepNames(s: State, a: Action, dispatches: seq<string>, issues: seq<string>)
    requires Named(s, dispatches, issues)
    ensures var e := Step(s, a);
      Named(e.state, dispatches + (if a.Register? && e.reply.New? then [a.name] else []),
            issues + (if a.Ensure? && e.reply.New? then [a.name] else []))
  {
    hide Step;
    NamesStay(s, a);
    FlightsLand(s, a);
  }

  lemma StepLands(s: State, a: Action, done: seq<Action>, more: seq<Action>)
    requires Lands(s, done) && forall x :: x in more <==> x in done || (Enabled(s, a) && x == a)
    ensures Lands(Step(s, a).state, more)
  {
    hide Step, Enabled;
    FlightsLand(s, a);
  }

  /** Start `id` is the `id`-th dispatched, flight `id` the `id`-th issued, over every run. */
  lemma {:induction false} StartsAreAsDispatched(run: seq<Action>)
    ensures Named(After(run), Dispatches(run), Issues(run)) && Lands(After(run), Taken(run))
  {
    if run != [] {
      StartsAreAsDispatched(Front(run));
      var s, a := After(Front(run)), Last(run);
      hide After, Dispatches, Issues, Taken, Named, Lands, Step;
      TakenMore(run);
      DispatchesMore(run);
      StepNames(s, a, Dispatches(Front(run)), Issues(Front(run)));
      StepLands(s, a, Taken(Front(run)), Taken(run));
    }
  }

  lemma {:induction false} TakenMore(run: seq<Action>)
    requires run != []
    ensures forall x :: x in Taken(run) <==>
              x in Taken(Front(run)) || (Enabled(After(Front(run)), Last(run)) && x == Last(run))
  {
  }

  lemma {:induction false} DispatchesMore(run: seq<Action>)
    requires run != []
    ensures var s, a := After(Front(run)), Last(run);
      && After(run) == Step(s, a).state
      && Dispatches(run) == Dispatches(Front(run)) +
           (if a.Register? && Step(s, a).reply.New? then [a.name] else [])
      && Issues(run) == Issues(Front(run)) + (if a.Ensure? && Step(s, a).reply.New? then [a.name] else [])
  {
  }

  lemma NamesStay(s: State, a: Action)
    ensures var t := Step(s, a).state.starts;
      && |t| == |s.starts| + (if a.Register? && Step(s, a).reply.New? then 1 else 0)
      && (forall id :: 0 <= id < |s.starts| ==> t[id].name == s.starts[id].name)
      && (|t| > |s.starts| ==> t[|s.starts|].name == a.name)
  {
  }

  lemma FlightsLand(s: State, a: Action)
    ensures var t := Step(s, a).state.flights;
      && |t| == |s.flights| + (if a.Ensure? && Step(s, a).reply.New? then 1 else 0)
      && (forall id :: 0 <= id < |s.flights| ==> t[id].name == s.flights[id].name)
      && (forall id :: 0 <= id < |s.flights| ==>
            t[id].calling == (s.flights[id].calling && a != Landed(id)))
      && (|t| > |s.flights| ==> t[|s.flights|] == Flight(a.name, true))
      && (a.Landed? && Enabled(s, a) ==> a.id < |s.flights|)
      && (a.Landed? && !Enabled(s, a) ==> a.id < |s.flights| ==> !s.flights[a.id].calling)
  {
  }
}
