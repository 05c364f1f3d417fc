/**
  What the outcomes of a dependency-ordered start mean in terms of what the provider
  answered: over every run each verdict of a goroutine, of a node and of the whole call is
  traced back to the steps that were taken, and the start trace to the calls they made.
*/
module DependencyOutcomes {
  import opened Common
  import opened Dependencies
  import opened DependencyWalk

  /** A step that was taken, with the state it was taken in. */
  datatype Taken = Taken(before: State, action: Action)

  function History(g: Graph, root: string, run: seq<Action>): (h: seq<Taken>)
    ensures forall e :: e in h ==> Enabled(e.before, e.action)
  {
    if run == [] then []
    else
      var s := After(g, root, Front(run));
      History(g, root, Front(run)) + if Enabled(s, Last(run)) then [Taken(s, Last(run))] else []
  }

  predicate Happened(h: seq<Taken>, q: Taken -> bool) {
    exists e :: e in h && q(e)
  }

  /**
    If a step brings `p` about exactly when it is a `q`, and nothing undoes `p`, then over
    every run `p` holds exactly if a `q` has happened.
  */
  lemma {:induction false} HistoryDecides(g: Graph, rank: map<string, nat>, root: string, run: seq<Action>,
                                          p: State -> bool, q: Taken -> bool)
    requires Ranked(Recorded(g), rank) && root in rank && !p(Initial(g, root))
    requires forall s, a :: Inv(g, rank, root, s) && Enabled(s, a) ==>
      (p(Step(g, s, a)) <==> p(s) || q(Taken(s, a)))
    ensures p(After(g, root, run)) <==> Happened(History(g, root, run), q)
  {
    hide Inv, Enabled;
    if run != [] {
      var s, h := After(g, root, Front(run)), History(g, root, Front(run));
      HistoryDecides(g, rank, root, Front(run), p, q);
      RunKeepsInv(g, rank, root, Front(run));
      if Enabled(s, Last(run)) {
        var e := Taken(s, Last(run));
        assert History(g, root, run) == h + [e];
        assert forall x :: x in h + [e] <==> x in h || x == e;
        assert p(Step(g, s, Last(run))) <==> p(s) || q(e);
      } else {
        Idles(g, s, Last(run));
        assert History(g, root, run) == h;
      }
    }
  }

  // ---------- What the environment can answer ----------

  /** Goroutine `i` was told a status that meets its condition. */
  predicate SawMet(e: Taken, i: nat)
  {
    && Enabled(e.before, e.action) && e.action.i == i && (e.action.Inspect? || e.action.Poll?)
    && e.action.reply.Some? && Satisfied(e.action.reply.value, e.before.threads[i].condition)
  }

  /** Goroutine `i` brought its node up: the provider accepted the start, another call's start or a managed one did. */
  predicate BroughtUp(e: Taken, i: nat) {
    e.action == StartReturned(i, true) || e.action == FlightDone(i, true) || e.action == Ensure(i, Managed)
  }

  /** Goroutine `i` could not bring its node up. */
  predicate BroughtDown(e: Taken, i: nat) {
    Enabled(e.before, e.action) && e.action.i == i &&
    (e.action == StartReturned(i, false) || e.action == FlightDone(i, false)
     || (e.action.Cancel? && e.before.threads[i].pc.AwaitingFlight?)
     || (e.action.Joined? && !ChildrenOk(e.before, i)))
  }

  /** Goroutine `i` gave up on its dependency. */
  predicate GaveUp(e: Taken, i: nat) {
    Enabled(e.before, e.action) && e.action.i == i &&
    var t := e.before.threads[i];
    || (e.action.Cancel? && !t.pc.AwaitingFlight?)
    || (e.action.Poll? && (e.action.reply.None? || e.action.reply.value == Error))
    || (e.action.NodeDone? && t.name in e.before.memo && e.before.memo[t.name].done == Some(false))
    || (e.action.Publish? && t.pc == Publishing(false))
  }

  /** The answers that can make a start fail. */
  predicate RootCause(e: Taken) {
    match e.action
    case Cancel(_) => true
    case Poll(_, reply) => reply.None? || reply.value == Error
    case StartReturned(_, ok) => !ok
    case FlightDone(_, ok) => !ok
    case _ => false
  }

  /** InstanceStart was called for `n`. */
  predicate Calls(e: Taken, root: string, n: string) {
    Enabled(e.before, e.action) && e.before.threads[e.action.i].name == n &&
    ((e.action.Ensure? && e.action.how == Mine) ||
     (e.action.Joined? && e.action.i == 0 && ChildrenOk(e.before, 0)))
  }

  /** A look at `n` found `status`, which met the condition looked for. */
  predicate Finds(e: Taken, n: string, status: Status) {
    SawMet(e, e.action.i) && e.before.threads[e.action.i].name == n && e.action.reply == Some(status)
  }

  // ---------- One step at a time ----------

  predicate Is(s: State, i: nat, pc: Pc) {
    i < |s.threads| && s.threads[i].pc == pc
  }

  lemma SucceedsByLook(g: Graph, s: State, a: Action, i: nat)
    requires PcsOk(s) && Enabled(s, a) && 0 < i
    ensures Is(Step(g, s, a), i, Finished(true)) <==> Is(s, i, Finished(true)) || SawMet(Taken(s, a), i)
  {
    hide Step, NextMemo, Emits;
    Threads(g, s, a);
  }

  lemma FailsByGivingUp(g: Graph, s: State, a: Action, i: nat)
    requires PcsOk(s) && Enabled(s, a) && 0 < i
    ensures Is(Step(g, s, a), i, Finished(false)) <==> Is(s, i, Finished(false)) || GaveUp(Taken(s, a), i)
  {
    hide Step, NextMemo, Emits;
    Threads(g, s, a);
  }

  /** The node of owner `i` came up or not, published or about to be. */
  predicate Verdict(s: State, i: nat, ok: bool) {
    i < |s.threads| &&
    (s.threads[i].pc == Publishing(ok) ||
     (s.threads[i].name in s.memo && s.memo[s.threads[i].name] == Node(i, Some(ok))))
  }

  lemma VerdictIsBrought(g: Graph, s: State, a: Action, i: nat)
    requires PcsOk(s) && MemoOk(s) && Enabled(s, a) && 0 < i
    ensures Verdict(Step(g, s, a), i, true) <==> Verdict(s, i, true) || BroughtUp(Taken(s, a), i)
    ensures Verdict(Step(g, s, a), i, false) <==> Verdict(s, i, false) || BroughtDown(Taken(s, a), i)
  {
    hide Step, NextPc, NextMemo, Verdict, PcsOk, MemoOk, Enabled;
    if a.i == i {
      if a.Publish? {
        PublishesVerdict(g, s, a);
      } else {
        ReachesVerdict(g, s, a);
      }
    } else {
      OthersKeepVerdict(g, s, a, i);
    }
  }

  lemma PublishesVerdict(g: Graph, s: State, a: Action)
    requires PcsOk(s) && MemoOk(s) && Enabled(s, a) && 0 < a.i && a.Publish?
    ensures forall ok :: Verdict(Step(g, s, a), a.i, ok) <==> Verdict(s, a.i, ok)
  {
    hide Step, Emits;
    Threads(g, s, a);
    Memos(g, s, a);
  }

  lemma ReachesVerdict(g: Graph, s: State, a: Action)
    requires PcsOk(s) && MemoOk(s) && Enabled(s, a) && 0 < a.i && !a.Publish?
    ensures Verdict(Step(g, s, a), a.i, true) <==> Verdict(s, a.i, true) || BroughtUp(Taken(s, a), a.i)
    ensures Verdict(Step(g, s, a), a.i, false) <==> Verdict(s, a.i, false) || BroughtDown(Taken(s, a), a.i)
  {
    hide Step, Emits, PcsOk;
    Threads(g, s, a);
    Memos(g, s, a);
  }

  lemma OthersKeepVerdict(g: Graph, s: State, a: Action, i: nat)
    requires PcsOk(s) && MemoOk(s) && Enabled(s, a) && 0 < i && i != a.i
    ensures forall ok :: Verdict(Step(g, s, a), i, ok) <==> Verdict(s, i, ok)
    ensures !BroughtUp(Taken(s, a), i) && !BroughtDown(Taken(s, a), i)
  {
    hide Step, Emits, NextPc;
    Threads(g, s, a);
    Memos(g, s, a);
  }

  lemma RootReports(g: Graph, s: State, a: Action)
    requires PcsOk(s) && Enabled(s, a)
    ensures Is(Step(g, s, a), 0, Finished(true)) <==> Is(s, 0, Finished(true)) || a == StartReturned(0, true)
    ensures Is(Step(g, s, a), 0, Finished(false)) <==> Is(s, 0, Finished(false)) || BroughtDown(Taken(s, a), 0)
  {
    hide Step, NextMemo, Emits;
    Threads(g, s, a);
  }

  lemma TraceGrows(g: Graph, root: string, s: State, a: Action, n: string, status: Status)
    requires PcsOk(s) && Enabled(s, a)
    ensures Started(n) in Step(g, s, a).trace <==> Started(n) in s.trace || Calls(Taken(s, a), root, n)
    ensures Observed(n, status) in Step(g, s, a).trace <==>
              Observed(n, status) in s.trace || Finds(Taken(s, a), n, status)
  {
    hide Step, NextMemo;
    Memos(g, s, a);
  }

  lemma InvPcs(g: Graph, rank: map<string, nat>, root: string, s: State)
    requires Inv(g, rank, root, s)
    ensures PcsOk(s) && MemoOk(s)
  {
  }

  lemma NobodyIs(g: Graph, root: string)
    ensures var s := Initial(g, root);
      && s.trace == [] && s.threads[0].pc == Joining && s.memo == map[]
      && forall i :: 0 < i < |s.threads| ==> s.threads[i].pc == Inspecting
  {
    var s := Initial(g, root);
    assert forall j :: 0 < j < |s.threads| ==> s.threads[j] == Spawned(Recorded(g)(root), 0)[j - 1];
  }

  // ---------- Over every run ----------

  /**
    The call reports success exactly if the provider accepted the start of the root, and an
    error exactly if it refused it or a dependency had failed when all were through.
  */
  lemma {:induction false} CallReportsTheStart(g: Graph, rank: map<string, nat>, root: string, run: seq<Action>)
    requires Ranked(Recorded(g), rank) && root in rank
    ensures var s, h := After(g, root, run), History(g, root, run);
      && (s.threads[0].pc == Finished(true) <==> Happened(h, (e: Taken) => e.action == StartReturned(0, true)))
      && (s.threads[0].pc == Finished(false) <==> Happened(h, (e: Taken) => BroughtDown(e, 0)))
  {
    NobodyIs(g, root);
    forall s, a | Inv(g, rank, root, s) && Enabled(s, a)
      ensures Is(Step(g, s, a), 0, Finished(true)) <==> Is(s, 0, Finished(true)) || a == StartReturned(0, true)
      ensures Is(Step(g, s, a), 0, Finished(false)) <==> Is(s, 0, Finished(false)) || BroughtDown(Taken(s, a), 0)
    {
      InvPcs(g, rank, root, s);
      RootReports(g, s, a);
    }
    hide Step, Inv, Enabled, BroughtDown, Happened;
    HistoryDecides(g, rank, root, run, s => Is(s, 0, Finished(true)), (e: Taken) => e.action == StartReturned(0, true));
    HistoryDecides(g, rank, root, run, s => Is(s, 0, Finished(false)), (e: Taken) => BroughtDown(e, 0));
  }

  /**
    A goroutine ends well exactly if it was told a status that meets its condition, and badly
    exactly if it was cancelled, asked in vain, found its node failed or failed to bring it up.
  */
  lemma {:induction false} GoroutinesEndAsTold(g: Graph, rank: map<string, nat>, root: string, run: seq<Action>,
                                               i: nat)
    requires Ranked(Recorded(g), rank) && root in rank && 0 < i < |After(g, root, run).threads|
    ensures var s, h := After(g, root, run), History(g, root, run);
      && (s.threads[i].pc == Finished(true) <==> Happened(h, (e: Taken) => SawMet(e, i)))
      && (s.threads[i].pc == Finished(false) <==> Happened(h, (e: Taken) => GaveUp(e, i)))
  {
    NobodyIs(g, root);
    forall s, a | Inv(g, rank, root, s) && Enabled(s, a)
      ensures Is(Step(g, s, a), i, Finished(true)) <==> Is(s, i, Finished(true)) || SawMet(Taken(s, a), i)
      ensures Is(Step(g, s, a), i, Finished(false)) <==> Is(s, i, Finished(false)) || GaveUp(Taken(s, a), i)
    {
      InvPcs(g, rank, root, s);
      SucceedsByLook(g, s, a, i);
      FailsByGivingUp(g, s, a, i);
    }
    hide Step, Inv, Enabled, SawMet, GaveUp, Happened;
    HistoryDecides(g, rank, root, run, s => Is(s, i, Finished(true)), (e: Taken) => SawMet(e, i));
    HistoryDecides(g, rank, root, run, s => Is(s, i, Finished(false)), (e: Taken) => GaveUp(e, i));
  }

  /**
    A node's `done` closes without an error exactly if its owner's start was accepted, or the
    start of another call or of a request took its place; with an error exactly if that start
    was refused, waiting for it was given up, or a dependency of the node had failed.
  */
  lemma {:induction false} NodesEndAsBrought(g: Graph, rank: map<string, nat>, root: string, run: seq<Action>,
                                             n: string)
    requires Ranked(Recorded(g), rank) && root in rank
    requires n in After(g, root, run).memo && After(g, root, run).memo[n].done.Some?
    ensures var node, h := After(g, root, run).memo[n], History(g, root, run);
      && (node.done == Some(true) <==> Happened(h, (e: Taken) => BroughtUp(e, node.owner)))
      && (node.done == Some(false) <==> Happened(h, (e: Taken) => BroughtDown(e, node.owner)))
  {
    RunKeepsInv(g, rank, root, run);
    InvPcs(g, rank, root, After(g, root, run));
    var i := After(g, root, run).memo[n].owner;
    VerdictsAreBrought(g, rank, root, run, i);
    assert forall ok :: Verdict(After(g, root, run), i, ok) <==> After(g, root, run).memo[n].done == Some(ok);
  }

  lemma {:induction false} VerdictsAreBrought(g: Graph, rank: map<string, nat>, root: string, run: seq<Action>, i: nat)
    requires Ranked(Recorded(g), rank) && root in rank && 0 < i
    ensures var s, h := After(g, root, run), History(g, root, run);
      && (Verdict(s, i, true) <==> Happened(h, (e: Taken) => BroughtUp(e, i)))
      && (Verdict(s, i, false) <==> Happened(h, (e: Taken) => BroughtDown(e, i)))
  {
    NobodyIs(g, root);
    forall s, a | Inv(g, rank, root, s) && Enabled(s, a)
      ensures Verdict(Step(g, s, a), i, true) <==> Verdict(s, i, true) || BroughtUp(Taken(s, a), i)
      ensures Verdict(Step(g, s, a), i, false) <==> Verdict(s, i, false) || BroughtDown(Taken(s, a), i)
    {
      InvPcs(g, rank, root, s);
      VerdictIsBrought(g, s, a, i);
    }
    assert !Verdict(Initial(g, root), i, true) && !Verdict(Initial(g, root), i, false);
    hide Step, Inv, Enabled, Verdict, BroughtUp, BroughtDown, Happened;
    HistoryDecides(g, rank, root, run, s => Verdict(s, i, true), (e: Taken) => BroughtUp(e, i));
    HistoryDecides(g, rank, root, run, s => Verdict(s, i, false), (e: Taken) => BroughtDown(e, i));
  }

  /** Whoever polls for a condition has seen the node's `done` close without an error. */
  ghost predicate PollsAfterDone(s: State) {
    forall i :: 0 <= i < |s.threads| && s.threads[i].pc.Polling? ==>
      s.threads[i].name in s.memo && s.memo[s.threads[i].name].done == Some(true)
  }

  /** A `done` that is closed stays as it is. */
  lemma DoneStays(g: Graph, s: State, a: Action, n: string)
    requires PcsOk(s) && MemoOk(s) && Enabled(s, a) && n in s.memo && s.memo[n].done.Some?
    ensures n in Step(g, s, a).memo && Step(g, s, a).memo[n] == s.memo[n]
  {
    hide Step, Emits;
    Memos(g, s, a);
  }

  lemma StepPollsAfterDone(g: Graph, s: State, a: Action)
    requires PcsOk(s) && MemoOk(s) && PollsAfterDone(s) && Enabled(s, a)
    ensures PollsAfterDone(Step(g, s, a))
  {
    hide Step, Emits, PcsOk, MemoOk;
    Threads(g, s, a);
    Memos(g, s, a);
    forall n | n in s.memo && s.memo[n].done.Some?
      ensures n in Step(g, s, a).memo && Step(g, s, a).memo[n] == s.memo[n]
    {
      DoneStays(g, s, a, n);
    }
  }

  /** No goroutine waits for a condition before the start of its dependency is through. */
  lemma {:induction false} NobodyPollsEarly(g: Graph, rank: map<string, nat>, root: string, run: seq<Action>)
    requires Ranked(Recorded(g), rank) && root in rank
    ensures PollsAfterDone(After(g, root, run))
  {
    hide Step, Inv, Enabled;
    if run == [] {
      NobodyIs(g, root);
    } else {
      hide PollsAfterDone;
      var s := After(g, root, Front(run));
      NobodyPollsEarly(g, rank, root, Front(run));
      RunKeepsInv(g, rank, root, Front(run));
      InvPcs(g, rank, root, s);
      if Enabled(s, Last(run)) {
        StepPollsAfterDone(g, s, Last(run));
      } else {
        Idles(g, s, Last(run));
      }
    }
  }

  /**
    The start trace is true: it names exactly the instances InstanceStart was called for, and
    exactly the looks that found a condition met. As this holds of every prefix of a run, what
    is proved about the order of the trace is about the order of these calls.
  */
  lemma {:induction false} TraceIsTrue(g: Graph, rank: map<string, nat>, root: string, run: seq<Action>, n: string,
                                       status: Status)
    requires Ranked(Recorded(g), rank) && root in rank
    ensures var s, h := After(g, root, run), History(g, root, run);
      && (Started(n) in s.trace <==> Happened(h, (e: Taken) => Calls(e, root, n)))
      && (Observed(n, status) in s.trace <==> Happened(h, (e: Taken) => Finds(e, n, status)))
  {
    NobodyIs(g, root);
    forall s, a | Inv(g, rank, root, s) && Enabled(s, a)
      ensures Started(n) in Step(g, s, a).trace <==> Started(n) in s.trace || Calls(Taken(s, a), root, n)
      ensures Observed(n, status) in Step(g, s, a).trace <==>
                Observed(n, status) in s.trace || Finds(Taken(s, a), n, status)
    {
      InvPcs(g, rank, root, s);
      TraceGrows(g, root, s, a, n, status);
    }
    hide Step, Inv, Enabled, Calls, Finds, Happened;
    HistoryDecides(g, rank, root, run, (s: State) => Started(n) in s.trace, (e: Taken) => Calls(e, root, n));
    HistoryDecides(g, rank, root, run, (s: State) => Observed(n, status) in s.trace,
                   (e: Taken) => Finds(e, n, status));
  }

  // ---------- No failure without a cause ----------

  /** Something has gone wrong: a goroutine, a node, or the call itself. */
  ghost predicate Failure(s: State) {
    || Is(s, 0, Finished(false))
    || (exists i :: HasFailed(s, i))
    || (exists n :: n in s.memo && s.memo[n].done == Some(false))
  }

  lemma FailureBegins(g: Graph, s: State, a: Action)
    requires PcsOk(s) && Enabled(s, a) && Failure(Step(g, s, a))
    ensures Failure(s) || RootCause(Taken(s, a))
  {
    hide Step, Emits;
    Threads(g, s, a);
    Memos(g, s, a);
    var r := Step(g, s, a);
    if !RootCause(Taken(s, a)) {
      if a.Joined? && !ChildrenOk(s, a.i) {
        var j :| 0 < j < |s.threads| && s.threads[j].parent == a.i && s.threads[j].pc != Finished(true);
        assert HasFailed(s, j);
      } else if a.NodeDone? && s.memo[s.threads[a.i].name].done == Some(false) {
        assert s.threads[a.i].name in s.memo;
      } else if a.Publish? && s.threads[a.i].pc == Publishing(false) {
        assert HasFailed(s, a.i);
      } else {
        assert NextPc(s, a) != Publishing(false) && NextPc(s, a) != Finished(false);
        if j :| HasFailed(r, j) {
          assert HasFailed(s, j);
        } else if n :| n in r.memo && r.memo[n].done == Some(false) {
          assert n in s.memo && s.memo[n].done == Some(false);
        }
      }
    }
  }

  /**
    No start fails unless the provider refused a start, could not be asked, reported an error,
    or the call was cancelled.
  */
  lemma {:induction false} FailureHasCause(g: Graph, rank: map<string, nat>, root: string, run: seq<Action>)
    requires Ranked(Recorded(g), rank) && root in rank && Failure(After(g, root, run))
    ensures Happened(History(g, root, run), RootCause)
  {
    hide Step, Inv, Enabled, Failure, RootCause;
    if run == [] {
      NoFailureYet(g, root);
    } else {
      var s, h := After(g, root, Front(run)), History(g, root, Front(run));
      RunKeepsInv(g, rank, root, Front(run));
      InvPcs(g, rank, root, s);
      if Failure(s) {
        FailureHasCause(g, rank, root, Front(run));
        var e :| e in h && RootCause(e);
        assert e in History(g, root, run);
      } else if Enabled(s, Last(run)) {
        FailureBegins(g, s, Last(run));
        assert Taken(s, Last(run)) in History(g, root, run);
      } else {
        Idles(g, s, Last(run));
      }
    }
  }

  lemma NoFailureYet(g: Graph, root: string)
    ensures !Failure(Initial(g, root))
  {
    NobodyIs(g, root);
  }
}
