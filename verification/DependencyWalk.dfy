/**
  The concurrent part of `startWithDependencies`: one goroutine per dependency edge that is
  followed, sharing a memo so each node is started by the first goroutine to reach it. A
  transition system whose steps are the points where goroutines meet: the memo, the wait
  group, `ensureDependencyStarted`, and the answers of the provider.
*/
module DependencyWalk {
  import opened Common
  import opened Dependencies

  datatype Status = Stopped | Starting | Ready | Completed | Error | NotReady

  /** `dependencyConditionSatisfied`. */
  predicate Satisfied(status: Status, condition: string) {
    if condition == "service_healthy" then status == Ready
    else if condition == "service_completed_successfully" then status == Completed
    else if condition == "service_running_or_healthy" then status == Status.Starting || status == Ready
    else status == Status.Starting || status == Ready || status == Completed
  }

  /**
    The conditions as Docker Compose orders them, all in terms of "has started": running is
    started but not completed, completed is the rest of it, healthy is running past the start.
    Unknown conditions ask for a start.
  */
  lemma ConditionsNest(status: Status, unknown: string)
    requires unknown !in {"service_healthy", "service_completed_successfully", "service_running_or_healthy"}
    ensures var started := Satisfied(status, "service_started");
      && (started <==> status !in {Stopped, Error, NotReady})
      && (Satisfied(status, "service_running_or_healthy") <==> started && status != Completed)
      && (Satisfied(status, "service_completed_successfully") <==>
            started && !Satisfied(status, "service_running_or_healthy"))
      && (Satisfied(status, "service_healthy") <==>
            Satisfied(status, "service_running_or_healthy") && status != Status.Starting)
      && (Satisfied(status, unknown) <==> started)
  {
  }

  // ---------- State ----------

  datatype Pc =
    | Inspecting            // first look at the dependency in satisfyDependency
    | Loading               // about to ask the memo
    | AwaitingNode          // another goroutine owns the node: wait for its `done`
    | Joining               // owner: waiting for the goroutines of the node's own dependencies
    | Ensuring              // about to enter ensureDependencyStarted
    | AwaitingFlight        // another call is starting this instance
    | Issued                // inside the provider's InstanceStart
    | Publishing(ok: bool)  // about to set result.err and close result.done
    | Polling               // waitForDependencyCondition
    | Finished(ok: bool)

  /** Goroutine 0 runs `startWithDependencies` itself; `first` numbers the goroutines it or an owner spawned. */
  datatype Thread = Thread(name: string, condition: string, parent: nat, first: nat, pc: Pc)

  datatype Node = Node(owner: nat, done: Option<bool>)

  datatype Event =
    | Started(name: string)
    | Observed(name: string, status: Status)

  datatype State = State(threads: seq<Thread>, memo: map<string, Node>, trace: seq<Event>)

  function Spawned(deps: seq<Dependency>, parent: nat): seq<Thread> {
    seq(|deps|, k requires 0 <= k < |deps| => Thread(deps[k].name, deps[k].condition, parent, 0, Inspecting))
  }

  function Initial(g: Graph, root: string): State {
    State([Thread(root, "", 0, 1, Joining)] + Spawned(Recorded(g)(root), 0), map[], [])
  }

  // ---------- Steps ----------

  datatype How = Managed | InFlight | Mine

  /** Goroutine `i` moves; the other arguments are what the environment answers. */
  datatype Action =
    | Inspect(i: nat, reply: Option<Status>)
    | Load(i: nat)
    | NodeDone(i: nat)
    | Cancel(i: nat)
    | Joined(i: nat)
    | Ensure(i: nat, how: How)
    | FlightDone(i: nat, ok: bool)
    | StartReturned(i: nat, ok: bool)
    | Publish(i: nat)
    | Poll(i: nat, reply: Option<Status>)

  predicate ChildrenFinished(s: State, i: nat) {
    forall j :: 0 < j < |s.threads| && s.threads[j].parent == i ==> s.threads[j].pc.Finished?
  }

  predicate ChildrenOk(s: State, i: nat) {
    forall j :: 0 < j < |s.threads| && s.threads[j].parent == i ==> s.threads[j].pc == Finished(true)
  }

  predicate Enabled(s: State, a: Action) {
    a.i < |s.threads| &&
    var t := s.threads[a.i];
    match a
    case Inspect(_, _) => t.pc.Inspecting?
    case Load(_) => t.pc.Loading?
    case NodeDone(_) => t.pc.AwaitingNode? && t.name in s.memo && s.memo[t.name].done.Some?
    case Cancel(_) => t.pc.AwaitingNode? || t.pc.AwaitingFlight? || t.pc.Polling?
    case Joined(i) => t.pc.Joining? && ChildrenFinished(s, i)
    case Ensure(_, _) => t.pc.Ensuring?
    case FlightDone(_, _) => t.pc.AwaitingFlight?
    case StartReturned(_, _) => t.pc.Issued?
    case Publish(_) => t.pc.Publishing? && t.name in s.memo
    case Poll(_, _) => t.pc.Polling?
  }

  /** The memo does not know the node yet: goroutine `a.i` becomes its owner. */
  predicate Claims(s: State, a: Action)
    requires Enabled(s, a)
  {
    a.Load? && s.threads[a.i].name !in s.memo
  }

  function NextPc(s: State, a: Action): Pc
    requires Enabled(s, a)
  {
    var t := s.threads[a.i];
    match a
    case Inspect(_, reply) => if reply.Some? && Satisfied(reply.value, t.condition) then Finished(true) else Loading
    case Load(_) => if Claims(s, a) then Joining else AwaitingNode
    case NodeDone(_) => if s.memo[t.name].done.value then Polling else Finished(false)
    case Cancel(_) => if t.pc.AwaitingFlight? then Publishing(false) else Finished(false)
    case Joined(i) =>
      if i == 0 then if ChildrenOk(s, i) then Issued else Finished(false)
      else if ChildrenOk(s, i) then Ensuring else Publishing(false)
    case Ensure(_, Managed) => Publishing(true)
    case Ensure(_, InFlight) => AwaitingFlight
    case Ensure(_, Mine) => Issued
    case FlightDone(_, ok) => Publishing(ok)
    case StartReturned(i, ok) => if i == 0 then Finished(ok) else Publishing(ok)
    case Publish(_) => if t.pc.ok then Polling else Finished(false)
    case Poll(_, reply) =>
      if reply.None? || reply.value == Error then Finished(false)
      else if Satisfied(reply.value, t.condition) then Finished(true)
      else Polling
  }

  function Emits(s: State, a: Action): seq<Event>
    requires Enabled(s, a)
  {
    var t := s.threads[a.i];
    if NextPc(s, a).Issued? then [Started(t.name)]
    else if NextPc(s, a) == Finished(true) && (a.Inspect? || a.Poll?) then [Observed(t.name, a.reply.value)]
    else []
  }

  function NextMemo(s: State, a: Action): map<string, Node>
    requires Enabled(s, a)
  {
    var t := s.threads[a.i];
    if Claims(s, a) then s.memo[t.name := Node(a.i, None)]
    else if a.Publish? then s.memo[t.name := s.memo[t.name].(done := Some(t.pc.ok))]
    else s.memo
  }

  function NextThreads(g: Graph, s: State, a: Action): seq<Thread>
    requires Enabled(s, a)
  {
    var t := s.threads[a.i];
    if Claims(s, a)
    then s.threads[a.i := t.(pc := Joining, first := |s.threads|)] + Spawned(Recorded(g)(t.name), a.i)
    else s.threads[a.i := t.(pc := NextPc(s, a))]
  }

  /** An action that is not enabled does nothing, so every sequence of actions is a run. */
  function Step(g: Graph, s: State, a: Action): State {
    if !Enabled(s, a) then s
    else State(NextThreads(g, s, a), NextMemo(s, a), s.trace + Emits(s, a))
  }

  function After(g: Graph, root: string, run: seq<Action>): (s: State)
    ensures s.threads != []
  {
    if run == [] then Initial(g, root) else Step(g, After(g, root, Front(run)), Last(run))
  }

  // ---------- Invariant ----------

  predicate Idle(pc: Pc) {
    pc.Inspecting? || pc.Loading? || pc.AwaitingNode?
  }

  /** The owner has not closed the node's `done` yet. */
  predicate Working(pc: Pc) {
    pc.Joining? || pc.Ensuring? || pc.AwaitingFlight? || pc.Issued? || pc.Publishing?
  }

  /** Reached only if the goroutines spawned for the own dependencies all succeeded. */
  predicate Good(pc: Pc) {
    pc.Ensuring? || pc.AwaitingFlight? || pc.Issued? || pc == Publishing(true) || pc.Polling? || pc == Finished(true)
  }

  predicate Owns(s: State, i: nat)
    requires i < |s.threads|
  {
    i == 0 || (s.threads[i].name in s.memo && s.memo[s.threads[i].name].owner == i)
  }

  ghost predicate Child(s: State, i: nat, k: nat, d: Dependency)
    requires i < |s.threads|
  {
    var c := s.threads[i].first + k;
    0 < c < |s.threads| && s.threads[c].parent == i && Dependency(s.threads[c].name, s.threads[c].condition) == d
  }

  /** Who was spawned by whom, and that ranks fall along the way. */
  ghost predicate Tree(rank: map<string, nat>, root: string, s: State) {
    && s.threads != [] && s.threads[0].name == root
    && (forall i :: 0 <= i < |s.threads| ==> s.threads[i].name in rank)
    && (forall i :: 0 < i < |s.threads| ==>
          var t := s.threads[i];
          && t.parent < i && rank[t.name] < rank[root]
          && rank[t.name] < rank[s.threads[t.parent].name])
  }

  /** Owners, and goroutine 0, have one child for each dependency. */
  ghost predicate Wired(g: Graph, s: State) {
    forall i, k :: 0 <= i < |s.threads| && Owns(s, i) && 0 <= k < |Recorded(g)(s.threads[i].name)| ==>
      Child(s, i, k, Recorded(g)(s.threads[i].name)[k])
  }

  ghost predicate PcsOk(s: State) {
    && s.threads != []
    && (s.threads[0].pc.Joining? || s.threads[0].pc.Issued? || s.threads[0].pc.Finished?)
    && (forall i :: 0 < i < |s.threads| && Working(s.threads[i].pc) ==> Owns(s, i))
    && (forall i :: 0 < i < |s.threads| && s.threads[i].pc.AwaitingNode? ==> s.threads[i].name in s.memo)
  }

  ghost predicate MemoOk(s: State) {
    forall n :: n in s.memo ==>
      var o := s.memo[n].owner;
      && 0 < o < |s.threads| && s.threads[o].name == n && !Idle(s.threads[o].pc)
      && (s.memo[n].done.None? <==> Working(s.threads[o].pc))
  }

  ghost predicate JoinOk(s: State) {
    forall j :: 0 < j < |s.threads| && s.threads[j].parent < |s.threads| ==>
      var p := s.threads[s.threads[j].parent].pc;
      && !Idle(p)
      && (!p.Joining? ==> s.threads[j].pc.Finished?)
      && (Good(p) ==> s.threads[j].pc == Finished(true))
  }

  /** A look at the instance found the condition met. */
  predicate Shows(e: Event, d: Dependency) {
    e.Observed? && e.name == d.name && Satisfied(e.status, d.condition)
  }

  ghost predicate Seen(trace: seq<Event>, d: Dependency) {
    exists u :: 0 <= u < |trace| && Shows(trace[u], d)
  }

  /** No instance is started twice, and nothing is started after the root. */
  ghost predicate StartsDistinct(root: string, trace: seq<Event>) {
    forall t, u :: 0 <= t < u < |trace| && trace[t].Started? && trace[u].Started? ==>
      trace[t].name != trace[u].name && trace[t].name != root
  }

  /** Before an instance is started, each direct dependency was seen to meet its condition. */
  ghost predicate DependenciesFirst(g: Graph, trace: seq<Event>) {
    forall t, k :: 0 <= t < |trace| && trace[t].Started? && 0 <= k < |Recorded(g)(trace[t].name)| ==>
      Seen(trace[..t], Recorded(g)(trace[t].name)[k])
  }

  ghost predicate SeenOk(s: State) {
    forall i :: 0 < i < |s.threads| && s.threads[i].pc == Finished(true) ==>
      Seen(s.trace, Dependency(s.threads[i].name, s.threads[i].condition))
  }

  predicate PastStart(pc: Pc) {
    pc.Issued? || pc.Publishing? || pc.Polling? || pc.Finished?
  }

  /** Where a started instance's goroutine is; for the root, that all its dependencies succeeded. */
  predicate StartOk(root: string, s: State, n: string)
    requires s.threads != []
  {
    if n == root then PastStart(s.threads[0].pc) && ChildrenOk(s, 0)
    else n in s.memo && s.memo[n].owner < |s.threads| && PastStart(s.threads[s.memo[n].owner].pc)
  }

  ghost predicate StartsOk(root: string, s: State) {
    s.threads != [] && forall n :: Started(n) in s.trace ==> StartOk(root, s, n)
  }

  ghost predicate Inv(g: Graph, rank: map<string, nat>, root: string, s: State) {
    && Tree(rank, root, s) && Wired(g, s) && PcsOk(s) && MemoOk(s) && JoinOk(s)
    && StartsDistinct(root, s.trace) && DependenciesFirst(g, s.trace) && SeenOk(s) && StartsOk(root, s)
  }

  // ---------- Preservation ----------

  /** How program counters move, all steps at once. */
  lemma Moves(s: State, a: Action)
    requires Enabled(s, a) && PcsOk(s)
    ensures var t, q := s.threads[a.i], NextPc(s, a);
      && !t.pc.Finished?
      && (Idle(q) ==> Idle(t.pc)) && (q.AwaitingNode? ==> t.name in s.memo)
      && (!Claims(s, a) && Working(q) ==> Working(t.pc)) && (Claims(s, a) ==> Idle(t.pc) && q.Joining?)
      && (a.i > 0 && Working(t.pc) ==> (Working(q) <==> !a.Publish?))
      && (a.Publish? ==> Working(t.pc) && !Working(q))
      && (!Claims(s, a) && q.Joining? ==> t.pc.Joining?)
      && (t.pc.Joining? && !q.Joining? ==> ChildrenFinished(s, a.i))
      && (Good(q) ==> Good(t.pc) || Idle(t.pc) || (t.pc.Joining? && ChildrenOk(s, a.i)))
      && (a.i == 0 ==> q.Issued? || q.Finished?)
      && (PastStart(t.pc) ==> PastStart(q))
  {
  }

  lemma Logs(s: State, a: Action)
    requires Enabled(s, a) && PcsOk(s)
    ensures var t, q, e := s.threads[a.i], NextPc(s, a), Emits(s, a);
      && |e| <= 1
      && (a.i > 0 && q == Finished(true) ==> Seen(e, Dependency(t.name, t.condition)))
      && (e != [] && e[0].Started? ==>
            e[0] == Started(t.name) && q.Issued? && !PastStart(t.pc)
            && if a.i == 0 then ChildrenOk(s, 0) else t.pc.Ensuring?)
  {
    if a.i > 0 && NextPc(s, a) == Finished(true) {
      assert Shows(Emits(s, a)[0], Dependency(s.threads[a.i].name, s.threads[a.i].condition));
    }
  }

  /** The goroutines after a step: one has moved, and an owner has spawned new ones. */
  lemma Threads(g: Graph, s: State, a: Action)
    requires Enabled(s, a)
    ensures var r, t, n := Step(g, s, a), s.threads[a.i], |s.threads|;
      && n <= |r.threads| && (!Claims(s, a) ==> |r.threads| == n)
      && (forall j :: 0 <= j < n && j != a.i ==> r.threads[j] == s.threads[j])
      && r.threads[a.i] == t.(pc := NextPc(s, a), first := if Claims(s, a) then n else t.first)
      && (Claims(s, a) ==> |r.threads| == n + |Recorded(g)(t.name)|)
      && (forall j :: n <= j < |r.threads| ==>
            var d := Recorded(g)(t.name)[j - n];
            r.threads[j] == Thread(d.name, d.condition, a.i, 0, Inspecting))
  {
    hide NextMemo, Emits;
    var t, n := s.threads[a.i], |s.threads|;
    if Claims(s, a) {
      assert NextPc(s, a) == Joining;
      forall j | n <= j < n + |Recorded(g)(t.name)|
        ensures NextThreads(g, s, a)[j] == Spawned(Recorded(g)(t.name), a.i)[j - n] {
      }
    } else {
      assert t.(first := t.first) == t;
    }
  }

  lemma Memos(g: Graph, s: State, a: Action)
    requires Enabled(s, a)
    ensures var r, t := Step(g, s, a), s.threads[a.i];
      && r.trace == s.trace + Emits(s, a)
      && r.memo == NextMemo(s, a)
  {
  }

  lemma InitialHolds(g: Graph, rank: map<string, nat>, root: string)
    requires Ranked(Recorded(g), rank) && root in rank
    ensures Inv(g, rank, root, Initial(g, root))
  {
    hide Tree, Wired;
    var s := Initial(g, root);
    InitialTree(g, rank, root);
    assert forall j :: 0 < j < |s.threads| ==> s.threads[j] == Spawned(Recorded(g)(root), 0)[j - 1];
  }

  lemma InitialTree(g: Graph, rank: map<string, nat>, root: string)
    requires Ranked(Recorded(g), rank) && root in rank
    ensures Tree(rank, root, Initial(g, root)) && Wired(g, Initial(g, root))
  {
    var s := Initial(g, root);
    assert forall j :: 0 < j < |s.threads| ==> s.threads[j] == Spawned(Recorded(g)(root), 0)[j - 1];
  }

  lemma StepKeepsTree(g: Graph, rank: map<string, nat>, root: string, s: State, a: Action)
    requires Ranked(Recorded(g), rank) && Tree(rank, root, s) && Enabled(s, a)
    ensures Tree(rank, root, Step(g, s, a))
  {
    hide Step, NextPc, Emits, NextMemo;
    Threads(g, s, a);
  }

  lemma StepKeepsWired(g: Graph, s: State, a: Action)
    requires Wired(g, s) && PcsOk(s) && MemoOk(s) && Enabled(s, a)
    ensures Wired(g, Step(g, s, a))
  {
    hide Step, NextPc, Emits, NextMemo, Owns, PcsOk, MemoOk, Claims, Child;
    var r, n := Step(g, s, a), |s.threads|;
    forall p, k | 0 <= p < |r.threads| && Owns(r, p) && 0 <= k < |Recorded(g)(r.threads[p].name)|
      ensures Child(r, p, k, Recorded(g)(r.threads[p].name)[k])
    {
      OwnsBefore(g, s, a, p);
      ChildAfter(g, s, a, p, k);
    }
  }

  lemma ChildAfter(g: Graph, s: State, a: Action, p: nat, k: nat)
    requires Enabled(s, a) && p < |s.threads| && p < |Step(g, s, a).threads|
    requires k < |Recorded(g)(s.threads[p].name)|
    requires (Claims(s, a) && p == a.i) || Child(s, p, k, Recorded(g)(s.threads[p].name)[k])
    ensures Child(Step(g, s, a), p, k, Recorded(g)(s.threads[p].name)[k])
  {
    hide Step, NextPc, Emits, NextMemo;
    Threads(g, s, a);
    if Claims(s, a) && p == a.i {
      assert Step(g, s, a).threads[|s.threads| + k].parent == a.i;
    }
  }

  lemma OwnsBefore(g: Graph, s: State, a: Action, p: nat)
    requires PcsOk(s) && MemoOk(s) && Enabled(s, a) && p < |Step(g, s, a).threads| && Owns(Step(g, s, a), p)
    ensures p < |s.threads| && (Owns(s, p) || (Claims(s, a) && p == a.i))
    ensures Step(g, s, a).threads[p].name == s.threads[p].name
  {
    hide Step, NextPc, Emits;
    Threads(g, s, a);
    Memos(g, s, a);
  }

  lemma StepKeepsPcs(g: Graph, s: State, a: Action)
    requires PcsOk(s) && MemoOk(s) && Enabled(s, a)
    ensures PcsOk(Step(g, s, a))
  {
    hide Step, NextPc, Emits;
    Threads(g, s, a);
    Memos(g, s, a);
    Moves(s, a);
  }

  lemma StepKeepsMemo(g: Graph, s: State, a: Action)
    requires PcsOk(s) && MemoOk(s) && Enabled(s, a)
    ensures MemoOk(Step(g, s, a))
  {
    hide Step, NextPc, Emits;
    Threads(g, s, a);
    Memos(g, s, a);
    Moves(s, a);
    var r := Step(g, s, a);
    forall n | n in r.memo
      ensures r.memo[n].owner < |r.threads| && r.threads[r.memo[n].owner].name == n
      ensures var o := r.memo[n].owner;
        0 < o && !Idle(r.threads[o].pc) && (r.memo[n].done.None? <==> Working(r.threads[o].pc))
    {
      if n in s.memo {
        assert r.memo[n].owner == s.memo[n].owner;
      }
    }
  }

  lemma StepKeepsJoin(g: Graph, rank: map<string, nat>, root: string, s: State, a: Action)
    requires Tree(rank, root, s) && PcsOk(s) && JoinOk(s) && Enabled(s, a)
    ensures JoinOk(Step(g, s, a))
  {
    hide Step, NextPc, Emits, NextMemo;
    Threads(g, s, a);
    Moves(s, a);
  }

  /** Once the root has joined, everybody else is done; if its dependencies succeeded, everybody did. */
  lemma {:induction false} DoneBelowRoot(rank: map<string, nat>, root: string, s: State, i: nat)
    requires Tree(rank, root, s) && JoinOk(s) && !s.threads[0].pc.Joining? && 0 < i < |s.threads|
    ensures s.threads[i].pc.Finished?
    ensures ChildrenOk(s, 0) ==> s.threads[i].pc == Finished(true)
  {
    if s.threads[i].parent > 0 {
      DoneBelowRoot(rank, root, s, s.threads[i].parent);
    }
  }

  lemma SeenGrows(trace: seq<Event>, more: seq<Event>, d: Dependency)
    ensures Seen(trace, d) || Seen(more, d) ==> Seen(trace + more, d)
  {
    if Seen(more, d) && !Seen(trace, d) {
      var u :| 0 <= u < |more| && Shows(more[u], d);
      assert (trace + more)[|trace| + u] == more[u];
    } else if Seen(trace, d) {
      var u :| 0 <= u < |trace| && Shows(trace[u], d);
      assert (trace + more)[u] == trace[u];
    }
  }

  lemma StepKeepsSeen(g: Graph, s: State, a: Action)
    requires PcsOk(s) && SeenOk(s) && Enabled(s, a)
    ensures SeenOk(Step(g, s, a))
  {
    hide Step, NextPc, Emits, NextMemo, Seen;
    Threads(g, s, a);
    Memos(g, s, a);
    Logs(s, a);
    var r := Step(g, s, a);
    forall i | 0 < i < |r.threads| && r.threads[i].pc == Finished(true)
      ensures Seen(r.trace, Dependency(r.threads[i].name, r.threads[i].condition))
    {
      SeenGrows(s.trace, Emits(s, a), Dependency(r.threads[i].name, r.threads[i].condition));
    }
  }

  lemma StartStays(g: Graph, rank: map<string, nat>, root: string, s: State, a: Action, n: string)
    requires Tree(rank, root, s) && PcsOk(s) && JoinOk(s) && Enabled(s, a) && StartOk(root, s, n)
    ensures StartOk(root, Step(g, s, a), n)
  {
    hide Step, NextPc, Emits, Tree, JoinOk;
    if n == root && a.i > 0 {
      DoneBelowRoot(rank, root, s, a.i);
    }
    Threads(g, s, a);
    Memos(g, s, a);
    Moves(s, a);
  }

  lemma NewStart(g: Graph, root: string, s: State, a: Action)
    requires PcsOk(s) && Enabled(s, a) && Emits(s, a) != [] && Emits(s, a)[0].Started?
    requires a.i == 0 ==> s.threads[a.i].name == root
    requires a.i > 0 ==> s.threads[a.i].name != root
    ensures Step(g, s, a).threads != [] && StartOk(root, Step(g, s, a), s.threads[a.i].name)
  {
    hide Step, NextPc, Emits;
    Threads(g, s, a);
    Memos(g, s, a);
    Logs(s, a);
  }

  lemma StepKeepsStarts(g: Graph, rank: map<string, nat>, root: string, s: State, a: Action)
    requires Tree(rank, root, s) && PcsOk(s) && JoinOk(s) && StartsOk(root, s) && Enabled(s, a)
    ensures StartsOk(root, Step(g, s, a))
  {
    hide Step, NextPc, Emits, NextMemo, PcsOk, JoinOk, ChildrenOk, PastStart;
    Threads(g, s, a);
    Memos(g, s, a);
    Logs(s, a);
    var r := Step(g, s, a);
    forall n | Started(n) in r.trace ensures StartOk(root, r, n) {
      if Started(n) in s.trace {
        StartStays(g, rank, root, s, a, n);
      } else {
        assert Emits(s, a)[0] == Started(n);
        NewStart(g, root, s, a);
      }
    }
  }

  /** Whoever is about to start has a name that was not started, and the root was not either. */
  lemma StartIsNew(rank: map<string, nat>, root: string, s: State, a: Action, n: string)
    requires Tree(rank, root, s) && PcsOk(s) && MemoOk(s) && JoinOk(s) && Enabled(s, a) && StartOk(root, s, n)
    requires Emits(s, a) != [] && Emits(s, a)[0].Started?
    ensures n != s.threads[a.i].name && n != root
  {
    hide NextPc, Emits, JoinOk;
    Logs(s, a);
    if n == root && a.i > 0 {
      DoneBelowRoot(rank, root, s, a.i);
    }
  }

  lemma StepKeepsDistinct(g: Graph, rank: map<string, nat>, root: string, s: State, a: Action)
    requires Tree(rank, root, s) && PcsOk(s) && MemoOk(s) && JoinOk(s) && StartsOk(root, s) && Enabled(s, a)
    requires StartsDistinct(root, s.trace)
    ensures StartsDistinct(root, Step(g, s, a).trace)
  {
    hide Step, NextPc, Emits, NextMemo, Tree, MemoOk, JoinOk, PcsOk;
    Memos(g, s, a);
    Logs(s, a);
    var e := Emits(s, a);
    var trace := s.trace + e;
    forall t, u | 0 <= t < u < |trace| && trace[t].Started? && trace[u].Started?
      ensures trace[t].name != trace[u].name && trace[t].name != root
    {
      assert trace[t] == s.trace[t] && trace[t] == Started(trace[t].name);
      if u == |s.trace| {
        StartIsNew(rank, root, s, a, trace[t].name);
      }
    }
  }

  lemma StepKeepsOrder(g: Graph, s: State, a: Action)
    requires Wired(g, s) && PcsOk(s) && JoinOk(s) && SeenOk(s) && Enabled(s, a)
    requires DependenciesFirst(g, s.trace)
    ensures DependenciesFirst(g, Step(g, s, a).trace)
  {
    hide Step, NextPc, Emits, NextMemo, Seen;
    Memos(g, s, a);
    Logs(s, a);
    var e := Emits(s, a);
    var trace := s.trace + e;
    forall t, k | 0 <= t < |trace| && trace[t].Started? && 0 <= k < |Recorded(g)(trace[t].name)|
      ensures Seen(trace[..t], Recorded(g)(trace[t].name)[k])
    {
      if t < |s.trace| {
        assert trace[t] == s.trace[t] && trace[..t] == s.trace[..t];
      } else {
        assert trace[t] == e[0] && trace[..t] == s.trace;
        assert Child(s, a.i, k, Recorded(g)(s.threads[a.i].name)[k]);
      }
    }
  }

  lemma StepKeepsInv(g: Graph, rank: map<string, nat>, root: string, s: State, a: Action)
    requires Ranked(Recorded(g), rank) && Inv(g, rank, root, s)
    ensures Inv(g, rank, root, Step(g, s, a))
  {
    hide Tree, Wired, PcsOk, MemoOk, JoinOk, StartsDistinct, DependenciesFirst, SeenOk, StartsOk;
    if Enabled(s, a) {
      StepKeepsTree(g, rank, root, s, a);
      StepKeepsWired(g, s, a);
      StepKeepsPcs(g, s, a);
      StepKeepsMemo(g, s, a);
      StepKeepsJoin(g, rank, root, s, a);
      StepKeepsSeen(g, s, a);
      StepKeepsStarts(g, rank, root, s, a);
      StepKeepsDistinct(g, rank, root, s, a);
      StepKeepsOrder(g, s, a);
    }
  }

  lemma {:induction false} RunKeepsInv(g: Graph, rank: map<string, nat>, root: string, run: seq<Action>)
    requires Ranked(Recorded(g), rank) && root in rank
    ensures Inv(g, rank, root, After(g, root, run))
  {
    hide Inv, Step;
    if run == [] {
      InitialHolds(g, rank, root);
    } else {
      RunKeepsInv(g, rank, root, Front(run));
      StepKeepsInv(g, rank, root, After(g, root, Front(run)), Last(run));
    }
  }

  // ---------- What a start does, over every interleaving ----------

  /**
    Start trace: whatever the interleaving and the provider's answers, one call starts each
    instance at most once, starts an instance only after every direct dependency was seen to
    meet its condition, and starts the root last.
  */
  lemma {:induction false} StartsAreOrdered(g: Graph, rank: map<string, nat>, root: string, run: seq<Action>)
    requires Ranked(Recorded(g), rank) && root in rank
    ensures StartsDistinct(root, After(g, root, run).trace) && DependenciesFirst(g, After(g, root, run).trace)
  {
    RunKeepsInv(g, rank, root, run);
  }

  predicate HasFailed(s: State, i: nat) {
    0 < i < |s.threads| && (s.threads[i].pc == Publishing(false) || s.threads[i].pc == Finished(false))
  }

  lemma {:induction false} FailureIsFinal(g: Graph, rank: map<string, nat>, root: string, run: seq<Action>,
                                          more: seq<Action>, i: nat)
    requires Ranked(Recorded(g), rank) && root in rank && HasFailed(After(g, root, run), i)
    ensures HasFailed(After(g, root, run + more), i)
  {
    if more == [] {
      assert run + more == run;
    } else {
      FailureIsFinal(g, rank, root, run, Front(more), i);
      assert Front(run + more) == run + Front(more) && Last(run + more) == Last(more);
      FailureStays(g, After(g, root, run + Front(more)), Last(more), i);
    }
  }

  lemma FailureStays(g: Graph, s: State, a: Action, i: nat)
    requires HasFailed(s, i)
    ensures HasFailed(Step(g, s, a), i)
  {
    if Enabled(s, a) {
      Threads(g, s, a);
    }
  }

  /** Once the goroutine of any dependency has failed, the root has not been started and never will be. */
  lemma {:induction false} FailureKeepsRootDown(g: Graph, rank: map<string, nat>, root: string, run: seq<Action>,
                                                more: seq<Action>, i: nat)
    requires Ranked(Recorded(g), rank) && root in rank && HasFailed(After(g, root, run), i)
    ensures Started(root) !in After(g, root, run + more).trace
    ensures After(g, root, run + more).threads[0].pc != Finished(true)
  {
    hide Inv, After;
    FailureIsFinal(g, rank, root, run, more, i);
    RunKeepsInv(g, rank, root, run + more);
    RootNeedsEveryone(g, rank, root, After(g, root, run + more), i);
  }

  lemma RootNeedsEveryone(g: Graph, rank: map<string, nat>, root: string, s: State, i: nat)
    requires Inv(g, rank, root, s) && 0 < i < |s.threads|
    ensures Good(s.threads[0].pc) || Started(root) in s.trace ==> s.threads[i].pc == Finished(true)
  {
    if Good(s.threads[0].pc) || Started(root) in s.trace {
      DoneBelowRoot(rank, root, s, i);
    }
  }

  // ---------- How the root ends ----------

  /** An issued root was logged; one that ended without being started has a failed dependency. */
  ghost predicate RootAccounted(root: string, s: State) {
    && s.threads != []
    && (s.threads[0].pc.Issued? || s.threads[0].pc == Finished(true) ==> Started(root) in s.trace)
    && (s.threads[0].pc == Finished(false) && Started(root) !in s.trace ==> exists i :: HasFailed(s, i))
  }

  lemma StepAccountsRoot(g: Graph, root: string, s: State, a: Action)
    requires PcsOk(s) && s.threads[0].name == root && RootAccounted(root, s)
    ensures RootAccounted(root, Step(g, s, a))
  {
    if Enabled(s, a) {
      Threads(g, s, a);
      Memos(g, s, a);
      if a.i == 0 {
        RootMoves(s, a);
      }
      if i :| HasFailed(s, i) {
        FailureStays(g, s, a, i);
      }
    }
  }

  /** Goroutine 0 issues the root's start or finds that a dependency has failed. */
  lemma RootMoves(s: State, a: Action)
    requires Enabled(s, a) && a.i == 0
    requires s.threads[0].pc.Joining? || s.threads[0].pc.Issued? || s.threads[0].pc.Finished?
    ensures NextPc(s, a).Issued? ==> Emits(s, a) == [Started(s.threads[0].name)]
    ensures NextPc(s, a) == Finished(true) ==> s.threads[0].pc.Issued?
    ensures NextPc(s, a) == Finished(false) && s.threads[0].pc.Joining? ==> exists i :: HasFailed(s, i)
  {
    if s.threads[0].pc.Joining? && !ChildrenOk(s, 0) {
      var j :| 0 < j < |s.threads| && s.threads[j].parent == 0 && s.threads[j].pc != Finished(true);
      assert s.threads[j].pc == Finished(false);
      assert HasFailed(s, j);
    }
  }

  lemma {:induction false} RootIsAccounted(g: Graph, rank: map<string, nat>, root: string, run: seq<Action>)
    requires Ranked(Recorded(g), rank) && root in rank
    ensures RootAccounted(root, After(g, root, run))
  {
    hide Step, RootAccounted;
    if run == [] {
      NothingToAccount(g, root);
    } else {
      RootIsAccounted(g, rank, root, Front(run));
      RunKeepsInv(g, rank, root, Front(run));
      InvStart(g, rank, root, After(g, root, Front(run)));
      StepAccountsRoot(g, root, After(g, root, Front(run)), Last(run));
    }
  }

  lemma NothingToAccount(g: Graph, root: string)
    ensures RootAccounted(root, Initial(g, root))
  {
  }

  /**
    When the call has returned, its root was started if and only if the goroutine of no
    dependency failed; it returns success only if the root was started.
  */
  lemma {:induction false} RootStartedUnlessFailure(g: Graph, rank: map<string, nat>, root: string, run: seq<Action>)
    requires Ranked(Recorded(g), rank) && root in rank && After(g, root, run).threads[0].pc.Finished?
    ensures var s := After(g, root, run);
      && (Started(root) in s.trace <==> !exists i :: HasFailed(s, i))
      && (s.threads[0].pc == Finished(true) ==> Started(root) in s.trace)
  {
    hide Inv, After;
    RootIsAccounted(g, rank, root, run);
    RunKeepsInv(g, rank, root, run);
    var s := After(g, root, run);
    if i :| HasFailed(s, i) {
      RootNeedsEveryone(g, rank, root, s, i);
    }
  }

  // ---------- What is already satisfied is left untouched ----------

  /** A first look at `n` that fails or finds the condition of that goroutine unmet. */
  predicate Misses(s: State, a: Action, n: string) {
    && Enabled(s, a) && a.Inspect? && s.threads[a.i].name == n
    && !(a.reply.Some? && Satisfied(a.reply.value, s.threads[a.i].condition))
  }

  ghost predicate Missed(g: Graph, root: string, run: seq<Action>, n: string) {
    exists u :: 0 <= u < |run| && Misses(After(g, root, run[..u]), run[u], n)
  }

  lemma {:induction false} MissedSoFar(g: Graph, root: string, run: seq<Action>, n: string)
    requires run != []
    requires Missed(g, root, Front(run), n) || Misses(After(g, root, Front(run)), Last(run), n)
    ensures Missed(g, root, run, n)
  {
    hide Misses, After;
    if Missed(g, root, Front(run), n) {
      var u :| 0 <= u < |Front(run)| && Misses(After(g, root, Front(run)[..u]), Front(run)[u], n);
      assert run[..u] == Front(run)[..u] && run[u] == Front(run)[u];
    } else {
      assert run[..|run| - 1] == Front(run);
    }
  }

  /** Some goroutine of `n` is past its first look and not finished. */
  ghost predicate AtWork(s: State, n: string) {
    exists i :: 0 < i < |s.threads| && s.threads[i].name == n
      && !s.threads[i].pc.Inspecting? && !s.threads[i].pc.Finished?
  }

  lemma NewWorkIsMiss(g: Graph, s: State, a: Action, n: string)
    requires PcsOk(s) && AtWork(Step(g, s, a), n)
    ensures AtWork(s, n) || Misses(s, a, n)
  {
    if Enabled(s, a) {
      hide Step, NextMemo, Emits;
      Threads(g, s, a);
      Moves(s, a);
      LooksOnce(s, a);
    }
  }

  lemma LooksOnce(s: State, a: Action)
    requires Enabled(s, a)
    ensures s.threads[a.i].pc.Inspecting? && !NextPc(s, a).Finished? ==> Misses(s, a, s.threads[a.i].name)
    ensures !NextPc(s, a).Inspecting?
  {
  }

  lemma {:induction false} WorkFollowsMiss(g: Graph, rank: map<string, nat>, root: string, run: seq<Action>, n: string)
    requires Ranked(Recorded(g), rank) && root in rank && AtWork(After(g, root, run), n)
    ensures Missed(g, root, run, n)
  {
    hide Step, Inv, AtWork, Missed, Misses;
    if run == [] {
      NobodyAtWork(g, root, n);
    } else {
      RunKeepsInv(g, rank, root, Front(run));
      var s := After(g, root, Front(run));
      InvStart(g, rank, root, s);
      NewWorkIsMiss(g, s, Last(run), n);
      if AtWork(s, n) {
        WorkFollowsMiss(g, rank, root, Front(run), n);
      }
      MissedSoFar(g, root, run, n);
    }
  }

  lemma NobodyAtWork(g: Graph, root: string, n: string)
    ensures !AtWork(Initial(g, root), n)
  {
    var s := Initial(g, root);
    assert forall j :: 0 < j < |s.threads| ==> s.threads[j] == Spawned(Recorded(g)(root), 0)[j - 1];
  }

  lemma InvStart(g: Graph, rank: map<string, nat>, root: string, s: State)
    requires Inv(g, rank, root, s)
    ensures PcsOk(s) && s.threads[0].name == root
  {
  }

  /**
    A dependency that already satisfies its condition is left untouched: whatever happened
    before, a step that starts an instance other than the root comes after a first look at it
    that failed or found the condition unmet. So a migration seen completed is never run again.
  */
  lemma {:induction false} StartedOnlyAfterMiss(g: Graph, rank: map<string, nat>, root: string, run: seq<Action>,
                                                a: Action, n: string)
    requires Ranked(Recorded(g), rank) && root in rank && n != root
    requires Enabled(After(g, root, run), a) && Started(n) in Emits(After(g, root, run), a)
    ensures Missed(g, root, run, n)
  {
    hide Inv, After, Emits, NextPc, Missed;
    RunKeepsInv(g, rank, root, run);
    var s := After(g, root, run);
    InvStart(g, rank, root, s);
    Logs(s, a);
    assert s.threads[a.i].pc.Ensuring? && s.threads[a.i].name == n;
    WorkFollowsMiss(g, rank, root, run, n);
  }

  // ---------- No deadlock ----------

  /** Waiting for another goroutine: an owner's `done`, or the goroutines one has spawned. */
  predicate Waiting(s: State, i: nat)
    requires i < |s.threads|
  {
    var t := s.threads[i];
    || (t.pc.AwaitingNode? && !(t.name in s.memo && s.memo[t.name].done.Some?))
    || (t.pc.Joining? && !ChildrenFinished(s, i))
  }

  /** From a waiting goroutine, follow whom it waits for: ranks descend, so this ends. */
  lemma {:induction false} SomeoneBelowMoves(g: Graph, rank: map<string, nat>, root: string, s: State, i: nat)
    returns (j: nat)
    requires Inv(g, rank, root, s) && i < |s.threads| && !s.threads[i].pc.Finished?
    ensures j < |s.threads| && !s.threads[j].pc.Finished? && !Waiting(s, j)
    decreases rank[s.threads[i].name], if s.threads[i].pc.AwaitingNode? then 1 else 0
  {
    var t := s.threads[i];
    if !Waiting(s, i) {
      j := i;
    } else if t.pc.AwaitingNode? {
      j := SomeoneBelowMoves(g, rank, root, s, s.memo[t.name].owner);
    } else {
      var c :| 0 < c < |s.threads| && s.threads[c].parent == i && !s.threads[c].pc.Finished?;
      j := SomeoneBelowMoves(g, rank, root, s, c);
    }
  }

  /**
    Deadlock freedom: in every reachable state of every interleaving in which the call has
    not returned, some goroutine is not waiting for another one, and unless it waits for an
    InstanceStart that a different call has issued, a step of it is enabled.
  */
  lemma {:induction false} NeverDeadlocked(g: Graph, rank: map<string, nat>, root: string, run: seq<Action>)
    requires Ranked(Recorded(g), rank) && root in rank
    requires !After(g, root, run).threads[0].pc.Finished?
    ensures var s := After(g, root, run);
      exists j: nat, a: Action ::
        j < |s.threads| && !s.threads[j].pc.Finished? && !Waiting(s, j) && a.i == j && Enabled(s, a)
  {
    RunKeepsInv(g, rank, root, run);
    var s := After(g, root, run);
    var j := SomeoneBelowMoves(g, rank, root, s, 0);
    var a := match s.threads[j].pc
      case Inspecting => Inspect(j, None)
      case Loading => Load(j)
      case AwaitingNode => NodeDone(j)
      case Joining => Joined(j)
      case Ensuring => Ensure(j, Mine)
      case AwaitingFlight => FlightDone(j, true)
      case Issued => StartReturned(j, true)
      case Publishing(_) => Publish(j)
      case Polling => Poll(j, None)
      case Finished(_) => Cancel(j);
    assert a.i == j && Enabled(s, a);
  }

  /**
    The environment is free: a goroutine that asks the provider may get any answer, one that
    waits may be cancelled, and nobody who has finished acts again.
  */
  lemma EveryAnswerIsPossible(s: State, i: nat, reply: Option<Status>, how: How, ok: bool)
    requires i < |s.threads|
    ensures var pc := s.threads[i].pc;
      && (Enabled(s, Inspect(i, reply)) <==> pc.Inspecting?)
      && (Enabled(s, Ensure(i, how)) <==> pc.Ensuring?)
      && (Enabled(s, StartReturned(i, ok)) <==> pc.Issued?)
      && (Enabled(s, FlightDone(i, ok)) <==> pc.AwaitingFlight?)
      && (Enabled(s, Poll(i, reply)) <==> pc.Polling?)
      && (Enabled(s, Cancel(i)) <==> pc.AwaitingNode? || pc.AwaitingFlight? || pc.Polling?)
      && (pc.Finished? ==> forall a: Action :: a.i == i ==> !Enabled(s, a))
  {
  }

  // ---------- No livelock ----------

  /** How far a goroutine has come. */
  function Stage(pc: Pc): nat {
    match pc
    case Inspecting => 0
    case Loading => 1
    case AwaitingNode => 2
    case Joining => 2
    case Ensuring => 3
    case AwaitingFlight => 4
    case Issued => 4
    case Publishing(_) => 5
    case Polling => 6
    case Finished(_) => 7
  }

  function Progress(threads: seq<Thread>): (p: nat)
    ensures p <= 7 * |threads|
  {
    if threads == [] then 0 else Progress(Front(threads)) + Stage(Last(threads).pc)
  }

  lemma {:induction false} ProgressOfUpdate(threads: seq<Thread>, i: nat, t: Thread)
    requires i < |threads|
    ensures Progress(threads[i := t]) == Progress(threads) - Stage(threads[i].pc) + Stage(t.pc)
  {
    var u := threads[i := t];
    if i == |threads| - 1 {
      assert Front(u) == Front(threads);
    } else {
      ProgressOfUpdate(Front(threads), i, t);
      assert Front(u) == Front(threads)[i := t];
    }
  }

  lemma {:induction false} ProgressGrows(threads: seq<Thread>, more: seq<Thread>)
    ensures Progress(threads) <= Progress(threads + more)
  {
    if more == [] {
      assert threads + more == threads;
    } else {
      ProgressGrows(threads, Front(more));
      assert Front(threads + more) == threads + Front(more);
    }
  }

  /** A poll whose answer neither meets the condition nor is an error. */
  predicate UnmetPoll(s: State, a: Action)
    requires Enabled(s, a)
  {
    a.Poll? && a.reply.Some? && a.reply.value != Error && !Satisfied(a.reply.value, s.threads[a.i].condition)
  }

  /** Every enabled step takes some goroutine further, except an unmet poll, which changes nothing. */
  lemma StepsProgress(g: Graph, s: State, a: Action)
    requires PcsOk(s)
    ensures Enabled(s, a) && !UnmetPoll(s, a) ==> Progress(s.threads) < Progress(Step(g, s, a).threads)
    ensures !Enabled(s, a) || UnmetPoll(s, a) ==> Step(g, s, a) == s
  {
    if Enabled(s, a) {
      var t := s.threads[a.i];
      if Claims(s, a) {
        var owner := t.(pc := Joining, first := |s.threads|);
        ProgressOfUpdate(s.threads, a.i, owner);
        ProgressGrows(s.threads[a.i := owner], Spawned(Recorded(g)(t.name), a.i));
      } else {
        StageRises(s, a);
        ProgressOfUpdate(s.threads, a.i, t.(pc := NextPc(s, a)));
        if NextPc(s, a) == t.pc {
          assert s.threads[a.i := t.(pc := t.pc)] == s.threads;
        }
      }
    }
  }

  lemma StageRises(s: State, a: Action)
    requires Enabled(s, a) && PcsOk(s)
    ensures if UnmetPoll(s, a)
            then NextPc(s, a) == s.threads[a.i].pc && Emits(s, a) == [] && NextMemo(s, a) == s.memo
            else Stage(s.threads[a.i].pc) < Stage(NextPc(s, a))
  {
  }

  /** No instance has more than `d` direct dependencies. */
  ghost predicate AtMost(g: Graph, d: nat) {
    forall n :: |Recorded(g)(n)| <= d
  }

  /** Only the root and the owners of nodes have spawned goroutines. */
  ghost predicate FewThreads(rank: map<string, nat>, d: nat, s: State) {
    |s.threads| <= 1 + d * (1 + |s.memo|) && s.memo.Keys <= rank.Keys
  }

  lemma StepKeepsFew(g: Graph, rank: map<string, nat>, root: string, d: nat, s: State, a: Action)
    requires AtMost(g, d) && Tree(rank, root, s) && FewThreads(rank, d, s)
    ensures FewThreads(rank, d, Step(g, s, a))
  {
    hide Step, NextPc, Emits, NextMemo;
    if Enabled(s, a) {
      Threads(g, s, a);
      MemoGrows(g, s, a);
      var m := |s.memo|;
      assert d * (1 + (m + 1)) == d * (1 + m) + d;
      assert Claims(s, a) ==> |Recorded(g)(s.threads[a.i].name)| <= d;
    } else {
      Idles(g, s, a);
    }
  }

  lemma MemoGrows(g: Graph, s: State, a: Action)
    requires Enabled(s, a)
    ensures var memo := Step(g, s, a).memo;
      memo.Keys <= s.memo.Keys + {s.threads[a.i].name} && |memo| == |s.memo| + if Claims(s, a) then 1 else 0
  {
    var memo := Step(g, s, a).memo;
    assert memo.Keys == if Claims(s, a) then s.memo.Keys + {s.threads[a.i].name} else s.memo.Keys;
  }

  lemma Idles(g: Graph, s: State, a: Action)
    requires !Enabled(s, a)
    ensures Step(g, s, a) == s
  {
  }

  /** How many steps of a run changed anything. */
  function Changes(g: Graph, root: string, run: seq<Action>): nat {
    if run == [] then 0
    else
      var s := After(g, root, Front(run));
      Changes(g, root, Front(run)) + if Step(g, s, Last(run)) == s then 0 else 1
  }

  lemma {:induction false} ChangesAreProgress(
    g: Graph, rank: map<string, nat>, root: string, d: nat, run: seq<Action>)
    requires Ranked(Recorded(g), rank) && root in rank && AtMost(g, d)
    ensures var s := After(g, root, run);
      Changes(g, root, run) <= Progress(s.threads) && FewThreads(rank, d, s)
  {
    hide Step, Inv, PcsOk, Tree, FewThreads, AtMost;
    RunKeepsInv(g, rank, root, run);
    if run == [] {
      FewAtFirst(g, rank, root, d);
    } else {
      ChangesAreProgress(g, rank, root, d, Front(run));
      RunKeepsInv(g, rank, root, Front(run));
      var s := After(g, root, Front(run));
      InvParts(g, rank, root, s);
      StepsProgress(g, s, Last(run));
      StepKeepsFew(g, rank, root, d, s, Last(run));
    }
  }

  lemma InvParts(g: Graph, rank: map<string, nat>, root: string, s: State)
    requires Inv(g, rank, root, s)
    ensures Tree(rank, root, s) && PcsOk(s)
  {
  }

  lemma FewAtFirst(g: Graph, rank: map<string, nat>, root: string, d: nat)
    requires AtMost(g, d)
    ensures FewThreads(rank, d, Initial(g, root))
  {
  }

  /**
    No livelock: in every interleaving all but boundedly many steps are polls that found a
    condition not met yet. With `NeverDeadlocked`, a start only fails to return if a provider
    call or a dependency's condition keeps it waiting.
  */
  lemma {:induction false} BoundedlyManyChanges(
    g: Graph, rank: map<string, nat>, root: string, d: nat, run: seq<Action>)
    requires Ranked(Recorded(g), rank) && root in rank && AtMost(g, d)
    ensures Changes(g, root, run) <= 7 * (1 + d * (1 + |rank|))
  {
    hide After, Changes, Inv;
    ChangesAreProgress(g, rank, root, d, run);
    var s := After(g, root, run);
    SubsetSize(s.memo.Keys, rank.Keys);
    ProductMonotone(1 + |s.memo|, 1 + |rank|, d);
  }
}
