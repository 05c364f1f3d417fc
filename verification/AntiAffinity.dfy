/**
  Anti-affinity reconciliation of pkg/sablier/anti_affinity.go on values: which instances are
  forced idle while a group they yield to is active, which are brought back, and what the
  `suppressed` marks remember. Map iteration order is the parameter `order`; what the store
  and the provider answer is the parameter `env`.
*/
module AntiAffinity {
  import opened Common
  import opened Registry

  // ---------- State ----------

  datatype Event =
    | Stopped(instance: string, hadSession: bool)  // InstanceStop succeeded, mark set
    | StopFailed(instance: string)
    | Restored(instance: string)                   // request succeeded, mark cleared
    | RestoreFailed(instance: string)              // request failed, mark kept
    | RestoreHeld(instance: string)                // request held back without error, mark cleared
    | Forgotten(instance: string)                  // removed event, mark cleared

  /** `sessions` are the names with a live session; `antagonists` maps a group to those that yield to it. */
  datatype State = State(
    sessions: set<string>,
    groups: Groups,
    antagonists: Groups,
    suppressed: set<string>,
    log: seq<Event>)

  datatype Env = Env(
    readFails: string -> bool,
    stopFails: string -> bool,
    deleteFails: string -> bool,
    requestFails: string -> bool)

  ghost predicate NoErrors(env: Env) {
    forall i :: !env.readFails(i) && !env.stopFails(i) && !env.deleteFails(i) && !env.requestFails(i)
  }

  // ---------- One reconciliation ----------

  /** `isGroupActive`. */
  predicate Active(s: State, env: Env, group: string) {
    exists i :: 0 <= i < |Members(s.groups, group)| &&
      Members(s.groups, group)[i] in s.sessions && !env.readFails(Members(s.groups, group)[i])
  }

  /** Some group the instance yields to is active. */
  predicate Held(s: State, env: Env, instance: string) {
    exists g :: g in s.antagonists && instance in s.antagonists[g] && Active(s, env, g)
  }

  /** The instances that declare an anti-affinity. */
  function Dependents(s: State): set<string> {
    set g, d | g in s.antagonists && d in s.antagonists[g] :: d
  }

  function Suppressed(s: State, env: Env, i: string): State {
    if env.readFails(i) || i !in s.sessions then s
    else if env.stopFails(i) then s.(log := s.log + [StopFailed(i)])
    else s.(sessions := if env.deleteFails(i) then s.sessions else s.sessions - {i},
            suppressed := s.suppressed + {i},
            log := s.log + [Stopped(i, i in s.sessions)])
  }

  /** `restoreFromAntiAffinity`: an ordinary request, which may itself be held back. */
  function Brought(s: State, env: Env, i: string): State {
    if Held(s, env, i) then s.(suppressed := s.suppressed - {i}, log := s.log + [RestoreHeld(i)])
    else if env.requestFails(i) then s.(log := s.log + [RestoreFailed(i)])
    else s.(sessions := s.sessions + {i}, suppressed := s.suppressed - {i}, log := s.log + [Restored(i)])
  }

  function Visited(s: State, env: Env, i: string, suppress: bool): State {
    if suppress && i !in s.suppressed then Suppressed(s, env, i)
    else if !suppress && i in s.suppressed then Brought(s, env, i)
    else s
  }

  /** The last loop of `reconcileAntiAffinity`; `wanted` was fixed before it began. */
  function Visits(s: State, env: Env, order: seq<string>, wanted: set<string>): State {
    if order == [] then s
    else Visited(Visits(s, env, Front(order), wanted), env, Last(order), Last(order) in wanted)
  }

  /** The dependents that some active group holds down when the reconciliation begins. */
  function Wanted(s: State, env: Env): set<string> {
    set d | d in Dependents(s) && Held(s, env, d)
  }

  ghost predicate Lists(order: seq<string>, names: set<string>) {
    NoDup(order) && ToSet(order) == names
  }

  function Reconciled(s: State, env: Env, order: seq<string>): State {
    Visits(s, env, order, Wanted(s, env))
  }

  /** What was done to `i`, oldest first. */
  function EventsOf(log: seq<Event>, i: string): seq<Event> {
    if log == [] then []
    else EventsOf(Front(log), i) + if Last(log).instance == i then [Last(log)] else []
  }

  lemma {:induction false} OneMoreEvent(log: seq<Event>, e: Event, i: string)
    ensures EventsOf(log + [e], i) == EventsOf(log, i) + if e.instance == i then [e] else []
  {
    assert Front(log + [e]) == log;
  }

  /** A visit does nothing to anyone else. */
  lemma VisitTouchesOne(s: State, env: Env, i: string, suppress: bool)
    ensures var r := Visited(s, env, i, suppress);
      && r.groups == s.groups && r.antagonists == s.antagonists
      && forall j :: j != i ==>
           && (j in r.sessions <==> j in s.sessions) && (j in r.suppressed <==> j in s.suppressed)
           && EventsOf(r.log, j) == EventsOf(s.log, j)
  {
    var r := Visited(s, env, i, suppress);
    hide Held;
    if r.log != s.log {
      assert r.log == s.log + [Last(r.log)] && Last(r.log).instance == i;
      forall j ensures EventsOf(r.log, j) == EventsOf(s.log, j) + if i == j then [Last(r.log)] else [] {
        OneMoreEvent(s.log, Last(r.log), j);
      }
    }
  }

  /**
    What a visit to an instance to be held idle does to it: one already marked is left as it
    is. Another is stopped if it has a session that can be read; it is marked if the stop
    succeeds, and then loses its session unless deleting it fails.
  */
  lemma {:induction false} SuppressOutcome(s: State, env: Env, i: string)
    ensures var r, live := Visited(s, env, i, true), i in s.sessions && !env.readFails(i);
      if i in s.suppressed || !live then r == s
      else
        && EventsOf(r.log, i) ==
             EventsOf(s.log, i) + [if env.stopFails(i) then StopFailed(i) else Stopped(i, true)]
        && (i in r.suppressed <==> !env.stopFails(i))
        && (i in r.sessions <==> env.stopFails(i) || env.deleteFails(i))
  {
    var r := Visited(s, env, i, true);
    if r.log != s.log {
      OneMoreEvent(s.log, Last(r.log), i);
    }
  }

  /**
    What a visit to an instance free to run does to it: one not marked is left as it is. A
    marked one is requested; the request fails, is held back or brings the session back, and
    the mark stays only if it fails.
  */
  lemma {:induction false} RestoreOutcome(s: State, env: Env, i: string)
    ensures var r, held := Visited(s, env, i, false), Held(s, env, i);
      if i !in s.suppressed then r == s
      else
        && EventsOf(r.log, i) ==
             EventsOf(s.log, i) +
             [if held then RestoreHeld(i) else if env.requestFails(i) then RestoreFailed(i) else Restored(i)]
        && (i in r.suppressed <==> !held && env.requestFails(i))
        && (i in r.sessions <==> i in s.sessions || (!held && !env.requestFails(i)))
  {
    hide Held;
    var r := Visited(s, env, i, false);
    if r.log != s.log {
      OneMoreEvent(s.log, Last(r.log), i);
    }
  }

  lemma {:induction false} OnlySessionsAndMarksChange(s: State, env: Env, order: seq<string>, wanted: set<string>)
    ensures var r := Visits(s, env, order, wanted);
      && r.groups == s.groups && r.antagonists == s.antagonists
      && (forall j :: j !in order ==>
            && (j in r.sessions <==> j in s.sessions) && (j in r.suppressed <==> j in s.suppressed)
            && EventsOf(r.log, j) == EventsOf(s.log, j))
  {
    hide Visited;
    if order != [] {
      OnlySessionsAndMarksChange(s, env, Front(order), wanted);
      VisitTouchesOne(Visits(s, env, Front(order), wanted), env, Last(order), Last(order) in wanted);
      assert forall j :: j !in order ==> j !in Front(order) && j != Last(order);
    }
  }

  lemma ListFront(order: seq<string>)
    requires NoDup(order) && order != []
    ensures NoDup(Front(order)) && Last(order) !in Front(order)
  {
    forall i | 0 <= i < |Front(order)| ensures Front(order)[i] != Last(order) {
      assert order[i] != order[|order| - 1];
    }
  }

  /**
    Outcome for an instance to be held idle, whatever the order and whatever fails: one marked
    at entry, even if it has a session again, is left as it was. Another with a session that
    can be read is stopped, and marked exactly if the stop succeeds; its session goes unless
    the stop or the delete fails.
  */
  lemma {:induction false} HeldEndIdle(s: State, env: Env, order: seq<string>, wanted: set<string>, d: string)
    requires NoDup(order) && d in order && d in wanted
    ensures var r, live := Visits(s, env, order, wanted), d in s.sessions && !env.readFails(d);
      if d in s.suppressed || !live then
        && (d in r.suppressed <==> d in s.suppressed) && (d in r.sessions <==> d in s.sessions)
        && EventsOf(r.log, d) == EventsOf(s.log, d)
      else
        && EventsOf(r.log, d) ==
             EventsOf(s.log, d) + [if env.stopFails(d) then StopFailed(d) else Stopped(d, true)]
        && (d in r.suppressed <==> !env.stopFails(d))
        && (d in r.sessions <==> env.stopFails(d) || env.deleteFails(d))
  {
    hide Visited;
    ListFront(order);
    var t := Visits(s, env, Front(order), wanted);
    if d == Last(order) {
      OnlySessionsAndMarksChange(s, env, Front(order), wanted);
      SuppressOutcome(t, env, d);
    } else {
      HeldEndIdle(s, env, Front(order), wanted, d);
      VisitTouchesOne(t, env, Last(order), Last(order) in wanted);
    }
  }

  lemma EveryHeldDependentEndsIdle(s: State, env: Env, order: seq<string>, d: string)
    requires NoErrors(env) && Lists(order, Dependents(s)) && d in Dependents(s) && Held(s, env, d)
    ensures d in s.suppressed || d !in Reconciled(s, env, order).sessions
  {
    assert d in ToSet(order);
    HeldEndIdle(s, env, order, Wanted(s, env), d);
  }

  // ---------- Fixpoint ----------

  /** No instance that yields to some group is itself a member of a group others yield to. */
  ghost predicate Separate(s: State) {
    forall g, d :: g in s.antagonists && d in Dependents(s) ==> d !in Members(s.groups, g)
  }

  /** Then stopping and restoring dependents never changes which groups are active. */
  lemma SeparateKeepsHeld(s: State, r: State, env: Env, d: string)
    requires Separate(s) && r.groups == s.groups && r.antagonists == s.antagonists
    requires forall j :: j !in Dependents(s) ==> (j in r.sessions <==> j in s.sessions)
    ensures Held(r, env, d) <==> Held(s, env, d)
  {
    forall g | g in s.antagonists ensures Active(r, env, g) <==> Active(s, env, g) {
      var m := Members(s.groups, g);
      assert forall i :: 0 <= i < |m| ==> m[i] !in Dependents(s);
    }
  }

  /** A marked dependent that nothing holds down gets its session back and loses its mark. */
  lemma {:induction false} FreeEndRestored(s: State, env: Env, order: seq<string>, wanted: set<string>, d: string)
    requires NoErrors(env) && Separate(s) && NoDup(order) && ToSet(order) <= Dependents(s)
    requires d in order && d !in wanted && !Held(s, env, d)
    ensures var r := Visits(s, env, order, wanted);
      d !in r.suppressed && (d in r.sessions <==> d in s.sessions || d in s.suppressed)
  {
    ListFront(order);
    assert ToSet(Front(order)) <= ToSet(order);
    if d == Last(order) {
      var t := Visits(s, env, Front(order), wanted);
      OnlySessionsAndMarksChange(s, env, Front(order), wanted);
      forall j | j !in Dependents(s) ensures j in t.sessions <==> j in s.sessions {
        assert j !in ToSet(order);
      }
      SeparateKeepsHeld(s, t, env, d);
    } else {
      FreeEndRestored(s, env, Front(order), wanted, d);
    }
  }

  /** Nothing to do for anyone listed means nothing is done. */
  lemma {:induction false} SettledStays(s: State, env: Env, order: seq<string>, wanted: set<string>)
    requires forall d :: d in order ==>
      if d in wanted then d in s.suppressed || d !in s.sessions else d !in s.suppressed
    ensures Visits(s, env, order, wanted) == s
  {
    if order != [] {
      assert forall d :: d in Front(order) ==> d in order;
      SettledStays(s, env, Front(order), wanted);
    }
  }

  /**
    Fixpoint: if no declaring instance belongs to an antagonist group, a second
    reconciliation straight after the first changes nothing and calls nobody, whatever order
    either takes.
  */
  lemma SecondReconcileIsIdle(s: State, env: Env, order: seq<string>, again: seq<string>)
    requires NoErrors(env) && Separate(s) && Lists(order, Dependents(s)) && Lists(again, Dependents(s))
    ensures var r := Reconciled(s, env, order); Reconciled(r, env, again) == r
  {
    var wanted := Wanted(s, env);
    var r := Reconciled(s, env, order);
    OnlySessionsAndMarksChange(s, env, order, wanted);
    forall j | j !in Dependents(s) ensures j in r.sessions <==> j in s.sessions {
      assert j !in ToSet(order);
    }
    forall d | d in again
      ensures if d in Wanted(r, env) then d in r.suppressed || d !in r.sessions else d !in r.suppressed
    {
      assert d in ToSet(again) && d in ToSet(order);
      SeparateKeepsHeld(s, r, env, d);
      if Held(s, env, d) {
        HeldEndIdle(s, env, order, wanted, d);
      } else {
        FreeEndRestored(s, env, order, wanted, d);
      }
    }
    SettledStays(r, env, again, Wanted(r, env));
  }

  // ---------- What a restore does and does not promise ----------

  /**
    Outcome for an instance not wanted idle, whatever fails: one not marked is left as it was.
    A marked one is requested at its turn. If something holds it down by then, the request
    returns no error and the mark goes all the same, so it is not tried again; a request that
    fails leaves the mark; otherwise the session comes back.
  */
  lemma {:induction false} RestoredUnlessHeldAtItsTurn(s: State, env: Env, order: seq<string>, wanted: set<string>,
                                                       turn: nat, d: string)
    requires NoDup(order) && turn < |order| && order[turn] == d && d !in wanted
    ensures var r, held := Visits(s, env, order, wanted), Held(Visits(s, env, order[..turn], wanted), env, d);
      if d !in s.suppressed then
        && d !in r.suppressed && (d in r.sessions <==> d in s.sessions)
        && EventsOf(r.log, d) == EventsOf(s.log, d)
      else
        && EventsOf(r.log, d) ==
             EventsOf(s.log, d) +
             [if held then RestoreHeld(d) else if env.requestFails(d) then RestoreFailed(d) else Restored(d)]
        && (d in r.suppressed <==> !held && env.requestFails(d))
        && (d in r.sessions <==> d in s.sessions || (!held && !env.requestFails(d)))
  {
    hide Visited, Held;
    ListFront(order);
    var t := Visits(s, env, Front(order), wanted);
    if turn == |order| - 1 {
      assert order[..turn] == Front(order);
      OnlySessionsAndMarksChange(s, env, Front(order), wanted);
      RestoreOutcome(t, env, d);
    } else {
      assert Front(order)[..turn] == order[..turn];
      RestoredUnlessHeldAtItsTurn(s, env, Front(order), wanted, turn, d);
      VisitTouchesOne(t, env, Last(order), Last(order) in wanted);
    }
  }

  /** Sessions that appear during a reconciliation are those of marked instances it did not want idle. */
  lemma {:induction false} SessionsComeFromRestores(s: State, env: Env, order: seq<string>, wanted: set<string>)
    requires NoDup(order)
    ensures forall j :: j in Visits(s, env, order, wanted).sessions ==>
              j in s.sessions || (j in order && j in s.suppressed && j !in wanted)
  {
    hide Held;
    if order != [] {
      ListFront(order);
      SessionsComeFromRestores(s, env, Front(order), wanted);
      OnlySessionsAndMarksChange(s, env, Front(order), wanted);
    }
  }

  /** Bringing `m` back, which nothing prevents at entry, wakes a group that `d` yields to. */
  ghost predicate Rouses(s: State, env: Env, m: string, d: string) {
    && m != d && m in Dependents(s) && m in s.suppressed && !Held(s, env, m)
    && exists g :: g in s.antagonists && d in s.antagonists[g] && m in Members(s.groups, g)
  }

  /** At its turn, a dependent free at entry is held exactly if somebody listed before rouses against it. */
  lemma {:induction false} HeldOnlyIfRoused(s: State, env: Env, before: seq<string>, d: string)
    requires NoErrors(env) && NoDup(before) && ToSet(before) <= Dependents(s) && d !in before && !Held(s, env, d)
    requires Held(Visits(s, env, before, Wanted(s, env)), env, d)
    ensures exists m :: m in before && Rouses(s, env, m, d)
  {
    var t := Visits(s, env, before, Wanted(s, env));
    SessionsComeFromRestores(s, env, before, Wanted(s, env));
    OnlySessionsAndMarksChange(s, env, before, Wanted(s, env));
    hide Visits;
    var g :| g in t.antagonists && d in t.antagonists[g] && Active(t, env, g);
    var m := Members(t.groups, g);
    var i :| 0 <= i < |m| && m[i] in t.sessions;
    assert m[i] in s.sessions ==> Active(s, env, g);
    assert m[i] in ToSet(before);
    assert Rouses(s, env, m[i], d);
  }

  lemma {:induction false} RousedByFirst(s: State, env: Env, m: string, d: string)
    requires NoErrors(env) && Rouses(s, env, m, d)
    ensures Held(Visits(s, env, [m], Wanted(s, env)), env, d)
  {
    var t := Visits(s, env, [m], Wanted(s, env));
    assert Front([m]) == [] && Visits(s, env, [], Wanted(s, env)) == s;
    assert t == Visited(s, env, m, false);
    var g :| g in s.antagonists && d in s.antagonists[g] && m in Members(s.groups, g);
    var i :| 0 <= i < |Members(s.groups, g)| && Members(s.groups, g)[i] == m;
    assert Active(t, env, g);
  }

  /**
    When the code restores as documented: a marked dependent that is free when the
    reconciliation begins comes back whatever the map iteration order if and only if no other
    marked dependent, free as well, belongs to a group it yields to. Some order always brings
    it back.
  */
  lemma RestoredInEveryOrder(s: State, env: Env, d: string)
    requires NoErrors(env) && d in Dependents(s) && d in s.suppressed && d !in s.sessions && !Held(s, env, d)
    ensures (forall order :: Lists(order, Dependents(s)) ==> d in Reconciled(s, env, order).sessions)
            <==> !exists m :: Rouses(s, env, m, d)
    ensures exists order :: Lists(order, Dependents(s)) && d in Reconciled(s, env, order).sessions
  {
    var wanted := Wanted(s, env);
    assert Visits(s, env, [], wanted) == s;
    hide Visits, EventsOf;
    if m :| Rouses(s, env, m, d) {
      var order := Listing(Dependents(s) - {m, d}, [m, d]);
      RousedByFirst(s, env, m, d);
      assert order[1] == d && order[..1] == [m];
      RestoredUnlessHeldAtItsTurn(s, env, order, wanted, 1, d);
      assert Lists(order, Dependents(s));
    } else {
      forall order | Lists(order, Dependents(s)) ensures d in Reconciled(s, env, order).sessions {
        NotRousedIsRestored(s, env, order, d);
      }
    }
    var order := Listing(Dependents(s) - {d}, [d]);
    assert order[0] == d && order[..0] == [];
    RestoredUnlessHeldAtItsTurn(s, env, order, wanted, 0, d);
    assert Lists(order, Dependents(s));
  }

  lemma NotRousedIsRestored(s: State, env: Env, order: seq<string>, d: string)
    requires NoErrors(env) && d in Dependents(s) && d in s.suppressed && d !in s.sessions && !Held(s, env, d)
    requires Lists(order, Dependents(s)) && !exists m :: Rouses(s, env, m, d)
    ensures d in Reconciled(s, env, order).sessions
  {
    assert d in ToSet(order);
    var turn :| 0 <= turn < |order| && order[turn] == d;
    var before := order[..turn];
    assert forall j :: j in before ==> j in ToSet(order);
    if Held(Visits(s, env, before, Wanted(s, env)), env, d) {
      HeldOnlyIfRoused(s, env, before, d);
    }
    RestoredUnlessHeldAtItsTurn(s, env, order, Wanted(s, env), turn, d);
  }

  /** Some listing of the names that begins with the given ones. */
  lemma {:induction false} Listing(names: set<string>, first: seq<string>) returns (order: seq<string>)
    requires NoDup(first) && forall n :: n in names ==> n !in first
    ensures NoDup(order) && ToSet(order) == ToSet(first) + names && |first| <= |order| && order[..|first|] == first
  {
    order := first;
    if names != {} {
      var n :| n in names;
      order := Listing(names - {n}, first + [n]);
      assert ToSet(first + [n]) == ToSet(first) + {n};
      assert order[..|first|] == order[..|first| + 1][..|first|];
    }
  }

  /** "a" yields to the group of "b", "b" to the group of "x"; both are marked, none has a session. */
  function BothMarked(log: seq<Event>): State {
    State({}, map["gb" := ["b"], "gx" := ["x"]], map["gb" := ["a"], "gx" := ["b"]], {"a", "b"}, log)
  }

  lemma DependentsAreAB(s: State)
    requires s.antagonists == map["gb" := ["a"], "gx" := ["b"]]
    ensures Dependents(s) == {"a", "b"} && Lists(["a", "b"], Dependents(s)) && Lists(["b", "a"], Dependents(s))
  {
    assert "a" in s.antagonists["gb"] && "b" in s.antagonists["gx"];
  }

  /** In a state with these labels, "b" holds "a" and "x" holds "b". */
  lemma HeldByNext(s: State, env: Env)
    requires NoErrors(env) && s.groups == BothMarked([]).groups && s.antagonists == BothMarked([]).antagonists
    ensures Held(s, env, "a") <==> "b" in s.sessions
    ensures Held(s, env, "b") <==> "x" in s.sessions
  {
    assert Active(s, env, "gb") <==> "b" in s.sessions by {
      assert Members(s.groups, "gb")[0] == "b";
    }
    assert Active(s, env, "gx") <==> "x" in s.sessions by {
      assert Members(s.groups, "gx")[0] == "x";
    }
    assert "gb" in s.antagonists && "gx" in s.antagonists;
  }

  /** What listing two instances does. */
  lemma {:induction false} VisitsTwo(s: State, env: Env, i: string, j: string, wanted: set<string>)
    ensures Visits(s, env, [i, j], wanted) == Visited(Visited(s, env, i, i in wanted), env, j, j in wanted)
  {
    assert Front([i, j]) == [i] && Front([i]) == [];
    assert Visits(s, env, [], wanted) == s;
    assert Visits(s, env, [i], wanted) == Visited(s, env, i, i in wanted);
  }

  /**
    No group is active. If "b" comes first, its new session activates the group "a" yields to,
    and "a" is never brought back; in the other order both return.
  */
  lemma RestoreMayDependOnOrder(env: Env, log: seq<Event>)
    requires NoErrors(env)
    ensures var s := BothMarked(log);
      && Lists(["b", "a"], Dependents(s)) && Lists(["a", "b"], Dependents(s)) && Wanted(s, env) == {}
      && "a" !in Reconciled(s, env, ["b", "a"]).sessions && "a" !in Reconciled(s, env, ["b", "a"]).suppressed
      && "a" in Reconciled(s, env, ["a", "b"]).sessions && "b" in Reconciled(s, env, ["a", "b"]).sessions
  {
    hide Held, Dependents, Visits;
    var s := BothMarked(log);
    DependentsAreAB(s);
    HeldByNext(s, env);
    VisitsTwo(s, env, "b", "a", {});
    VisitsTwo(s, env, "a", "b", {});
    HeldByNext(Brought(s, env, "b"), env);
    HeldByNext(Brought(s, env, "a"), env);
  }

  /** An instance that dropped its label while marked is not looked at: it stays marked and idle. */
  lemma UndeclaredIsNeverRevisited(s: State, env: Env, order: seq<string>, i: string)
    requires Lists(order, Dependents(s)) && i !in Dependents(s)
    ensures var r := Reconciled(s, env, order);
      (i in r.suppressed <==> i in s.suppressed) && (i in r.sessions <==> i in s.sessions)
  {
    assert i !in ToSet(order);
    OnlySessionsAndMarksChange(s, env, order, Wanted(s, env));
  }

  // ---------- Whole runs ----------

  /**
    Between reconciliations anything may happen to sessions and labels. `wanted` is whatever
    the reconciliation took the active groups to be.
  */
  datatype Change =
    | Outside(sessions: set<string>, groups: Groups, antagonists: Groups)
    | Reconcile(env: Env, order: seq<string>, wanted: set<string>)
    | Remove(instance: string)

  function Changed(s: State, c: Change): State {
    match c
    case Outside(sessions, groups, antagonists) =>
      s.(sessions := sessions, groups := groups, antagonists := antagonists)
    case Reconcile(env, order, wanted) => Visits(s, env, order, wanted)
    case Remove(i) => s.(suppressed := s.suppressed - {i}, log := s.log + [Forgotten(i)])
  }

  function After(run: seq<Change>): State {
    if run == [] then State({}, map[], map[], {}, []) else Changed(After(Front(run)), Last(run))
  }

  function Applied(s: State, changes: seq<Change>): State {
    if changes == [] then s else Changed(Applied(s, Front(changes)), Last(changes))
  }

  predicate EndsMark(e: Event, i: string) {
    e == Restored(i) || e == RestoreHeld(i) || e == Forgotten(i)
  }

  /** It was stopped while it held a session, and not restored, let go or forgotten since. */
  ghost predicate OwedARestore(log: seq<Event>, i: string) {
    exists u :: 0 <= u < |log| && log[u] == Stopped(i, true) && forall v :: u < v < |log| ==> !EndsMark(log[v], i)
  }

  predicate IsRestore(e: Event) {
    e.Restored? || e.RestoreFailed? || e.RestoreHeld?
  }

  /** Every request reconciliation makes for an instance is owed to it. */
  ghost predicate Justified(log: seq<Event>) {
    forall t :: 0 <= t < |log| && IsRestore(log[t]) ==> OwedARestore(log[..t], log[t].instance)
  }

  /** The marks remember exactly who is owed a restore. */
  ghost predicate Honest(s: State) {
    Justified(s.log) && forall i :: i in s.suppressed <==> OwedARestore(s.log, i)
  }

  lemma OwedAfter(log: seq<Event>, e: Event, i: string)
    ensures OwedARestore(log + [e], i) <==> e == Stopped(i, true) || (OwedARestore(log, i) && !EndsMark(e, i))
  {
    var more := log + [e];
    if OwedARestore(more, i) && e != Stopped(i, true) {
      var u :| 0 <= u < |more| && more[u] == Stopped(i, true) && forall v :: u < v < |more| ==> !EndsMark(more[v], i);
      assert log[u] == Stopped(i, true) && !EndsMark(more[|log|], i);
      forall v | u < v < |log| ensures !EndsMark(log[v], i) { assert more[v] == log[v]; }
    }
    if e == Stopped(i, true) {
      assert more[|log|] == e;
    }
    if OwedARestore(log, i) && !EndsMark(e, i) {
      var u :| 0 <= u < |log| && log[u] == Stopped(i, true) && forall v :: u < v < |log| ==> !EndsMark(log[v], i);
      assert more[u] == Stopped(i, true);
      assert forall v :: u < v < |more| ==> !EndsMark(more[v], i);
    }
  }

  lemma LoggedStaysHonest(s: State, r: State, e: Event)
    requires Honest(s) && r.log == s.log + [e]
    requires IsRestore(e) ==> e.instance in s.suppressed
    requires forall i :: i in r.suppressed <==> e == Stopped(i, true) || (i in s.suppressed && !EndsMark(e, i))
    ensures Honest(r)
  {
    forall i ensures i in r.suppressed <==> OwedARestore(r.log, i) {
      OwedAfter(s.log, e, i);
    }
    forall t | 0 <= t < |r.log| && IsRestore(r.log[t]) ensures OwedARestore(r.log[..t], r.log[t].instance) {
      if t < |s.log| {
        assert r.log[..t] == s.log[..t];
      } else {
        assert r.log[..t] == s.log;
      }
    }
  }

  lemma VisitStaysHonest(s: State, env: Env, i: string, suppress: bool)
    requires Honest(s)
    ensures Honest(Visited(s, env, i, suppress))
  {
    hide Honest, Held;
    var r := Visited(s, env, i, suppress);
    if r != s {
      LoggedStaysHonest(s, r, Last(r.log));
    }
  }

  lemma {:induction false} VisitsStayHonest(s: State, env: Env, order: seq<string>, wanted: set<string>)
    requires Honest(s)
    ensures Honest(Visits(s, env, order, wanted))
  {
    hide Honest, Visited;
    if order != [] {
      VisitsStayHonest(s, env, Front(order), wanted);
      VisitStaysHonest(Visits(s, env, Front(order), wanted), env, Last(order), Last(order) in wanted);
    }
  }

  /**
    Over every run, with every error and every external change: reconciliation asks for an
    instance only if it earlier stopped that instance while it held a session and has neither
    restored nor forgotten it since. An instance already idle when its antagonist woke is
    never started.
  */
  lemma {:induction false} RestoresAreOwed(run: seq<Change>)
    ensures Honest(After(run))
  {
    if run != [] {
      RestoresAreOwed(Front(run));
      var s := After(Front(run));
      match Last(run)
      case Outside(_, _, _) =>
      case Reconcile(env, order, wanted) => VisitsStayHonest(s, env, order, wanted);
      case Remove(i) => LoggedStaysHonest(s, Changed(s, Last(run)), Forgotten(i));
    }
  }

  /** A reconciliation as the code makes it: some listing of the dependents, and those then held. */
  ghost predicate Genuine(s: State, c: Change) {
    c.Reconcile? ==> Lists(c.order, Dependents(s)) && c.wanted == Wanted(s, c.env)
  }

  /** With the labels of `BothMarked`. */
  function Labelled(sessions: set<string>, suppressed: set<string>, log: seq<Event>): State {
    BothMarked(log).(sessions := sessions, suppressed := suppressed)
  }

  /** "a" is stopped while "b" has a session, "b" while "x" has one, then the session of "x" ends. */
  function Approach(env: Env): seq<Change> {
    var groups, antagonists := BothMarked([]).groups, BothMarked([]).antagonists;
    [Outside({"a", "b"}, groups, antagonists),
     Reconcile(env, ["a", "b"], {"a"}),
     Outside({"b", "x"}, groups, antagonists),
     Reconcile(env, ["a", "b"], {"a", "b"}),
     Outside({}, groups, antagonists)]
  }

  lemma ApproachStops(env: Env, log: seq<Event>)
    requires NoErrors(env)
    ensures var s := Labelled({"a", "b"}, {}, log);
      && Genuine(s, Approach(env)[1])
      && Changed(s, Approach(env)[1]) == Labelled({"b"}, {"a"}, log + [Stopped("a", true)])
    ensures var s := Labelled({"b", "x"}, {"a"}, log);
      && Genuine(s, Approach(env)[3])
      && Changed(s, Approach(env)[3]) == Labelled({"x"}, {"a", "b"}, log + [Stopped("b", true)])
  {
    hide Held, Dependents, Visits;
    var s1, s3 := Labelled({"a", "b"}, {}, log), Labelled({"b", "x"}, {"a"}, log);
    DependentsAreAB(s1);
    HeldByNext(s1, env);
    VisitsTwo(s1, env, "a", "b", {"a"});
    DependentsAreAB(s3);
    HeldByNext(s3, env);
    VisitsTwo(s3, env, "a", "b", {"a", "b"});
  }

  /** The state in which the order matters is reached by reconciliations as the code makes them. */
  lemma BothMarkedIsReached(env: Env)
    requires NoErrors(env)
    ensures var run := Approach(env);
      && (forall t :: 0 <= t < |run| ==> Genuine(After(run[..t]), run[t]))
      && After(run) == BothMarked([Stopped("a", true), Stopped("b", true)])
  {
    hide Visits, Genuine, After;
    var run := Approach(env);
    var stoppedA, stoppedB := Stopped("a", true), Stopped("b", true);
    NothingYet(run);
    AfterOneMore(run, 0);
    assert After(run[..1]) == Labelled({"a", "b"}, {}, []);
    ApproachStops(env, []);
    AfterOneMore(run, 1);
    AfterOneMore(run, 2);
    assert [] + [stoppedA] == [stoppedA] && [stoppedA] + [stoppedB] == [stoppedA, stoppedB];
    assert After(run[..3]) == Labelled({"b", "x"}, {"a"}, [stoppedA]);
    ApproachStops(env, [stoppedA]);
    AfterOneMore(run, 3);
    AfterOneMore(run, 4);
    assert run[..5] == run;
    OutsideIsGenuine(After(run[..0]), run[0]);
    OutsideIsGenuine(After(run[..2]), run[2]);
    OutsideIsGenuine(After(run[..4]), run[4]);
  }

  lemma NothingYet(run: seq<Change>)
    ensures After(run[..0]) == State({}, map[], map[], {}, [])
  {
  }

  lemma OutsideIsGenuine(s: State, c: Change)
    requires c.Outside?
    ensures Genuine(s, c)
  {
  }

  lemma AfterOneMore(run: seq<Change>, t: nat)
    requires t < |run|
    ensures After(run[..t + 1]) == Changed(After(run[..t]), run[t])
  {
    assert Front(run[..t + 1]) == run[..t];
  }
}
