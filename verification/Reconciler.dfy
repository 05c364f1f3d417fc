/**
  The reconciliation of pkg/sablier/anti_affinity.go as it runs: loops that fill `active` and
  `desiredSuppress`, then suppress and restore one instance after the other, updating sessions
  and marks in place. Proved to compute `AntiAffinity.Reconciled` for some iteration order.
*/
module Reconciler {
  import opened Common
  import opened Registry
  import opened AntiAffinity

  class Reconciler {
    var sessions: set<string>
    var groups: Groups
    var antiAffinity: GroupRegistry
    var suppressed: set<string>
    var log: seq<Event>

    constructor ()
      ensures suppressed == {} && sessions == {} && log == [] && fresh(antiAffinity)
    {
      sessions, groups, suppressed, log := {}, map[], {}, [];
      antiAffinity := new GroupRegistry();
    }

    function Contents(): State
      reads this, antiAffinity
    {
      State(sessions, groups, antiAffinity.data, suppressed, log)
    }

    method IsGroupActive(env: Env, group: string) returns (active: bool)
      ensures active == Active(Contents(), env, group)
      ensures active <==> exists m :: m in Members(groups, group) && m in sessions && !env.readFails(m)
    {
      if group !in groups {
        return false;
      }
      var members := groups[group];
      var i := 0;
      while i < |members|
        invariant 0 <= i <= |members|
        invariant forall j :: 0 <= j < i ==> !(members[j] in sessions && !env.readFails(members[j]))
      {
        if members[i] in sessions && !env.readFails(members[i]) {
          assert Members(Contents().groups, group)[i] == members[i];
          return true;
        }
        i := i + 1;
      }
      return false;
    }

    /** The first active group found that forces `name` to stay idle, if any. */
    method AntiAffinityHold(env: Env, name: string) returns (group: Option<string>)
      ensures group.Some? <==> Held(Contents(), env, name)
      ensures group.Some? ==> Belongs(antiAffinity.data, name, group.value) && Active(Contents(), env, group.value)
      ensures group.Some? <==> exists g, m ::
                Belongs(antiAffinity.data, name, g) && m in Members(groups, g) && m in sessions && !env.readFails(m)
    {
      var names := antiAffinity.GroupsOf(name);
      assert forall g :: g in names <==> g in ToSet(names);
      var i := 0;
      while i < |names|
        invariant 0 <= i <= |names|
        invariant forall j :: 0 <= j < i ==> !Active(Contents(), env, names[j])
      {
        var active := IsGroupActive(env, names[i]);
        if active {
          assert names[i] in ToSet(names);
          HeldByMember(Contents(), env, name);
          return Some(names[i]);
        }
        i := i + 1;
      }
      assert forall g :: g in GroupSet(antiAffinity.data, name) ==> g in ToSet(names) && !Active(Contents(), env, g);
      HeldByMember(Contents(), env, name);
      return None;
    }

    method SuppressForAntiAffinity(env: Env, instance: string)
      modifies this
      ensures Contents() == Suppressed(old(Contents()), env, instance) && antiAffinity == old(antiAffinity)
    {
      if env.readFails(instance) || instance !in sessions {
        return;
      }
      if env.stopFails(instance) {
        log := log + [StopFailed(instance)];
        return;
      }
      log := log + [Stopped(instance, instance in sessions)];
      if !env.deleteFails(instance) {
        sessions := sessions - {instance};
      }
      suppressed := suppressed + {instance};
    }

    /** `instanceRequest`, as far as reconciliation can tell: held back, failed, or a fresh session. */
    method RestoreFromAntiAffinity(env: Env, instance: string)
      modifies this
      ensures Contents() == Brought(old(Contents()), env, instance) && antiAffinity == old(antiAffinity)
    {
      var group := AntiAffinityHold(env, instance);
      if group.Some? {
        log := log + [RestoreHeld(instance)];
      } else if env.requestFails(instance) {
        log := log + [RestoreFailed(instance)];
        return;
      } else {
        log := log + [Restored(instance)];
        sessions := sessions + {instance};
      }
      suppressed := suppressed - {instance};
    }

    /** Whether each group in the registry is active, evaluated once per group. */
    method ActiveGroups(env: Env) returns (active: map<string, bool>)
      ensures active == map g | g in antiAffinity.data :: Active(Contents(), env, g)
    {
      active := map[];
      var todo := antiAffinity.data.Keys;
      while todo != {}
        invariant todo <= antiAffinity.data.Keys && active.Keys == antiAffinity.data.Keys - todo
        invariant forall g :: g in active ==> active[g] == Active(Contents(), env, g)
        decreases |todo|
      {
        var group :| group in todo;
        todo := todo - {group};
        var isActive := IsGroupActive(env, group);
        active := active[group := isActive];
      }
    }

    /** An instance must be suppressed if any of its antagonist groups is active. */
    method DesiredSuppress(active: map<string, bool>, ghost env: Env) returns (desired: map<string, bool>)
      requires active == map g | g in antiAffinity.data :: Active(Contents(), env, g)
      ensures desired.Keys == Dependents(Contents())
      ensures forall d :: d in desired ==> (desired[d] <==> Held(Contents(), env, d))
    {
      hide Active, DesiredOf;
      desired := map[];
      var registry := antiAffinity.data;
      var todo := registry.Keys;
      DesiredEnds(registry, active, todo, {}, desired);
      while todo != {}
        invariant todo <= registry.Keys && DesiredOf(registry, active, todo, desired)
        decreases |todo|
      {
        var group :| group in todo;
        ghost var before := desired;
        desired := AddDependents(desired, registry[group], active[group]);
        DesiredGrows(registry, active, todo, group, before, desired);
        todo := todo - {group};
      }
      DesiredEnds(registry, active, registry.Keys, todo, desired);
    }

    method AddDependents(before: map<string, bool>, dependents: seq<string>, active: bool)
      returns (desired: map<string, bool>)
      ensures forall d :: d in desired <==> d in before || d in dependents
      ensures forall d :: d in desired ==>
                (desired[d] <==> (d in before && before[d]) || (d in dependents && active))
    {
      desired := before;
      var i := 0;
      while i < |dependents|
        invariant 0 <= i <= |dependents|
        invariant forall d :: d in desired <==> d in before || d in dependents[..i]
        invariant forall d :: d in desired ==>
                    (desired[d] <==> (d in before && before[d]) || (d in dependents[..i] && active))
      {
        var d := dependents[i];
        assert dependents[..i + 1] == dependents[..i] + [d];
        if active {
          desired := desired[d := true];
        } else if d !in desired {
          desired := desired[d := false];
        }
        i := i + 1;
      }
      assert dependents[..i] == dependents;
    }

    method Visit(env: Env, instance: string, suppress: bool)
      modifies this
      ensures Contents() == Visited(old(Contents()), env, instance, suppress) && antiAffinity == old(antiAffinity)
    {
      var alreadySuppressed := instance in suppressed;
      if suppress && !alreadySuppressed {
        SuppressForAntiAffinity(env, instance);
      } else if !suppress && alreadySuppressed {
        RestoreFromAntiAffinity(env, instance);
      }
    }

    /** The last loop, over the map of desired states in any order. */
    method VisitAll(env: Env, desired: map<string, bool>, ghost wanted: set<string>) returns (ghost order: seq<string>)
      requires wanted == set d | d in desired && desired[d]
      modifies this
      ensures Lists(order, desired.Keys) && antiAffinity == old(antiAffinity)
      ensures Contents() == Visits(old(Contents()), env, order, wanted)
    {
      hide Visited, Contents, Visits, NoDup;
      assert Visits(Contents(), env, [], wanted) == Contents() && NoDup([]) by { VisitsNone(Contents(), env, wanted); }
      order := [];
      var todo := desired.Keys;
      while todo != {}
        invariant todo <= desired.Keys && NoDup(order) && antiAffinity == old(antiAffinity)
        invariant forall d :: d in order <==> d in desired.Keys - todo
        invariant Contents() == Visits(old(Contents()), env, order, wanted)
        decreases |todo|
      {
        var instance :| instance in todo;
        assert instance !in order && desired[instance] == (instance in wanted);
        todo := todo - {instance};
        Visit(env, instance, desired[instance]);
        VisitsOneMore(old(Contents()), env, order, wanted, instance);
        ListMore(order, instance);
        order := order + [instance];
      }
      assert ToSet(order) == desired.Keys;
    }

    method ReconcileAntiAffinity(env: Env) returns (ghost order: seq<string>)
      modifies this
      ensures Lists(order, Dependents(old(Contents()))) && antiAffinity == old(antiAffinity)
      ensures Contents() == Reconciled(old(Contents()), env, order)
      ensures Honest(old(Contents())) ==> Honest(Contents())
      ensures NoErrors(env) ==> forall d, g, m ::
                Belongs(antiAffinity.data, d, g) && m in Members(groups, g) && m in old(sessions) &&
                d !in old(suppressed) ==>
                  d !in sessions
    {
      hide Dependents, Held, Honest, Visits;
      if |antiAffinity.data| == 0 {
        NothingToReconcile(Contents(), env);
        NoDependents(Contents());
        order := [];
        return;
      }
      var active := ActiveGroups(env);
      var desired := DesiredSuppress(active, env);
      assert Wanted(Contents(), env) == set d | d in desired && desired[d];
      order := VisitAll(env, desired, Wanted(Contents(), env));
      if Honest(old(Contents())) {
        VisitsStayHonest(old(Contents()), env, order, Wanted(old(Contents()), env));
      }
      ReconciledIsChanged(old(Contents()), env, order);
      BackedOff(old(Contents()), env, order);
    }

    /**
      The index takes over the labels of an instance created or updated; one that is removed
      leaves the index and is forgotten, so it is not brought back. If that changed the index,
      the instances are reconciled. All this is a run of changes, so what holds of every run
      holds of events.
    */
    method HandleAntiAffinityEvent(env: Env, event: EventType, name: string, labels: seq<string>)
      returns (ghost changes: seq<Change>)
      modifies this, antiAffinity
      ensures antiAffinity == old(antiAffinity) && groups == old(groups)
      ensures name == "" ==> changes == []
      ensures Contents() == Applied(old(Contents()), changes)
      ensures Honest(old(Contents())) ==> Honest(Contents())
      ensures forall g :: name != "" ==>
                (Belongs(antiAffinity.data, name, g) <==> !event.Removed? && g in labels)
      ensures forall other, g :: other != name || name == "" ==>
                (Belongs(antiAffinity.data, other, g) <==> Belongs(old(antiAffinity.data), other, g))
      ensures name != "" && event.Removed? ==> name !in suppressed
      ensures name != "" ==>
        var first := if event.Removed? then [Remove(name)] else [];
        var update := [Outside(old(sessions), groups, antiAffinity.data)];
        if antiAffinity.data == old(antiAffinity.data) then changes == first + update
        else exists order ::
          var mid := Applied(old(Contents()), first + update);
          Lists(order, Dependents(mid)) && changes == first + update + [Reconcile(env, order, Wanted(mid, env))]
    {
      hide Synced, Reconciled, Dependents, Wanted, Applied, Changed, Honest, Visits;
      changes := [];
      AppliedNone(Contents());
      if name == "" {
        return;
      }
      ghost var before := Contents();
      var added: seq<string>, removed: seq<string> := [], [];
      SyncIsExact(before.antagonists, name, if event.Removed? then {} else ToSet(labels));
      if event.Removed? {
        removed := antiAffinity.Remove(name);
        suppressed := suppressed - {name};
        log := log + [Forgotten(name)];
        changes := [Remove(name)];
      } else {
        added, removed := antiAffinity.Sync(name, labels);
      }
      changes := changes + [Outside(sessions, groups, antiAffinity.data)];
      IndexUpdated(before, Contents(), if event.Removed? then Some(name) else None);
      SyncChangedNothing(before.antagonists, name, if event.Removed? then {} else ToSet(labels));
      assert |added| == 0 <==> ToSet(added) == {} by { if |added| > 0 { assert added[0] in ToSet(added); } }
      assert |removed| == 0 <==> ToSet(removed) == {} by { if |removed| > 0 { assert removed[0] in ToSet(removed); } }
      if |added| > 0 || |removed| > 0 {
        ghost var mid := Contents();
        var order := ReconcileAntiAffinity(env);
        ghost var last := Reconcile(env, order, Wanted(mid, env));
        AppliedMore(before, changes, last);
        ReconciledIsChanged(mid, env, order);
        if event.Removed? {
          RemovedStaysUnmarked(mid, env, order, name);
        }
        changes := changes + [last];
      }
    }
  }

  lemma {:induction false} AppliedNone(s: State)
    ensures Applied(s, []) == s
  {
  }

  lemma {:induction false} AppliedMore(s: State, changes: seq<Change>, c: Change)
    ensures Applied(s, changes + [c]) == Changed(Applied(s, changes), c)
  {
    assert Front(changes + [c]) == changes;
  }

  lemma NothingToReconcile(s: State, env: Env)
    ensures Reconciled(s, env, []) == s
  {
  }

  lemma ReconciledIsChanged(s: State, env: Env, order: seq<string>)
    ensures Changed(s, Reconcile(env, order, Wanted(s, env))) == Reconciled(s, env, order)
    ensures var r := Reconciled(s, env, order); r.groups == s.groups && r.antagonists == s.antagonists
  {
    OnlySessionsAndMarksChange(s, env, order, Wanted(s, env));
  }

  /** The update of index and marks by an event, as changes. */
  lemma {:induction false} IndexUpdated(s: State, r: State, removed: Option<string>)
    requires r.sessions == s.sessions && r.groups == s.groups
    requires r.suppressed == if removed.Some? then s.suppressed - {removed.value} else s.suppressed
    requires r.log == if removed.Some? then s.log + [Forgotten(removed.value)] else s.log
    ensures var update := [Outside(r.sessions, r.groups, r.antagonists)];
      r == Applied(s, (if removed.Some? then [Remove(removed.value)] else []) + update)
    ensures Honest(s) ==> Honest(r)
  {
    var update := Outside(r.sessions, r.groups, r.antagonists);
    AppliedNone(s);
    if removed.Some? {
      var first := Remove(removed.value);
      AppliedMore(s, [], first);
      AppliedMore(s, [first], update);
      assert [] + [first] == [first] && [first] + [update] == [first, update];
      if Honest(s) {
        LoggedStaysHonest(s, Changed(s, first), Forgotten(removed.value));
      }
    } else {
      AppliedMore(s, [], update);
      assert [] + [update] == [update];
    }
  }

  /** An instance that declares nothing is not visited. */
  lemma RemovedStaysUnmarked(s: State, env: Env, order: seq<string>, name: string)
    requires Lists(order, Dependents(s)) && name !in s.suppressed
    requires forall g :: !Belongs(s.antagonists, name, g)
    ensures name !in Reconciled(s, env, order).suppressed
  {
    assert name !in Dependents(s) by {
      assert forall g :: g in s.antagonists ==> !Belongs(s.antagonists, name, g);
    }
    UndeclaredIsNeverRevisited(s, env, order, name);
  }

  /** Held, in terms of the sessions alone. */
  lemma HeldByMember(s: State, env: Env, name: string)
    ensures Held(s, env, name) <==> exists g, m ::
              Belongs(s.antagonists, name, g) && m in Members(s.groups, g) && m in s.sessions && !env.readFails(m)
  {
    if Held(s, env, name) {
      var g :| g in s.antagonists && name in s.antagonists[g] && Active(s, env, g);
      var i :| 0 <= i < |Members(s.groups, g)| &&
        Members(s.groups, g)[i] in s.sessions && !env.readFails(Members(s.groups, g)[i]);
      assert Belongs(s.antagonists, name, g) && Members(s.groups, g)[i] in Members(s.groups, g);
    }
    if g, m :| Belongs(s.antagonists, name, g) && m in Members(s.groups, g) && m in s.sessions && !env.readFails(m) {
      var i :| 0 <= i < |Members(s.groups, g)| && Members(s.groups, g)[i] == m;
      assert Active(s, env, g);
    }
  }

  /** Without errors, nobody keeps a session beside a session of a group it yields to, unless marked before. */
  lemma BackedOff(s: State, env: Env, order: seq<string>)
    requires Lists(order, Dependents(s))
    ensures NoErrors(env) ==> forall d, g, m ::
              Belongs(s.antagonists, d, g) && m in Members(s.groups, g) && m in s.sessions && d !in s.suppressed ==>
                d !in Reconciled(s, env, order).sessions
  {
    if NoErrors(env) {
      forall d, g, m | Belongs(s.antagonists, d, g) && m in Members(s.groups, g) && m in s.sessions
                       && d !in s.suppressed
        ensures d !in Reconciled(s, env, order).sessions
      {
        HeldByMember(s, env, d);
        EveryHeldDependentEndsIdle(s, env, order, d);
      }
    }
  }

  lemma {:induction false} VisitsNone(s: State, env: Env, wanted: set<string>)
    ensures Visits(s, env, [], wanted) == s && NoDup([])
  {
  }

  lemma ListMore(order: seq<string>, i: string)
    requires NoDup(order) && i !in order
    ensures NoDup(order + [i])
  {
  }

  lemma {:induction false} VisitsOneMore(s: State, env: Env, order: seq<string>, wanted: set<string>, i: string)
    ensures Visits(s, env, order + [i], wanted) == Visited(Visits(s, env, order, wanted), env, i, i in wanted)
  {
    hide Visited;
    assert Front(order + [i]) == order && Last(order + [i]) == i;
  }

  lemma NoDependents(s: State)
    requires s.antagonists == map[]
    ensures Dependents(s) == {}
  {
  }

  /** `Sync` reports no change exactly if it made none. */
  lemma SyncChangedNothing(data: Groups, instance: string, desired: set<string>)
    ensures Synced(data, instance, desired) == data <==>
      desired - GroupSet(data, instance) == {} && GroupSet(data, instance) - desired == {}
  {
    hide Synced;
    SyncGivesSet(data, instance, desired);
    SyncedToItself(data, instance);
    if desired - GroupSet(data, instance) == {} && GroupSet(data, instance) - desired == {} {
      assert desired == GroupSet(data, instance);
    }
  }

  /** The desired states as far as the groups not in `todo` determine them. */
  ghost predicate DesiredOf(registry: Groups, active: map<string, bool>, todo: set<string>, desired: map<string, bool>)
    requires active.Keys == registry.Keys
  {
    && (forall d :: d in desired <==> exists g :: g in registry && g !in todo && d in registry[g])
    && (forall d :: d in desired ==>
          (desired[d] <==> exists g :: g in registry && g !in todo && d in registry[g] && active[g]))
  }

  lemma DesiredEnds(registry: Groups, active: map<string, bool>, all: set<string>,
                    none: set<string>, desired: map<string, bool>)
    requires active.Keys == registry.Keys == all && none == {}
    ensures desired == map[] ==> DesiredOf(registry, active, all, desired)
    ensures DesiredOf(registry, active, none, desired) ==>
              && desired.Keys == (set g, d | g in registry && d in registry[g] :: d)
              && forall d :: d in desired ==>
                   (desired[d] <==> exists g :: g in registry && d in registry[g] && active[g])
  {
  }

  lemma DesiredGrows(registry: Groups, active: map<string, bool>, todo: set<string>, group: string,
                     before: map<string, bool>, desired: map<string, bool>)
    requires group in registry && group in todo && active.Keys == registry.Keys
    requires DesiredOf(registry, active, todo, before)
    requires forall d :: d in desired <==> d in before || d in registry[group]
    requires forall d :: d in desired ==>
      (desired[d] <==> (d in before && before[d]) || (d in registry[group] && active[group]))
    ensures DesiredOf(registry, active, todo - {group}, desired)
  {
    assert forall g :: g !in todo - {group} <==> g !in todo || g == group;
  }
}
