/**
  The group registry of pkg/sablier/group_registry.go and its upkeep in
  pkg/sablier/group_watch.go: a relation between instances and groups, kept as ordered
  member lists under incremental updates. The same registry also indexes anti-affinity.
*/
module Registry {
  import opened Common

  /** Group name to member instances, in the order they were added. */
  type Groups = map<string, seq<string>>

  function Members(data: Groups, g: string): seq<string> {
    if g in data then data[g] else []
  }

  /** The relation the registry stands for. */
  predicate Belongs(data: Groups, instance: string, g: string) {
    instance in Members(data, g)
  }

  function GroupSet(data: Groups, instance: string): set<string> {
    set g | g in data && instance in data[g]
  }

  function ToSet(s: seq<string>): set<string> {
    set x | x in s
  }

  predicate NoDup(s: seq<string>) {
    forall i, j :: 0 <= i < j < |s| ==> s[i] != s[j]
  }

  /** The list without any occurrence of `x`, order kept. */
  function Without(s: seq<string>, x: string): seq<string> {
    if s == [] then []
    else Without(Front(s), x) + if Last(s) == x then [] else [Last(s)]
  }

  lemma {:induction false} WithoutKeepsOthers(s: seq<string>, x: string)
    ensures multiset(Without(s, x)) == multiset(s)[x := 0]
  {
    if s != [] {
      WithoutKeepsOthers(Front(s), x);
      var y := Last(s);
      assert multiset(s) == multiset(Front(s)) + multiset{y} by { assert s == Front(s) + [y]; }
      assert multiset(Without(s, x)) == multiset(Front(s))[x := 0] + if y == x then multiset{} else multiset{y};
    }
  }

  lemma {:induction false} WithoutAbsent(s: seq<string>, x: string)
    requires x !in s
    ensures Without(s, x) == s
  {
    if s != [] {
      assert s == Front(s) + [Last(s)];
      WithoutAbsent(Front(s), x);
    }
  }

  lemma {:induction false} InWithout(s: seq<string>, x: string, y: string)
    ensures y in Without(s, x) <==> y in s && y != x
  {
    WithoutKeepsOthers(s, x);
    assert y in Without(s, x) <==> y in multiset(Without(s, x));
    assert y in s <==> y in multiset(s);
  }

  lemma {:induction false} WithoutAppended(s: seq<string>, x: string)
    ensures Without(s + [x], x) == Without(s, x)
  {
    assert Front(s + [x]) == s;
  }

  lemma {:induction false} WithoutTwice(s: seq<string>, x: string)
    ensures Without(Without(s, x), x) == Without(s, x)
  {
    InWithout(s, x, x);
    WithoutAbsent(Without(s, x), x);
  }

  // ---------- Sync as a function ----------

  function SyncedMembers(data: Groups, instance: string, desired: set<string>, g: string): seq<string> {
    var m := Members(data, g);
    if g in desired then if instance in m then m else m + [instance]
    else if instance in m then Without(m, instance)
    else m
  }

  /** The registry after `Sync`: groups that lost their last member are gone. */
  function Synced(data: Groups, instance: string, desired: set<string>): Groups {
    map g | g in data.Keys + desired && (g in desired || instance !in data[g] || Without(data[g], instance) != [])
      :: SyncedMembers(data, instance, desired, g)
  }

  /**
    What one `Sync` does to the relation: the instance is in exactly the requested groups,
    and in every group the other members are the same, in the same order. No group is left
    behind empty.
  */
  lemma {:induction false} SyncIsExact(data: Groups, instance: string, desired: set<string>)
    ensures var r := Synced(data, instance, desired);
      && (forall g :: Belongs(r, instance, g) <==> g in desired)
      && (forall g :: Without(Members(r, g), instance) == Without(Members(data, g), instance))
      && (forall other, g :: other != instance ==> (Belongs(r, other, g) <==> Belongs(data, other, g)))
      && NoneEmptied(data, r)
  {
    var r := Synced(data, instance, desired);
    forall g
      ensures Belongs(r, instance, g) <==> g in desired
      ensures Without(Members(r, g), instance) == Without(Members(data, g), instance)
    {
      var m := Members(data, g);
      InWithout(m, instance, instance);
      WithoutAppended(m, instance);
      WithoutTwice(m, instance);
    }
    forall other, g | other != instance ensures Belongs(r, other, g) <==> Belongs(data, other, g) {
      InWithout(Members(r, g), instance, other);
      InWithout(Members(data, g), instance, other);
    }
  }

  /** An instance joins a group as its last member, and keeps its place where it was one. */
  lemma NewMemberComesLast(data: Groups, instance: string, desired: set<string>, g: string)
    requires g in desired
    ensures Members(Synced(data, instance, desired), g) ==
            Members(data, g) + if Belongs(data, instance, g) then [] else [instance]
  {
  }

  /** Adding one more group, as the first loop of `Sync` does. */
  lemma SyncAddsOne(data: Groups, instance: string, desired: set<string>, g: string)
    requires GroupSet(data, instance) <= desired
    ensures var r := Synced(data, instance, desired);
      Synced(data, instance, desired + {g}) == if g in desired then r else r[g := Members(r, g) + [instance]]
  {
    if g in desired { assert desired + {g} == desired; }
  }

  /** Leaving one group, as the second loop does through `removeFromGroup`. */
  lemma SyncLeavesOne(data: Groups, instance: string, desired: set<string>, g: string)
    requires g in GroupSet(data, instance) && g in desired
    ensures Synced(data, instance, desired - {g}) == LeftGroup(Synced(data, instance, desired), instance, g)
  {
  }

  function LeftGroup(data: Groups, instance: string, g: string): Groups {
    var filtered := Without(Members(data, g), instance);
    if filtered == [] then data - {g} else data[g := filtered]
  }

  lemma SyncedToItself(data: Groups, instance: string)
    ensures Synced(data, instance, GroupSet(data, instance)) == data
  {
  }

  // ---------- The registry object ----------

  /** `filtered := members[:0]; append(...)`: compaction over the same backing array. */
  method CompactInPlace(members: array<string>, instance: string) returns (n: nat)
    modifies members
    ensures n <= members.Length
    ensures members[..n] == Without(old(members[..]), instance)
  {
    n := 0;
    var i := 0;
    while i < members.Length
      invariant 0 <= n <= i <= members.Length
      invariant members[..n] == Without(old(members[..i]), instance)
      invariant forall k :: i <= k < members.Length ==> members[k] == old(members[k])
    {
      var m := members[i];
      assert Front(old(members[..i + 1])) == old(members[..i]) && Last(old(members[..i + 1])) == m;
      ghost var kept := members[..n];
      if m != instance {
        members[n] := m;
        n := n + 1;
        assert members[..n] == kept + [m];
      }
      assert members[..n] == Without(old(members[..i + 1]), instance);
      i := i + 1;
    }
    assert old(members[..]) == old(members[..members.Length]);
  }

  class GroupRegistry {
    var data: Groups

    constructor ()
      ensures data == map[]
    {
      data := map[];
    }

    /** Scans all groups, in any order. */
    method GroupsOf(instance: string) returns (groups: seq<string>)
      ensures NoDup(groups) && ToSet(groups) == GroupSet(data, instance)
    {
      groups := [];
      var todo := data.Keys;
      while todo != {}
        invariant todo <= data.Keys && NoDup(groups)
        invariant forall g :: g in groups <==> g in data.Keys - todo && instance in data[g]
        decreases |todo|
      {
        var g :| g in todo;
        todo := todo - {g};
        if instance in data[g] {
          groups := groups + [g];
        }
      }
    }

    method RemoveFromGroup(instance: string, group: string)
      modifies this
      ensures data == LeftGroup(old(data), instance, group)
    {
      var members := Members(data, group);
      var backing := new string[|members|](i requires 0 <= i < |members| => members[i]);
      assert backing[..] == members;
      var n := CompactInPlace(backing, instance);
      if n == 0 {
        data := data - {group};
      } else {
        data := data[group := backing[..n]];
      }
    }

    /** Sets the memberships of `instance` to exactly `newGroups`, map iteration in any order. */
    method Sync(instance: string, newGroups: seq<string>) returns (added: seq<string>, removed: seq<string>)
      modifies this
      ensures data == Synced(old(data), instance, ToSet(newGroups))
      ensures NoDup(added) && ToSet(added) == ToSet(newGroups) - GroupSet(old(data), instance)
      ensures NoDup(removed) && ToSet(removed) == GroupSet(old(data), instance) - ToSet(newGroups)
    {
      hide Synced, GroupSet;
      ghost var before := data;
      var groups := GroupsOf(instance);
      var current, desired := ToSet(groups), ToSet(newGroups);
      added := AddMissing(instance, current, desired);
      removed := LeaveUnwanted(instance, current, desired, before);
    }

    method AddMissing(instance: string, current: set<string>, desired: set<string>) returns (added: seq<string>)
      requires current == GroupSet(data, instance)
      modifies this
      ensures data == Synced(old(data), instance, current + desired)
      ensures NoDup(added) && ToSet(added) == desired - current
    {
      hide Synced, GroupSet;
      ghost var have := current;
      SyncedToItself(data, instance);
      added := [];
      var todo := desired;
      while todo != {}
        invariant have == current + (desired - todo) && todo <= desired && NoDup(added)
        invariant data == Synced(old(data), instance, have)
        invariant forall g :: g in added <==> g in desired && g !in todo && g !in current
        decreases |todo|
      {
        var g :| g in todo;
        SyncAddsOne(old(data), instance, have, g);
        if g !in current {
          assert g !in have;
          data := data[g := Members(data, g) + [instance]];
          added := added + [g];
        }
        have := have + {g};
        todo := todo - {g};
      }
      assert have == current + desired;
    }

    method LeaveUnwanted(instance: string, current: set<string>, desired: set<string>, ghost before: Groups)
      returns (removed: seq<string>)
      requires current == GroupSet(before, instance) && data == Synced(before, instance, current + desired)
      modifies this
      ensures data == Synced(before, instance, desired)
      ensures NoDup(removed) && ToSet(removed) == current - desired
    {
      hide Synced, GroupSet;
      removed := [];
      var todo := current;
      ghost var have := current + desired;
      while todo != {}
        invariant have == desired + todo && todo <= current && NoDup(removed)
        invariant data == Synced(before, instance, have)
        invariant forall g :: g in removed <==> g in current && g !in todo && g !in desired
        decreases |todo|
      {
        var g :| g in todo;
        todo := todo - {g};
        if g !in desired {
          SyncLeavesOne(before, instance, have, g);
          have := have - {g};
          RemoveFromGroup(instance, g);
          removed := removed + [g];
        }
      }
      assert have == desired;
    }

    method Remove(instance: string) returns (groups: seq<string>)
      modifies this
      ensures data == Synced(old(data), instance, {})
      ensures NoDup(groups) && ToSet(groups) == GroupSet(old(data), instance)
    {
      hide Synced;
      ghost var before := data;
      groups := GroupsOf(instance);
      SyncedToItself(data, instance);
      ghost var left := ToSet(groups);
      var i := 0;
      while i < |groups|
        invariant 0 <= i <= |groups| && data == Synced(before, instance, left)
        invariant forall g :: g in left <==> g in groups[i..]
      {
        assert groups[i..] == [groups[i]] + groups[i + 1..];
        assert groups[i] !in groups[i + 1..];
        SyncLeavesOne(before, instance, left, groups[i]);
        RemoveFromGroup(instance, groups[i]);
        left := left - {groups[i]};
        i := i + 1;
      }
      assert left == {};
    }

    method Set(groups: Groups) returns (before: Groups, changed: bool)
      modifies this
      ensures data == groups && (changed <==> old(data) != groups)
      ensures before == if changed then old(data) else map[]
    {
      if data == groups {
        return map[], false;
      }
      before, changed := data, true;
      data := groups;
    }

    /** The inverse mapping, groups in any order. */
    method InstanceSnapshot() returns (out: Groups)
      ensures forall instance, g :: Belongs(out, g, instance) <==> Belongs(data, instance, g)
      ensures forall instance :: instance in out ==> out[instance] != []
    {
      out := Inverse(data);
    }
  }

  /** Turns group-to-instances into instance-to-groups. */
  method Inverse(groups: Groups) returns (out: Groups)
    ensures forall instance, g :: Belongs(out, g, instance) <==> Belongs(groups, instance, g)
    ensures forall instance :: instance in out ==> out[instance] != []
  {
    out := map[];
    var todo := groups.Keys;
    while todo != {}
      invariant todo <= groups.Keys && forall instance :: instance in out ==> out[instance] != []
      invariant forall instance, g :: Belongs(out, g, instance) <==> g !in todo && Belongs(groups, instance, g)
      decreases |todo|
    {
      var g :| g in todo;
      todo := todo - {g};
      ghost var before := out;
      var instances := groups[g];
      var i := 0;
      while i < |instances|
        invariant 0 <= i <= |instances| && forall instance :: instance in out ==> out[instance] != []
        invariant forall instance, h :: Belongs(out, h, instance) <==>
                    Belongs(before, h, instance) || (h == g && instance in instances[..i])
      {
        assert instances[..i + 1] == instances[..i] + [instances[i]];
        ghost var prior := out;
        out := out[instances[i] := Members(out, instances[i]) + [g]];
        assert forall instance, h ::
            Belongs(out, h, instance) <==> Belongs(prior, h, instance) || (h == g && instance == instances[i]);
        i := i + 1;
      }
      assert instances[..i] == instances;
    }
  }

  // ---------- Keeping it in step with the provider ----------

  /** A group without members was already there without members. */
  ghost predicate NoneEmptied(before: Groups, now: Groups) {
    forall g :: g in now && now[g] == [] ==> g in before && before[g] == []
  }

  /** A full resync; `None` stands for a provider error or a nil map, which change nothing. */
  method ReconcileGroups(registry: GroupRegistry, reply: Option<Groups>)
    modifies registry
    ensures reply.None? ==> registry.data == old(registry.data)
    ensures reply.Some? ==>
      forall instance, g :: Belongs(registry.data, instance, g) <==> Belongs(reply.value, instance, g)
    ensures NoneEmptied(old(registry.data), registry.data)
  {
    hide Synced;
    if reply.None? {
      return;
    }
    var groups := reply.value;
    var wanted := Inverse(groups);
    ghost var before := registry.data;
    var todo := wanted.Keys;
    while todo != {}
      invariant todo <= wanted.Keys && NoneEmptied(before, registry.data)
      invariant forall instance, g :: Belongs(registry.data, instance, g) <==>
                  if instance in wanted.Keys - todo then Belongs(groups, instance, g) else Belongs(before, instance, g)
      decreases |todo|
    {
      var instance :| instance in todo;
      todo := todo - {instance};
      SyncIsExact(registry.data, instance, ToSet(wanted[instance]));
      assert forall g :: Belongs(groups, instance, g) <==> g in ToSet(wanted[instance]) by {
        forall g ensures Belongs(groups, instance, g) <==> g in ToSet(wanted[instance]) {
          assert Belongs(wanted, g, instance) <==> Belongs(groups, instance, g);
        }
      }
      var added, removed := registry.Sync(instance, wanted[instance]);
    }
    var present := registry.InstanceSnapshot();
    todo := present.Keys;
    ghost var synced := registry.data;
    while todo != {}
      invariant todo <= present.Keys && NoneEmptied(before, registry.data)
      invariant forall instance, g :: Belongs(registry.data, instance, g) <==>
                  (instance in wanted || instance !in present.Keys - todo) && Belongs(synced, instance, g)
      decreases |todo|
    {
      var instance :| instance in todo;
      todo := todo - {instance};
      if instance !in wanted {
        SyncIsExact(registry.data, instance, {});
        var removed := registry.Remove(instance);
      }
    }
    forall instance, g ensures Belongs(registry.data, instance, g) <==> Belongs(groups, instance, g) {
      assert Belongs(wanted, g, instance) <==> Belongs(groups, instance, g);
      assert Belongs(present, g, instance) <==> Belongs(synced, instance, g);
    }
  }

  method EqualStringSliceSets(a: seq<string>, b: seq<string>) returns (equal: bool)
    ensures equal <==> LooksEqual(a, b)
  {
    if |a| != |b| {
      return false;
    }
    var setA := ToSet(a);
    var i := 0;
    while i < |b|
      invariant 0 <= i <= |b| && forall j :: 0 <= j < i ==> b[j] in setA
    {
      if b[i] !in setA {
        return false;
      }
      i := i + 1;
    }
    return true;
  }

  /** Same length, and every element of `b` occurs in `a`. */
  predicate LooksEqual(a: seq<string>, b: seq<string>) {
    |a| == |b| && forall x :: x in b ==> x in a
  }

  lemma {:induction false} SetSize(s: seq<string>)
    ensures |ToSet(s)| <= |s| && (|ToSet(s)| == |s| <==> NoDup(s))
  {
    if s != [] {
      SetSize(Front(s));
      assert ToSet(s) == ToSet(Front(s)) + {Last(s)};
      assert s == Front(s) + [Last(s)];
      if Last(s) in Front(s) {
        assert ToSet(s) == ToSet(Front(s));
        var i :| 0 <= i < |Front(s)| && Front(s)[i] == Last(s);
        assert s[i] == s[|s| - 1];
      }
    }
  }

  /**
    Against a list without repetitions, the comparison is too generous exactly if the other
    list repeats an element and still looks equal; a duplicate-free list is judged correctly.
  */
  lemma LooksEqualIsSetEquality(a: seq<string>, b: seq<string>)
    requires NoDup(a)
    ensures LooksEqual(a, b) && NoDup(b) ==> ToSet(a) == ToSet(b)
    ensures LooksEqual(a, b) && !NoDup(b) ==> ToSet(a) != ToSet(b)
    ensures NoDup(b) && ToSet(a) == ToSet(b) ==> LooksEqual(a, b)
  {
    SetSize(a);
    SetSize(b);
    if LooksEqual(a, b) && NoDup(b) {
      SameSize(ToSet(b), ToSet(a));
    }
    if NoDup(b) && ToSet(a) == ToSet(b) {
      forall x | x in b ensures x in a { assert x in ToSet(b); }
    }
  }

  datatype EventType = Created | Updated | Removed

  /** `handleGroupEvent`, the part that updates the registry. */
  method HandleGroupEvent(registry: GroupRegistry, event: EventType, name: string, groups: seq<string>)
    modifies registry
    ensures event.Created? ==>
      registry.data == if groups == [] then old(registry.data) else Synced(old(registry.data), name, ToSet(groups))
    ensures event.Updated? ==> UpdatedBy(old(registry.data), name, groups, registry.data)
    ensures event.Removed? ==> registry.data == Synced(old(registry.data), name, {})
  {
    hide Synced;
    match event
    case Created =>
      if |groups| == 0 {
        return;
      }
      var added, removed := registry.Sync(name, groups);
    case Updated =>
      var current := registry.GroupsOf(name);
      var same := EqualStringSliceSets(current, groups);
      if same {
        return;
      }
      if |groups| == 0 {
        var gone := registry.Remove(name);
        assert ToSet(groups) == {};
        return;
      }
      var added, removed := registry.Sync(name, groups);
    case Removed =>
      var gone := registry.Remove(name);
  }

  /** An update is skipped if the new groups look like the current ones, however those are listed. */
  ghost predicate UpdatedBy(data: Groups, name: string, groups: seq<string>, r: Groups) {
    exists current :: NoDup(current) && ToSet(current) == GroupSet(data, name) &&
      r == if LooksEqual(current, groups) then data else Synced(data, name, ToSet(groups))
  }

  /** The list of new groups repeats itself, and only so matches the current groups in number. */
  predicate Misjudged(data: Groups, name: string, groups: seq<string>) {
    !NoDup(groups) && |groups| == |GroupSet(data, name)| && forall g :: g in groups ==> g in GroupSet(data, name)
  }

  /**
    An updated event leaves the instance in exactly its new groups if and only if the list is
    not misjudged; a list without duplicates never is.
  */
  lemma UpdateIsExactUnlessMisjudged(data: Groups, name: string, groups: seq<string>, r: Groups)
    requires UpdatedBy(data, name, groups, r)
    ensures r == Synced(data, name, ToSet(groups)) <==> !Misjudged(data, name, groups)
    ensures GroupSet(r, name) == ToSet(groups) <==> !Misjudged(data, name, groups)
  {
    hide Synced;
    var current :| NoDup(current) && ToSet(current) == GroupSet(data, name) &&
      r == if LooksEqual(current, groups) then data else Synced(data, name, ToSet(groups));
    SetSize(current);
    LooksEqualIsSetEquality(current, groups);
    assert forall x :: x in current <==> x in ToSet(current);
    SyncGivesSet(data, name, ToSet(groups));
    SyncedToItself(data, name);
  }

  lemma SyncGivesSet(data: Groups, instance: string, desired: set<string>)
    ensures GroupSet(Synced(data, instance, desired), instance) == desired
  {
    hide Synced;
    SyncIsExact(data, instance, desired);
    forall g ensures g in GroupSet(Synced(data, instance, desired), instance) <==> g in desired {
      assert Belongs(Synced(data, instance, desired), instance, g) <==> g in desired;
    }
  }

  /** A concrete misjudged update: the instance stays in "b", which its labels no longer name. */
  lemma RepeatedLabelIsMisjudged()
    ensures Misjudged(map["a" := ["web"], "b" := ["web"]], "web", ["a", "a"])
  {
    assert GroupSet(map["a" := ["web"], "b" := ["web"]], "web") == {"a", "b"};
    assert ["a", "a"][0] == ["a", "a"][1];
  }
}
