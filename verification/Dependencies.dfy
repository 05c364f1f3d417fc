/**
  The `depends_on` graph of pkg/sablier/instance_dependency.go: discovery of everything a
  start needs, and the three-colour search that decides whether it can be ordered.
*/
module Dependencies {
  import opened Common

  datatype Dependency = Dependency(name: string, condition: string)

  type Graph = map<string, seq<Dependency>>

  /** What the provider says about one instance's direct dependencies. */
  datatype Reply = Deps(deps: seq<Dependency>) | Failed

  type Provider = string -> Reply

  // ---------- Walks ----------

  /** Direct dependencies as a total relation; both the provider and a graph give one. */
  type Relation = string -> seq<Dependency>

  function Told(ask: Provider): Relation {
    n => if ask(n).Deps? then ask(n).deps else []
  }

  /** `graph[n]`, with Go's empty slice for a missing key. */
  function Recorded(g: Graph): Relation {
    n => if n in g then g[n] else []
  }

  ghost predicate DependsOn(next: Relation, a: string, b: string) {
    exists i :: 0 <= i < |next(a)| && next(a)[i].name == b
  }

  ghost predicate Walk(next: Relation, p: seq<string>) {
    p != [] && forall i :: 0 <= i < |p| - 1 ==> DependsOn(next, p[i], p[i + 1])
  }

  ghost predicate WalkFrom(next: Relation, root: string, p: seq<string>) {
    Walk(next, p) && p[0] == root
  }

  ghost predicate Reaches(next: Relation, a: string, b: string) {
    exists p :: WalkFrom(next, a, p) && Last(p) == b
  }

  /** Some walk from `root` comes back to a node it has passed. */
  ghost predicate CycleReachable(next: Relation, root: string) {
    exists p :: WalkFrom(next, root, p) && Last(p) in Front(p)
  }

  ghost predicate Closed(next: Relation, names: set<string>) {
    forall a, b :: a in names && DependsOn(next, a, b) ==> b in names
  }

  lemma ReachesItself(next: Relation, a: string)
    ensures Reaches(next, a, a)
  {
    assert WalkFrom(next, a, [a]);
  }

  lemma ReachesFurther(next: Relation, a: string, b: string, c: string)
    requires Reaches(next, a, b) && DependsOn(next, b, c)
    ensures Reaches(next, a, c)
  {
    var p :| WalkFrom(next, a, p) && Last(p) == b;
    assert WalkFrom(next, a, p + [c]);
  }

  lemma {:induction false} ClosedHoldsWalks(next: Relation, names: set<string>, p: seq<string>)
    requires Closed(next, names) && Walk(next, p) && p[0] in names
    ensures Last(p) in names
  {
    if |p| > 1 {
      assert DependsOn(next, p[|p| - 2], p[|p| - 1]);
      ClosedHoldsWalks(next, names, Front(p));
    }
  }

  lemma {:induction false} ReachesTransitive(next: Relation, a: string, b: string, p: seq<string>)
    requires Reaches(next, a, b) && WalkFrom(next, b, p)
    ensures Reaches(next, a, Last(p))
  {
    if |p| > 1 {
      ReachesTransitive(next, a, b, Front(p));
      ReachesFurther(next, a, p[|p| - 2], Last(p));
    }
  }

  /** Walks see only the relation at the names they pass, so equal relations have equal reach. */
  lemma {:induction false} SameWalks(next: Relation, other: Relation, names: set<string>, p: seq<string>)
    requires Closed(next, names) && forall n :: n in names ==> next(n) == other(n)
    requires p != [] && p[0] in names
    ensures Walk(next, p) <==> Walk(other, p)
  {
    if |p| > 1 {
      SameWalks(next, other, names, Front(p));
      if Walk(next, p) {
        assert DependsOn(next, p[|p| - 2], p[|p| - 1]);
        ClosedHoldsWalks(next, names, Front(p));
        assert DependsOn(other, p[|p| - 2], p[|p| - 1]);
        assert forall i :: 0 <= i < |p| - 2 ==> DependsOn(other, Front(p)[i], Front(p)[i + 1]);
      } else if Walk(other, p) {
        assert Walk(other, Front(p));
        ClosedHoldsWalks(next, names, Front(p));
        assert DependsOn(other, p[|p| - 2], p[|p| - 1]);
        assert DependsOn(next, p[|p| - 2], p[|p| - 1]);
        assert forall i :: 0 <= i < |p| - 2 ==> DependsOn(next, Front(p)[i], Front(p)[i + 1]);
      }
    }
  }

  // ---------- Ranks ----------

  /** A numbering in which dependencies come strictly before their dependents. */
  ghost predicate Ranked(next: Relation, rank: map<string, nat>) {
    forall n, i :: n in rank && 0 <= i < |next(n)| ==>
      next(n)[i].name in rank && rank[next(n)[i].name] < rank[n]
  }

  lemma {:induction false} RankDescends(next: Relation, rank: map<string, nat>, p: seq<string>)
    requires Ranked(next, rank) && Walk(next, p) && p[0] in rank
    ensures forall i :: 0 <= i < |p| ==> p[i] in rank
    ensures forall i :: 0 <= i < |p| - 1 ==> rank[Last(p)] < rank[p[i]]
  {
    if |p| > 1 {
      RankDescends(next, rank, Front(p));
      assert DependsOn(next, p[|p| - 2], Last(p));
      forall i | 0 <= i < |p| - 1 ensures rank[Last(p)] < rank[p[i]] {
        assert Front(p)[i] == p[i];
      }
    }
  }

  /** A rank and a cycle exclude each other. */
  lemma RankedIsAcyclic(next: Relation, rank: map<string, nat>, root: string)
    requires Ranked(next, rank) && root in rank
    ensures !CycleReachable(next, root)
  {
    forall p | WalkFrom(next, root, p) ensures Last(p) !in Front(p) {
      RankDescends(next, rank, p);
    }
  }

  /** Giving the next number to a node whose dependencies all have theirs. */
  lemma RankNext(next: Relation, rank: map<string, nat>, node: string)
    requires Ranked(next, rank) && node !in rank && forall n :: n in rank ==> rank[n] < |rank|
    requires forall i :: 0 <= i < |next(node)| ==> next(node)[i].name in rank
    ensures var rank' := rank[node := |rank|];
      Ranked(next, rank') && |rank'| == |rank| + 1 && forall n :: n in rank' ==> rank'[n] < |rank'|
  {
    var rank' := rank[node := |rank|];
    assert rank'.Keys == rank.Keys + {node};
  }

  // ---------- Discovery ----------

  class Resolver {
    const ask: Provider
    var graph: Graph

    constructor (ask: Provider)
      ensures this.ask == ask && graph == map[]
    {
      this.ask := ask;
      graph := map[];
    }

    /** What has been recorded is what the provider said. */
    ghost predicate Valid(names: set<string>)
      reads this
    {
      && Closed(Told(ask), names) && graph.Keys <= names
      && forall n :: n in graph ==> ask(n) == Deps(graph[n])
    }

    /** Every name recorded since `before`, except `name` itself, has all its dependencies recorded. */
    ghost predicate ClosedSince(before: Graph, name: string)
      reads this
    {
      forall n, d :: n in graph && n !in before && n != name && DependsOn(Told(ask), n, d) ==> d in graph
    }

    method Resolve(name: string, ghost names: set<string>) returns (ok: bool)
      requires Valid(names) && name in names
      modifies this
      ensures Valid(names) && old(graph.Keys) <= graph.Keys
      ensures forall n :: n in graph && n !in old(graph) ==> Reaches(Told(ask), name, n)
      ensures ok ==> name in graph
      ensures ok ==> forall n, d :: n in graph && n !in old(graph) && DependsOn(Told(ask), n, d) ==> d in graph
      ensures !ok ==> exists n :: Reaches(Told(ask), name, n) && ask(n).Failed?
      decreases names - graph.Keys
    {
      hide Reaches, DependsOn;
      if name in graph {
        return true;
      }
      ReachesItself(Told(ask), name);
      var reply := ask(name);
      if reply.Failed? {
        return false;
      }
      ghost var before := graph;
      graph := graph[name := reply.deps];
      var i := 0;
      while i < |reply.deps|
        invariant 0 <= i <= |reply.deps| && name in graph && name !in before
        invariant Valid(names) && before.Keys <= graph.Keys
        invariant forall n :: n in graph && n !in before ==> Reaches(Told(ask), name, n)
        invariant ClosedSince(before, name)
        invariant forall j :: 0 <= j < i ==> reply.deps[j].name in graph
      {
        var dep := reply.deps[i];
        OwnDependencies(name);
        ReachesFurther(Told(ask), name, name, dep.name);
        ghost var mid := graph;
        var resolved := Resolve(dep.name, names);
        ReachThrough(name, dep.name);
        if !resolved {
          return false;
        }
        StillClosed(before, mid, name);
        i := i + 1;
      }
      OwnDependencies(name);
      return true;
    }

    lemma OwnDependencies(name: string)
      requires ask(name).Deps?
      ensures forall d :: DependsOn(Told(ask), name, d) <==>
                exists i :: 0 <= i < |ask(name).deps| && ask(name).deps[i].name == d
    {
      assert Told(ask)(name) == ask(name).deps;
    }

    /** Names recorded before `mid` were closed then, those recorded since are closed now. */
    lemma StillClosed(before: Graph, mid: Graph, name: string)
      requires mid.Keys <= graph.Keys
      requires forall n, d ::
                 n in mid && n !in before && n != name && DependsOn(Told(ask), n, d) ==> d in mid
      requires forall n, d :: n in graph && n !in mid && DependsOn(Told(ask), n, d) ==> d in graph
      ensures ClosedSince(before, name)
    {
      hide DependsOn;
      forall n, d | n in graph && n !in before && n != name && DependsOn(Told(ask), n, d) ensures d in graph {
        assert n in mid ==> d in mid;
      }
    }

    lemma ReachThrough(a: string, b: string)
      requires Reaches(Told(ask), a, b)
      ensures forall n :: Reaches(Told(ask), b, n) ==> Reaches(Told(ask), a, n)
    {
      forall n | Reaches(Told(ask), b, n) ensures Reaches(Told(ask), a, n) {
        var p :| WalkFrom(Told(ask), b, p) && Last(p) == n;
        ReachesTransitive(Told(ask), a, b, p);
      }
    }
  }

  // ---------- Cycle search ----------

  datatype Colour = Visiting | Visited

  class CycleSearch {
    const graph: Graph
    const root: string
    var state: map<string, Colour>
    /** Order in which nodes turned `Visited`. */
    ghost var rank: map<string, nat>

    constructor (graph: Graph, root: string)
      ensures this.graph == graph && this.root == root && state == map[] && rank == map[]
    {
      this.graph := graph;
      this.root := root;
      state := map[];
      rank := map[];
    }

    ghost function Names(): set<string> {
      {root} + graph.Keys + set n, i | n in graph && 0 <= i < |graph[n]| :: graph[n][i].name
    }

    ghost predicate Valid()
      reads this
    {
      && state.Keys <= Names()
      && (forall n :: n in rank <==> n in state && state[n] == Visited)
      && Ranked(Recorded(graph), rank) && forall n :: n in rank ==> rank[n] < |rank|
    }

    /** The nodes being visited are those on the path. */
    ghost predicate OnPath(path: seq<string>)
      reads this
    {
      forall n :: n in path <==> n in state && state[n] == Visiting
    }

    method Visit(node: string, path0: seq<string>) returns (cyclic: bool, found: seq<string>)
      requires Valid() && OnPath(path0) && node in Names() && node !in state
      requires WalkFrom(Recorded(graph), root, path0 + [node])
      modifies this
      ensures cyclic ==> WalkFrom(Recorded(graph), root, found) && Last(found) in Front(found)
      ensures !cyclic ==> Valid() && OnPath(path0) && node in rank
      ensures forall n :: n in old(state) ==> n in state
      ensures forall n :: n in old(rank) ==> n in rank
      decreases Names() - state.Keys
    {
      hide Ranked, Walk, WalkFrom, DependsOn, Names, Valid, OnPath;
      Begin(node, path0);
      var path := path0 + [node];
      var deps := if node in graph then graph[node] else [];
      ghost var left := Names() - state.Keys;
      ghost var ranked: set<string> := {};
      var i := 0;
      while i < |deps|
        invariant 0 <= i <= |deps|
        invariant Valid() && OnPath(path) && Names() - state.Keys <= left
        invariant forall n :: n in old(state) ==> n in state
        invariant forall n :: n in old(rank) ==> n in rank
        invariant ranked == (set j | 0 <= j < i :: deps[j].name) && forall n :: n in ranked ==> n in rank
      {
        var dep := deps[i].name;
        ExtendWalk(path, i);
        if dep in state && state[dep] == Visiting {
          InPath(path, dep);
          return true, path + [dep];
        }
        if dep !in state {
          cyclic, found := Visit(dep, path);
          if cyclic {
            return;
          }
        } else {
          VisitedIsRanked(dep);
        }
        ranked := ranked + {dep};
        i := i + 1;
      }
      assert forall j :: 0 <= j < |deps| ==> deps[j].name in ranked;
      Finish(node, path0);
      return false, [];
    }

    /** `state[node] = visiting`. */
    method Begin(node: string, path0: seq<string>)
      requires Valid() && OnPath(path0) && node in Names() && node !in state
      modifies this`state
      ensures Valid() && OnPath(path0 + [node]) && node !in path0
      ensures forall n :: n in old(state) ==> n in state
      ensures Names() - state.Keys < Names() - old(state.Keys)
    {
      hide Names, Ranked;
      state := state[node := Visiting];
      assert node in Names() - old(state.Keys) && node !in Names() - state.Keys;
    }

    lemma VisitedIsRanked(n: string)
      requires Valid() && n in state && state[n] != Visiting
      ensures n in rank
    {
    }

    lemma InPath(path: seq<string>, n: string)
      requires OnPath(path) && n in state && state[n] == Visiting
      ensures n in path && n in Front(path + [n])
    {
      assert Front(path + [n]) == path;
    }

    /** `state[node] = visited`, once no dependency led back to the path. */
    method Finish(node: string, path0: seq<string>)
      requires Valid() && OnPath(path0 + [node]) && node !in path0
      requires forall i :: 0 <= i < |Recorded(graph)(node)| ==> Recorded(graph)(node)[i].name in rank
      modifies this
      ensures Valid() && OnPath(path0) && node in rank
      ensures forall n :: n in old(state) ==> n in state
      ensures forall n :: n in old(rank) ==> n in rank
    {
      hide Ranked, Names;
      assert node in path0 + [node];
      RankNext(Recorded(graph), rank, node);
      rank := rank[node := |rank|];
      state := state[node := Visited];
      assert forall n :: n in path0 + [node] <==> n in path0 || n == node;
    }

    lemma ExtendWalk(path: seq<string>, i: nat)
      requires WalkFrom(Recorded(graph), root, path) && i < |Recorded(graph)(Last(path))|
      ensures WalkFrom(Recorded(graph), root, path + [Recorded(graph)(Last(path))[i].name])
      ensures Recorded(graph)(Last(path))[i].name in Names()
    {
      assert DependsOn(Recorded(graph), Last(path), Recorded(graph)(Last(path))[i].name);
    }
  }

  /**
    `dependencyGraphCycle`: true exactly if a cycle can be reached, with a walk from the root
    that ends where it has been before; otherwise the search order ranks the graph.
  */
  method DependencyGraphCycle(root: string, graph: Graph)
    returns (cyclic: bool, path: seq<string>, ghost rank: map<string, nat>)
    ensures cyclic <==> CycleReachable(Recorded(graph), root)
    ensures cyclic ==> WalkFrom(Recorded(graph), root, path) && Last(path) in Front(path)
    ensures !cyclic ==> Ranked(Recorded(graph), rank) && root in rank
  {
    var search := new CycleSearch(graph, root);
    assert [] + [root] == [root];
    cyclic, path := search.Visit(root, []);
    rank := search.rank;
    if !cyclic {
      RankedIsAcyclic(Recorded(graph), rank, root);
    }
  }

  /** What `startWithDependencies` decides before it starts anything. */
  datatype Plan =
    | CannotResolve
    | Alone(cycle: seq<string>)
    | InOrder(graph: Graph)

  ghost predicate AllResolve(ask: Provider, root: string) {
    forall n :: Reaches(Told(ask), root, n) ==> ask(n).Deps?
  }

  /**
    On any finite dependency relation, cyclic or not: the start fails exactly if some
    reachable instance cannot be resolved, ignores dependencies exactly if a cycle is
    reachable, and otherwise has recorded exactly the reachable names with what the
    provider said about each.
  */
  method PlanStart(root: string, ask: Provider, ghost names: set<string>)
    returns (plan: Plan, ghost rank: map<string, nat>)
    requires root in names && Closed(Told(ask), names)
    ensures plan == CannotResolve <==> !AllResolve(ask, root)
    ensures plan.Alone? <==> AllResolve(ask, root) && CycleReachable(Told(ask), root)
    ensures plan.Alone? ==> WalkFrom(Told(ask), root, plan.cycle) && Last(plan.cycle) in Front(plan.cycle)
    ensures plan.InOrder? ==>
      && (forall n :: n in plan.graph <==> Reaches(Told(ask), root, n))
      && (forall n :: n in plan.graph ==> ask(n) == Deps(plan.graph[n]))
      && Ranked(Recorded(plan.graph), rank) && root in rank
  {
    var resolver := new Resolver(ask);
    rank := map[];
    var ok := resolver.Resolve(root, names);
    if !ok {
      return CannotResolve, rank;
    }
    var graph := resolver.graph;
    var next := Told(ask);
    forall n ensures n in graph <==> Reaches(next, root, n) {
      if Reaches(next, root, n) {
        var p :| WalkFrom(next, root, p) && Last(p) == n;
        ClosedHoldsWalks(next, graph.Keys, p);
      }
    }
    var cyclic, path;
    cyclic, path, rank := DependencyGraphCycle(root, graph);
    forall p | p != [] && p[0] == root ensures Walk(next, p) <==> Walk(Recorded(graph), p) {
      SameWalks(next, Recorded(graph), graph.Keys, p);
    }
    if cyclic {
      plan := Alone(path);
    } else {
      plan := InOrder(graph);
    }
  }
}
