/**
  The binary min-heap of pkg/tinykv/heap.go and its copy specialised to timeouts,
  pkg/tinykv/timeout_heap.go.

  `SiftUp` and `SiftDown` are recursive specifications on sequences; the class `Heap`
  runs the loops of the source in place and is proved to compute them. What the source
  promises of them (heap order, nothing lost, a minimum at the root) is proved as lemmas.
*/
module Heaps {

  /** The only thing the heap needs of `Less`: it ranks elements, ties allowed. */
  ghost predicate StrictWeakOrder<T(!new)>(less: (T, T) -> bool) {
    && (forall a, b {:trigger less(a, b), less(b, a)} :: less(a, b) ==> !less(b, a))
    && (forall a, b, c {:trigger less(a, b), less(b, c), less(a, c)} ::
          !less(a, b) && !less(b, c) ==> !less(a, c))
  }

  /** `(j - 1) / 2` with Go's truncation toward zero, so the root is its own parent. */
  function Parent(j: nat): nat {
    if j == 0 then 0 else (j - 1) / 2
  }

  /** Neither child nor parent are out of order across the link above `j`. */
  predicate Link<T>(less: (T, T) -> bool, s: seq<T>, j: nat)
    requires j < |s|
  {
    !less(s[j], s[Parent(j)])
  }

  /** Heap order, as the comment on `Interface` states it. */
  ghost predicate Ordered<T>(less: (T, T) -> bool, s: seq<T>) {
    forall j :: 0 < j < |s| ==> Link(less, s, j)
  }

  function Swapped<T>(s: seq<T>, i: nat, j: nat): (r: seq<T>)
    requires i < |s| && j < |s|
    ensures multiset(r) == multiset(s)
  {
    s[i := s[j]][j := s[i]]
  }

  // ---------- Sifting ----------

  function SiftUp<T>(less: (T, T) -> bool, s: seq<T>, j: nat): (r: seq<T>)
    requires j < |s|
    ensures |r| == |s| && multiset(r) == multiset(s) && r[j + 1..] == s[j + 1..]
    decreases j
  {
    if Parent(j) == j || !less(s[j], s[Parent(j)]) then s
    else SiftUp(less, Swapped(s, Parent(j), j), Parent(j))
  }

  /** The child of `i` that `down` compares with `i`: the right one only if it is strictly smaller. */
  function SmallChild<T>(less: (T, T) -> bool, s: seq<T>, i: nat, n: nat): (j: nat)
    requires 2 * i + 1 < n <= |s|
    ensures i < j < n && Parent(j) == i
  {
    if 2 * i + 2 < n && less(s[2 * i + 2], s[2 * i + 1]) then 2 * i + 2 else 2 * i + 1
  }

  /** Sifts within the first `n` elements; also says where the element ended. */
  function SiftDown<T>(less: (T, T) -> bool, s: seq<T>, i: nat, n: nat): (r: (seq<T>, nat))
    requires i < |s| && n <= |s|
    ensures |r.0| == |s| && multiset(r.0) == multiset(s)
    ensures r.0[n..] == s[n..] && i <= r.1
    ensures r.1 == i ==> r.0 == s
    decreases n - i
  {
    if 2 * i + 1 >= n then (s, i)
    else
      var j := SmallChild(less, s, i, n);
      if !less(s[j], s[i]) then (s, i)
      else SiftDown(less, Swapped(s, i, j), j, n)
  }

  /** The first `n` elements are in order except possibly for the link above `j`. */
  ghost predicate UpReady<T>(less: (T, T) -> bool, s: seq<T>, j: nat, n: nat)
    requires j < n <= |s|
  {
    && (forall k :: 0 < k < n && k != j ==> Link(less, s, k))
    && (forall k :: 0 < j < k < n && Parent(k) == j ==> !less(s[k], s[Parent(j)]))
  }

  /** All links of the first `n` elements whose upper end is at `lo` or later. */
  ghost predicate OrderedFrom<T>(less: (T, T) -> bool, s: seq<T>, n: nat, lo: nat)
    requires n <= |s|
  {
    forall k :: 0 < k < n && lo <= Parent(k) ==> Link(less, s, k)
  }

  /** Like `OrderedFrom`, except possibly for the links just below `i`. */
  ghost predicate DownReady<T>(less: (T, T) -> bool, s: seq<T>, i: nat, n: nat, lo: nat)
    requires i < |s| && n <= |s|
  {
    && (forall k :: 0 < k < n && lo <= Parent(k) && Parent(k) != i ==> Link(less, s, k))
    && (0 < i && lo <= Parent(i) ==> forall k :: i < k < n && Parent(k) == i ==> !less(s[k], s[Parent(i)]))
  }

  /** The state `Fix` and `Remove` start from: any link that touches `i` may be broken. */
  ghost predicate FixReady<T>(less: (T, T) -> bool, s: seq<T>, i: nat, n: nat)
    requires i < |s| && n <= |s|
  {
    && (forall k :: 0 < k < n && k != i && Parent(k) != i ==> Link(less, s, k))
    && (0 < i ==> forall k :: i < k < n && Parent(k) == i ==> !less(s[k], s[Parent(i)]))
  }

  lemma {:induction false} SiftUpOrders<T(!new)>(less: (T, T) -> bool, s: seq<T>, j: nat, n: nat)
    requires StrictWeakOrder(less) && j < n <= |s| && UpReady(less, s, j, n)
    ensures OrderedFrom(less, SiftUp(less, s, j), n, 0)
    decreases j
  {
    if Parent(j) != j && less(s[j], s[Parent(j)]) {
      var p := Parent(j);
      var t := Swapped(s, p, j);
      assert !less(s[p], s[j]);
      forall k | 0 < k < n && k != p ensures Link(less, t, k) {
        assert k != j ==> Link(less, s, k);
      }
      forall k | 0 < p < k < n && Parent(k) == p ensures !less(t[k], t[Parent(p)]) {
        assert Link(less, s, p);
        assert k != j ==> Link(less, s, k);
      }
      SiftUpOrders(less, t, p, n);
    }
  }

  lemma {:induction false} SiftDownOrders<T(!new)>(less: (T, T) -> bool, s: seq<T>, i: nat, n: nat, lo: nat)
    requires StrictWeakOrder(less) && lo <= i < |s| && n <= |s| && DownReady(less, s, i, n, lo)
    ensures OrderedFrom(less, SiftDown(less, s, i, n).0, n, lo)
    decreases n - i
  {
    if 2 * i + 1 < n {
      var j := SmallChild(less, s, i, n);
      SmallChildIsSmallest(less, s, i, n);
      if less(s[j], s[i]) {
        SwapKeepsDownReady(less, s, i, n, lo);
        SiftDownOrders(less, Swapped(s, i, j), j, n, lo);
      }
    }
  }

  lemma SmallChildIsSmallest<T(!new)>(less: (T, T) -> bool, s: seq<T>, i: nat, n: nat)
    requires StrictWeakOrder(less) && 2 * i + 1 < n <= |s|
    ensures forall k :: i < k < n && Parent(k) == i ==> !less(s[k], s[SmallChild(less, s, i, n)])
  {
    forall k | i < k < n && Parent(k) == i ensures !less(s[k], s[SmallChild(less, s, i, n)]) {
      assert k == 2 * i + 1 || k == 2 * i + 2;
    }
  }

  lemma SwapKeepsDownReady<T(!new)>(less: (T, T) -> bool, s: seq<T>, i: nat, n: nat, lo: nat)
    requires StrictWeakOrder(less) && lo <= i < |s| && 2 * i + 1 < n <= |s|
    requires less(s[SmallChild(less, s, i, n)], s[i])
    requires DownReady(less, s, i, n, lo) || (lo == 0 && FixReady(less, s, i, n))
    ensures DownReady(less, Swapped(s, i, SmallChild(less, s, i, n)), SmallChild(less, s, i, n), n, lo)
  {
    var j := SmallChild(less, s, i, n);
    var t := Swapped(s, i, j);
    SmallChildIsSmallest(less, s, i, n);
    forall k | 0 < k < n && lo <= Parent(k) && Parent(k) != j ensures Link(less, t, k) {
      assert k != i && Parent(k) != i ==> Link(less, s, k);
    }
    forall k | j < k < n && Parent(k) == j ensures !less(t[k], t[Parent(j)]) {
      assert Link(less, s, k);
    }
  }

  /** `if !down(h, i, n) { up(h, i) }`, the core of `Fix` and `Remove`. */
  function SiftEither<T>(less: (T, T) -> bool, s: seq<T>, i: nat, n: nat): (r: seq<T>)
    requires i < n <= |s|
    ensures |r| == |s| && multiset(r) == multiset(s) && r[n..] == s[n..]
  {
    var (t, k) := SiftDown(less, s, i, n);
    if k > i then t
    else
      var u := SiftUp(less, t, i);
      assert u[n..] == u[i + 1..][n - i - 1..] && t[n..] == t[i + 1..][n - i - 1..];
      u
  }

  lemma SiftEitherOrders<T(!new)>(less: (T, T) -> bool, s: seq<T>, i: nat, n: nat)
    requires StrictWeakOrder(less) && i < n <= |s| && FixReady(less, s, i, n)
    ensures OrderedFrom(less, SiftEither(less, s, i, n), n, 0)
  {
    if 2 * i + 1 < n { SmallChildIsSmallest(less, s, i, n); }
    if 2 * i + 1 < n && less(s[SmallChild(less, s, i, n)], s[i]) {
      var j := SmallChild(less, s, i, n);
      SwapKeepsDownReady(less, s, i, n, 0);
      SiftDownOrders(less, Swapped(s, i, j), j, n, 0);
    } else {
      forall k | 0 < k < n && k != i ensures Link(less, s, k) {
        if Parent(k) == i {
          assert !less(s[k], s[SmallChild(less, s, i, n)]);
        }
      }
      SiftUpOrders(less, s, i, n);
    }
  }

  /** Changing one element of a heap leaves exactly the state `Fix` repairs. */
  lemma ChangeIsFixReady<T(!new)>(less: (T, T) -> bool, s: seq<T>, i: nat, x: T)
    requires StrictWeakOrder(less) && i < |s| && Ordered(less, s)
    ensures FixReady(less, s[i := x], i, |s|)
  {
    var t := s[i := x];
    forall k | 0 < k < |s| && k != i && Parent(k) != i ensures Link(less, t, k) {
      assert Link(less, s, k);
    }
    forall k | 0 < i < k < |s| && Parent(k) == i ensures !less(t[k], t[Parent(i)]) {
      assert Link(less, s, k) && Link(less, s, i);
    }
  }

  lemma PrefixOrdered<T>(less: (T, T) -> bool, s: seq<T>, n: nat)
    requires n <= |s|
    ensures Ordered(less, s[..n]) <==> OrderedFrom(less, s, n, 0)
  {
    if Ordered(less, s[..n]) {
      forall k | 0 < k < n ensures Link(less, s, k) {
        assert Link(less, s[..n], k);
      }
    } else {
      var k :| 0 < k < n && !Link(less, s[..n], k);
      assert !Link(less, s, k);
    }
  }

  // ---------- The operations ----------

  function Pushed<T>(less: (T, T) -> bool, s: seq<T>, x: T): (r: seq<T>)
    ensures multiset(r) == multiset(s) + multiset{x} && |r| == |s| + 1
  {
    SiftUp(less, s + [x], |s|)
  }

  function Popped<T>(less: (T, T) -> bool, s: seq<T>): (r: seq<T>)
    requires s != []
    ensures |r| == |s| - 1
    ensures multiset(s) == multiset(r) + multiset{s[0]}
  {
    var n := |s| - 1;
    var t := SiftDown(less, Swapped(s, 0, n), 0, n).0;
    assert t[n] == t[n..][0] == s[0];
    assert t == t[..n] + [t[n]];
    t[..n]
  }

  /** `Remove(h, i)`: the last element takes the place of the removed one and is sifted. */
  function RemovedAt<T>(less: (T, T) -> bool, s: seq<T>, i: nat): (r: seq<T>)
    requires i < |s|
    ensures |r| == |s| - 1
    ensures multiset(s) == multiset(r) + multiset{s[i]}
  {
    var n := |s| - 1;
    var t := if i == n then s else SiftEither(less, Swapped(s, i, n), i, n);
    assert t[n] == t[n..][0] == s[i];
    assert t == t[..n] + [t[n]];
    t[..n]
  }

  lemma PushOrders<T(!new)>(less: (T, T) -> bool, s: seq<T>, x: T)
    requires StrictWeakOrder(less) && Ordered(less, s)
    ensures Ordered(less, Pushed(less, s, x))
  {
    var t := s + [x];
    forall k | 0 < k < |t| && k != |s| ensures Link(less, t, k) {
      assert Link(less, s, k);
    }
    SiftUpOrders(less, t, |s|, |t|);
  }

  lemma PopOrders<T(!new)>(less: (T, T) -> bool, s: seq<T>)
    requires StrictWeakOrder(less) && Ordered(less, s) && s != []
    ensures Ordered(less, Popped(less, s))
    ensures forall x :: x in s ==> !less(x, s[0])
  {
    var n := |s| - 1;
    var t := Swapped(s, 0, n);
    forall k | 0 < k < n && Parent(k) != 0 ensures Link(less, t, k) {
      assert Link(less, s, k);
    }
    assert DownReady(less, t, 0, n, 0);
    SiftDownOrders(less, t, 0, n, 0);
    PrefixOrdered(less, SiftDown(less, t, 0, n).0, n);
    forall x | x in s ensures !less(x, s[0]) {
      var k :| 0 <= k < |s| && s[k] == x;
      RootIsLeast(less, s, k);
    }
  }

  lemma {:induction false} RootIsLeast<T(!new)>(less: (T, T) -> bool, s: seq<T>, k: nat)
    requires StrictWeakOrder(less) && Ordered(less, s) && k < |s|
    ensures !less(s[k], s[0])
  {
    if k > 0 {
      RootIsLeast(less, s, Parent(k));
      assert Link(less, s, k);
    }
  }

  lemma RemoveOrders<T(!new)>(less: (T, T) -> bool, s: seq<T>, i: nat)
    requires StrictWeakOrder(less) && Ordered(less, s) && i < |s|
    ensures Ordered(less, RemovedAt(less, s, i))
  {
    var n := |s| - 1;
    if i == n {
      PrefixOrdered(less, s, n);
    } else {
      ReplaceIsFixReady(less, s, i);
      SiftEitherOrders(less, Swapped(s, i, n), i, n);
      PrefixOrdered(less, SiftEither(less, Swapped(s, i, n), i, n), n);
    }
  }

  lemma ReplaceIsFixReady<T(!new)>(less: (T, T) -> bool, s: seq<T>, i: nat)
    requires StrictWeakOrder(less) && Ordered(less, s) && i < |s| - 1
    ensures FixReady(less, Swapped(s, i, |s| - 1), i, |s| - 1)
  {
    var n := |s| - 1;
    ChangeIsFixReady(less, s, i, s[n]);
    var t, u := Swapped(s, i, n), s[i := s[n]];
    assert forall k :: 0 <= k < n ==> t[k] == u[k];
    assert forall k :: 0 < k < n ==> (Link(less, t, k) <==> Link(less, u, k));
  }

  /** `Fix` after one element changed to anything at all. */
  lemma FixOrders<T(!new)>(less: (T, T) -> bool, s: seq<T>, i: nat, x: T)
    requires StrictWeakOrder(less) && Ordered(less, s) && i < |s|
    ensures Ordered(less, SiftEither(less, s[i := x], i, |s|))
  {
    ChangeIsFixReady(less, s, i, x);
    SiftEitherOrders(less, s[i := x], i, |s|);
  }

  /** Popping until empty. */
  function Drained<T>(less: (T, T) -> bool, s: seq<T>): (r: seq<T>)
    ensures multiset(r) == multiset(s) && |r| == |s|
    decreases |s|
  {
    if s == [] then [] else [s[0]] + Drained(less, Popped(less, s))
  }

  ghost predicate Sorted<T>(less: (T, T) -> bool, s: seq<T>) {
    forall i, j :: 0 <= i < j < |s| ==> !less(s[j], s[i])
  }

  /** Successive pops deliver the elements in order: heap sort. */
  lemma {:induction false} DrainSorts<T(!new)>(less: (T, T) -> bool, s: seq<T>)
    requires StrictWeakOrder(less) && Ordered(less, s)
    ensures Sorted(less, Drained(less, s))
    decreases |s|
  {
    if s != [] {
      PopOrders(less, s);
      var rest := Drained(less, Popped(less, s));
      DrainSorts(less, Popped(less, s));
      assert forall y :: y in rest ==> y in multiset(rest) && y in multiset(s);
      PrependSorted(less, s[0], rest);
    }
  }

  lemma PrependSorted<T>(less: (T, T) -> bool, x: T, s: seq<T>)
    requires forall y :: y in s ==> !less(y, x)
    requires Sorted(less, s)
    ensures Sorted(less, [x] + s)
  {
    var r := [x] + s;
    forall i, j | 0 <= i < j < |r| ensures !less(r[j], r[i]) {
      assert r[j] == s[j - 1];
    }
  }

  // ---------- The loops of the source ----------

  class Heap<T(!new)> {
    const less: (T, T) -> bool
    var items: seq<T>

    constructor (less: (T, T) -> bool)
      ensures this.less == less && items == []
    {
      this.less := less;
      items := [];
    }

    ghost predicate Valid()
      reads this
    {
      StrictWeakOrder(less) && Ordered(less, items)
    }

    method Swap(i: nat, j: nat)
      requires i < |items| && j < |items|
      modifies this
      ensures items == Swapped(old(items), i, j)
    {
      items := items[i := items[j]][j := items[i]];
    }

    method Up(j0: nat)
      requires j0 < |items|
      modifies this
      ensures items == SiftUp(less, old(items), j0)
    {
      var j := j0;
      ghost var goal := SiftUp(less, items, j0);
      while true
        invariant 0 <= j < |items|
        invariant SiftUp(less, items, j) == goal
        decreases j
      {
        var i := if j == 0 then 0 else (j - 1) / 2;
        if i == j || !less(items[j], items[i]) {
          break;
        }
        Swap(i, j);
        j := i;
      }
    }

    method Down(i0: nat, n: nat) returns (moved: bool)
      requires i0 < |items| && n <= |items|
      modifies this
      ensures items == SiftDown(less, old(items), i0, n).0
      ensures moved <==> SiftDown(less, old(items), i0, n).1 > i0
    {
      var i := i0;
      ghost var goal := SiftDown(less, items, i0, n);
      while true
        invariant i0 <= i < |items| && n <= |items|
        invariant SiftDown(less, items, i, n) == goal
        decreases |items| - i
      {
        var j1 := 2 * i + 1;
        if j1 >= n {
          break;
        }
        var j := j1;
        var j2 := j1 + 1;
        if j2 < n && less(items[j2], items[j1]) {
          j := j2;
        }
        if !less(items[j], items[i]) {
          break;
        }
        Swap(i, j);
        i := j;
      }
      moved := i > i0;
    }

    method DownElseUp(i: nat, n: nat)
      requires i < n <= |items|
      modifies this
      ensures items == SiftEither(less, old(items), i, n)
    {
      var moved := Down(i, n);
      if !moved {
        Up(i);
      }
    }

    method Init()
      requires StrictWeakOrder(less)
      modifies this
      ensures Valid() && multiset(items) == multiset(old(items))
    {
      var n := |items|;
      var i := n / 2;
      while i > 0
        invariant 0 <= i <= n / 2 && |items| == n
        invariant multiset(items) == multiset(old(items))
        invariant OrderedFrom(less, items, n, i)
      {
        i := i - 1;
        assert DownReady(less, items, i, n, i);
        SiftDownOrders(less, items, i, n, i);
        var _ := Down(i, n);
      }
    }

    method Push(x: T)
      requires Valid()
      modifies this
      ensures Valid() && items == Pushed(less, old(items), x)
    {
      PushOrders(less, items, x);
      items := items + [x];
      Up(|items| - 1);
    }

    method Pop() returns (x: T)
      requires Valid() && items != []
      modifies this
      ensures Valid() && items == Popped(less, old(items))
      ensures x == old(items)[0] && forall y :: y in old(items) ==> !less(y, x)
    {
      PopOrders(less, items);
      var n := |items| - 1;
      Swap(0, n);
      var _ := Down(0, n);
      assert items[n] == items[n..][0];
      x := items[n];
      items := items[..n];
    }

    method Remove(i: nat) returns (x: T)
      requires Valid() && i < |items|
      modifies this
      ensures Valid() && items == RemovedAt(less, old(items), i) && x == old(items)[i]
    {
      hide SiftEither, Ordered;
      RemoveOrders(less, items, i);
      var n := |items| - 1;
      if n != i {
        Swap(i, n);
        DownElseUp(i, n);
      }
      assert items[n] == items[n..][0];
      x := items[n];
      items := items[..n];
    }

    /** `before` is the heap before its element `i` was overwritten. */
    method Fix(i: nat, ghost before: seq<T>)
      requires StrictWeakOrder(less) && Ordered(less, before)
      requires i < |items| && |before| == |items| && before[i := items[i]] == items
      modifies this
      ensures Valid() && multiset(items) == multiset(old(items))
    {
      FixOrders(less, before, i, items[i]);
      DownElseUp(i, |items|);
    }
  }
}
