/**
  The store of pkg/tinykv/tinykv.go as the object it is: a map and a heap updated in place.
  Every method is proved to make exactly the `TinyKV.Step` of its call, whatever the clock
  says while it runs and in whatever order maps are iterated.
*/
module Store {
  import opened Common
  import opened Heaps
  import opened TinyKV
  import opened Snapshots

  /** `time.Now`: any amount of time may pass between two readings, but never backwards. */
  class Clock {
    var now: int

    constructor () {
      now := 0;
    }

    method Now() returns (t: int)
      modifies this
      ensures old(now) <= t == now
    {
      var passed: int := *;
      if passed > 0 {
        now := now + passed;
      }
      t := now;
    }
  }

  class Store<V> {
    var kv: map<string, Entry<V>>
    const heap: Heap<Timeout>
    /** The maps handed to `notifyExpirations`, oldest first; empty ones announce nothing. */
    var announced: seq<map<string, V>>

    function Contents(): State<V>
      reads this, heap
    {
      State(kv, heap.items)
    }

    ghost predicate Valid()
      reads this, heap
    {
      heap.less == Before && Indexed(Contents())
    }

    constructor ()
      ensures Valid() && fresh(heap) && Contents() == Empty() && announced == []
    {
      kv := map[];
      heap := new Heap(Before);
      announced := [];
    }

    method Put(k: string, v: V, expiresAfter: int, clock: Clock) returns (ghost op: Op<V>)
      requires Valid()
      modifies this, heap, clock
      ensures Valid() && op == Op<V>.Put(k, v, expiresAfter, clock.now)
      ensures old(clock.now) <= clock.now && ReadsWithin(op, old(clock.now), clock.now)
      ensures Contents() == Step(old(Contents()), op).state && announced == old(announced)
    {
      hide Pushed, Ordered;
      var now := clock.Now();
      op := Op<V>.Put(k, v, expiresAfter, now);
      StepKeepsIndex(Contents(), op, now, now);
      var timeout := Timeout(now + expiresAfter, expiresAfter, k);
      heap.Push(timeout);
      kv := kv[k := Entry(timeout, v)];
    }

    method Delete(k: string)
      requires Valid()
      modifies this
      ensures Valid() && announced == old(announced)
      ensures Contents() == Step(old(Contents()), Op<V>.Delete(k)).state
    {
      kv := kv - {k};
    }

    method Get(k: string, clock: Clock) returns (v: Option<V>, ghost op: Op<V>)
      requires Valid()
      modifies this, clock
      ensures Valid() && op.Get? && op.key == k && ReadsWithin(op, old(clock.now), clock.now)
      ensures Contents() == Step(old(Contents()), op).state
      ensures Step(old(Contents()), op).answer == Found(v)
      ensures announced == old(announced) + Told(Step(old(Contents()), op).notified)
      ensures old(kv.Keys) <= kv.Keys ==> announced == old(announced)
      ensures !(old(kv.Keys) <= kv.Keys) ==>
        announced == old(announced) + [map k | k in old(kv) && k !in kv :: old(kv)[k].value]
    {
      op := Op<V>.Get(k, clock.now);
      if k !in kv {
        return None, op;
      }
      var e := kv[k];
      var now := clock.Now();
      op := Op<V>.Get(k, now);
      if Expired(e.timeout, now) {
        announced := announced + [map[k := e.value]];
        kv := kv - {k};
        DepartedAre(old(kv), map[k := e.value]);
        assert map[k := e.value].Keys == {k};
        return None, op;
      }
      return Some(e.value), op;
    }

    /** The snapshot `Range` takes under the lock, before it calls back. */
    method Range(clock: Clock) returns (live: map<string, (V, int)>, ghost op: Op<V>)
      requires Valid()
      modifies clock
      ensures Valid() && op.Range? && ReadsWithin(op, old(clock.now), clock.now)
      ensures Step(Contents(), op).answer == Seen(live)
    {
      hide Indexed, Step;
      live := map[];
      var todo := kv.Keys;
      ghost var lo := clock.now;
      ghost var at: map<string, int> := map[];
      while todo != {}
        invariant todo <= kv.Keys && at.Keys == kv.Keys - todo
        invariant lo <= clock.now && forall k :: k in at ==> lo <= at[k] <= clock.now
        invariant forall k :: k in live <==> k in at && !Expired(kv[k].timeout, at[k])
        invariant forall k :: k in live ==> live[k] == (kv[k].value, kv[k].timeout.expiresAt)
        decreases |todo|
      {
        var k :| k in todo;
        todo := todo - {k};
        var e := kv[k];
        var now := clock.Now();
        at := at[k := now];
        if !Expired(e.timeout, now) {
          live := live[k := (e.value, e.timeout.expiresAt)];
        }
      }
      ghost var hi := clock.now;
      op := Op<V>.Range(k => if k in at then at[k] else hi);
      RangeSees(Contents(), op, live);
    }

    /** One sweep; also computes how long `expireLoop` should wait for the next. */
    method ExpireFunc(clock: Clock) returns (interval: int, ghost op: Op<V>)
      requires Valid()
      modifies this, heap, clock
      ensures Valid() && op.Sweep? && ReadsWithin(op, old(clock.now), clock.now)
      ensures Contents() == Step(old(Contents()), op).state
      ensures announced == old(announced) + Told(Step(old(Contents()), op).notified)
      ensures old(kv.Keys) <= kv.Keys ==> announced == old(announced)
      ensures !(old(kv.Keys) <= kv.Keys) ==>
        announced == old(announced) + [map k | k in old(kv) && k !in kv :: old(kv)[k].value]
      ensures heap.items == [] ==> interval == 0
      ensures heap.items != [] ==> TimeLeft(heap.items[0], interval, old(clock.now), clock.now)
    {
      hide Popped, Ordered, Popping, Step, Indexed;
      ghost var before := Contents();
      ghost var ticks: seq<int>, stop: Option<nat>, candidates: set<string>;
      var expired: map<string, V>;
      ticks, stop, candidates, interval, expired := PopExpired(clock);
      ghost var mid := clock.now;
      ghost var tick: nat -> int := (i: nat) => if i < |ticks| then ticks[i] else mid;
      ghost var at;
      expired, at := DropRenewed(expired, clock);
      op := Op<V>.Sweep(tick, at);
      StepKeepsIndex(before, op, old(clock.now), clock.now);
      SweepTakes(before, op, Pass(heap.items, candidates, stop), expired);
      DepartedAre(kv, expired);
      kv := kv - expired.Keys;
      if expired != map[] {
        announced := announced + [expired];
      }
      if interval == 0 && |heap.items| > 0 {
        var last := heap.items[0];
        var now := clock.Now();
        interval := last.expiresAt - now;
        if interval < 0 {
          interval := last.expiresAfter;
        }
        assert interval == Left(last, now);
      }
    }

    /** The loop of `expireFunc` that takes back candidates whose key was renewed meanwhile. */
    method DropRenewed(candidates: map<string, V>, clock: Clock)
      returns (expired: map<string, V>, ghost at: string -> int)
      requires candidates.Keys <= kv.Keys
      modifies clock
      ensures old(clock.now) <= clock.now && forall k :: old(clock.now) <= at(k) <= clock.now
      ensures expired == map k | k in candidates && Expired(kv[k].timeout, at(k)) :: candidates[k]
    {
      expired := candidates;
      var todo := candidates.Keys;
      ghost var read: map<string, int> := map[];
      while todo != {}
        invariant todo <= candidates.Keys && read.Keys == candidates.Keys - todo
        invariant old(clock.now) <= clock.now && forall k :: k in read ==> old(clock.now) <= read[k] <= clock.now
        invariant forall k :: k in expired <==>
                    k in candidates && (k in read ==> Expired(kv[k].timeout, read[k]))
        invariant forall k :: k in expired ==> expired[k] == candidates[k]
        decreases |todo|
      {
        var k :| k in todo;
        todo := todo - {k};
        var current := kv[k];
        var now := clock.Now();
        read := read[k := now];
        if !Expired(current.timeout, now) {
          expired := expired - {k};
        }
      }
      ghost var hi := clock.now;
      at := k => if k in read then read[k] else hi;
    }

    method MarshalJSON() returns (snap: Snapshot<V>)
      ensures snap == Saved(Contents())
    {
      snap := map k | k in kv :: (kv[k].value, kv[k].timeout.expiresAt);
    }

    /** Decodes every entry, then puts those that were not expired, in any order. */
    method UnmarshalJSON(snap: Snapshot<V>, clock: Clock) returns (ghost order: seq<string>, ghost r: Readings)
      requires Valid()
      modifies this, heap, clock
      ensures Valid() && announced == old(announced)
      ensures Enumerates(order, snap.Keys) && LoadedWithin(r, old(clock.now), clock.now)
      ensures Contents() == Loaded(old(Contents()), snap, order, r)
    {
      hide Step, Indexed, Loaded, Enumerates;
      ghost var before := Contents();
      var entries: map<string, int>;
      ghost var after: string -> int, until: string -> int, put: map<string, int>;
      entries, after, until := Decode(snap, clock);
      order, put := PutDecoded(snap, entries, after, until, clock);
      r := Readings(after, until, ReadOr(put, clock.now));
    }

    method PutDecoded(snap: Snapshot<V>, entries: map<string, int>, ghost after: string -> int,
                      ghost until: string -> int, clock: Clock)
      returns (ghost order: seq<string>, ghost put: map<string, int>)
      requires Valid()
      requires entries == map k | k in snap && snap[k].1 > after(k) :: snap[k].1 - until(k)
      modifies this, heap, clock
      ensures Valid() && announced == old(announced) && old(clock.now) <= clock.now
      ensures put.Keys == snap.Keys && Progress(snap, order, put, old(clock.now), clock.now)
      ensures Contents() == Loaded(old(Contents()), snap, order, Readings(after, until, ReadOr(put, clock.now)))
    {
      hide *;
      ghost var before := Contents();
      put := map[];
      var todo := snap.Keys;
      order := [];
      LoadNothing(before, snap, clock.now);
      while todo != {}
        invariant todo <= snap.Keys && put.Keys == snap.Keys - todo
        invariant Progress(snap, order, put, old(clock.now), clock.now)
        invariant Valid() && announced == old(announced)
        invariant Contents() == Loaded(before, snap, order, Readings(after, until, ReadOr(put, clock.now)))
        decreases |todo|
      {
        var k :| k in todo;
        todo := todo - {k};
        ghost var prior := clock.now;
        if k in entries {
          ghost var op := Put(k, snap[k].0, entries[k], clock);
        }
        LoadOneMore(before, snap, order, k, put, after, until, old(clock.now), prior, clock.now);
        order := order + [k];
        put := put[k := clock.now];
      }
    }

    /** What is left of each entry's time to live, for those not expired. */
    method Decode(snap: Snapshot<V>, clock: Clock)
      returns (entries: map<string, int>, ghost after: string -> int, ghost until: string -> int)
      modifies clock
      ensures old(clock.now) <= clock.now
      ensures forall k :: old(clock.now) <= after(k) <= until(k) <= clock.now
      ensures entries == map k | k in snap && snap[k].1 > after(k) :: snap[k].1 - until(k)
    {
      hide *;
      entries := map[];
      var todo := snap.Keys;
      ghost var read: map<string, (int, int)> := map[];
      while todo != {}
        invariant todo <= snap.Keys && read.Keys == snap.Keys - todo
        invariant old(clock.now) <= clock.now
        invariant forall k :: k in read ==> old(clock.now) <= read[k].0 <= read[k].1 <= clock.now
        invariant forall k :: k in entries <==> k in read && snap[k].1 > read[k].0
        invariant forall k :: k in entries ==> entries[k] == snap[k].1 - read[k].1
        decreases |todo|
      {
        var k :| k in todo;
        todo := todo - {k};
        var now := clock.Now();
        read := read[k := (now, now)];
        if snap[k].1 > now {
          var later := clock.Now();
          read := read[k := (now, later)];
          entries := entries[k := snap[k].1 - later];
        }
      }
      ghost var hi := clock.now;
      after := k => if k in read then read[k].0 else hi;
      until := k => if k in read then read[k].1 else hi;
    }

    /** The loop of `expireFunc` that pops dead and expired timeouts off the heap. */
    method PopExpired(clock: Clock)
      returns (ghost ticks: seq<int>, ghost stop: Option<nat>, ghost candidates: set<string>,
               interval: int, expired: map<string, V>)
      requires Valid()
      modifies heap, clock
      ensures old(clock.now) <= clock.now
      ensures forall i :: 0 <= i < |ticks| ==> old(clock.now) <= ticks[i] <= clock.now
      ensures forall i, j :: 0 <= i <= j < |ticks| ==> ticks[i] <= ticks[j]
      ensures forall tick: nat -> int :: (forall i: nat :: i < |ticks| ==> tick(i) == ticks[i]) ==>
                Popping(kv, old(heap.items), 0, {}, tick) == Pass(heap.items, candidates, stop)
      ensures expired.Keys == candidates <= kv.Keys
      ensures forall k :: k in expired ==> expired[k] == kv[k].value
      ensures interval != 0 ==> heap.items != [] && TimeLeft(heap.items[0], interval, old(clock.now), clock.now)
    {
      hide Popped, Ordered;
      interval := 0;
      expired := map[];
      ticks, stop, candidates := [], None, {};
      var c := -1;
      while |heap.items| > 0
        invariant c + 1 == |ticks| && heap.less == Before && Ordered(Before, heap.items)
        invariant old(clock.now) <= clock.now
        invariant forall i :: 0 <= i < |ticks| ==> old(clock.now) <= ticks[i] <= clock.now
        invariant forall i, j :: 0 <= i <= j < |ticks| ==> ticks[i] <= ticks[j]
        invariant expired.Keys == candidates <= kv.Keys && forall k :: k in expired ==> expired[k] == kv[k].value
        invariant forall tick: nat -> int :: (forall i: nat :: i < |ticks| ==> tick(i) == ticks[i]) ==>
                    Popping(kv, old(heap.items), 0, {}, tick)
                    == Popping(kv, heap.items, |ticks|, candidates, tick)
        invariant interval == 0 && stop == None
        decreases |heap.items|
      {
        c := c + 1;
        if c >= |heap.items| {
          break;
        }
        var last := heap.items[0];
        if last.key !in kv {
          ticks := ticks + [clock.now];
          var _ := heap.Pop();
          continue;
        }
        var entry := kv[last.key];
        var now := clock.Now();
        ticks := ticks + [now];
        if !Expired(last, now) {
          stop := Some(c);
          var again := clock.Now();
          interval := last.expiresAt - again;
          if interval < 0 {
            interval := last.expiresAfter;
          }
          assert interval == Left(last, again);
          break;
        }
        last := heap.Pop();
        expired := expired[last.key := entry.value];
        candidates := candidates + {last.key};
      }
    }
  }

  /**
    `expireLoop`: the wait before the next sweep, from the current one and what the sweep
    returned. It never reaches zero and never exceeds the configured interval, so the
    one-millisecond fallback is not needed.
  */
  function NextInterval(interval: int, returned: int, expirationInterval: int): (r: int)
    requires 0 < interval <= expirationInterval
    ensures 0 < r <= expirationInterval
  {
    var v := if returned < 0 then -returned else returned;
    var next := if 0 < v <= expirationInterval then (2 * interval + v) / 3 else interval;
    if next <= 0 then 1_000_000 else next
  }

  function Distance(a: int, b: int): nat {
    if a < b then b - a else a - b
  }

  /**
    The wait follows the deadlines: what a sweep returns, of either sign, brings it a third of
    the way there, rounding apart, unless it is zero or longer than the configured interval.
  */
  lemma NextIntervalFollows(interval: int, returned: int, expirationInterval: int)
    requires 0 < interval <= expirationInterval
    ensures var r, v := NextInterval(interval, returned, expirationInterval), Distance(returned, 0);
      if 0 < v <= expirationInterval
      then (interval <= r <= v || v <= r <= interval)
           && 3 * Distance(interval, r) <= Distance(interval, v) + 2
           && 3 * Distance(r, v) <= 2 * Distance(interval, v) + 2
      else r == interval
  {
  }

  function ReadOr(read: map<string, int>, otherwise: int): string -> int {
    k => if k in read then read[k] else otherwise
  }

  /** The keys in `order` have been handled, at the times `put`. */
  ghost predicate Progress<V>(snap: Snapshot<V>, order: seq<string>, put: map<string, int>, lo: int, now: int)
    ensures Progress(snap, order, put, lo, now) ==> lo <= now && forall k :: k in order ==> k in snap
  {
    && lo <= now && put.Keys <= snap.Keys && Enumerates(order, put.Keys)
    && forall k :: k in put ==> lo <= put[k] <= now
  }

  lemma LoadNothing<V>(s: State<V>, snap: Snapshot<V>, now: int)
    ensures Progress(snap, [], map[], now, now)
    ensures forall r :: Loaded(s, snap, [], r) == s
  {
  }

  lemma {:induction false} LoadReadsOnlyItsKeys<V>(s: State<V>, snap: Snapshot<V>, order: seq<string>, r: Readings,
                                                   r': Readings)
    requires forall k :: k in order ==> k in snap
    requires forall k :: k in order ==>
      r.after(k) == r'.after(k) && r.until(k) == r'.until(k) && r.put(k) == r'.put(k)
    ensures Loaded(s, snap, order, r) == Loaded(s, snap, order, r')
  {
    hide Step;
    if order != [] {
      LoadReadsOnlyItsKeys(s, snap, Front(order), r, r');
    }
  }

  lemma {:induction false} LoadOneMore<V>(s: State<V>, snap: Snapshot<V>, order: seq<string>, k: string,
                                          put: map<string, int>,
                                          after: string -> int, until: string -> int, lo: int, prior: int, now: int)
    requires Progress(snap, order, put, lo, prior) && k !in put && k in snap && prior <= now
    ensures Progress(snap, order + [k], put[k := now], lo, now)
    ensures var t := Loaded(s, snap, order, Readings(after, until, ReadOr(put, prior)));
      Loaded(s, snap, order + [k], Readings(after, until, ReadOr(put[k := now], now))) ==
        if snap[k].1 > after(k) then Step(t, Op<V>.Put(k, snap[k].0, snap[k].1 - until(k), now)).state else t
  {
    hide Step, Progress;
    ProgressOneMore(snap, order, k, put, lo, prior, now);
    var r := Readings(after, until, ReadOr(put[k := now], now));
    assert Front(order + [k]) == order && Last(order + [k]) == k;
    assert r.put(k) == now;
    LoadReadsOnlyItsKeys(s, snap, order, Readings(after, until, ReadOr(put, prior)), r);
  }

  lemma ProgressOneMore<V>(snap: Snapshot<V>, order: seq<string>, k: string, put: map<string, int>,
                           lo: int, prior: int, now: int)
    requires Progress(snap, order, put, lo, prior) && k !in put && k in snap && prior <= now
    ensures Progress(snap, order + [k], put[k := now], lo, now)
    ensures forall j :: j in order ==> j in put
  {
    assert put[k := now].Keys == put.Keys + {k};
  }

  lemma RangeSees<V>(s: State<V>, op: Op<V>, live: map<string, (V, int)>)
    requires op.Range?
    requires forall k :: k in live <==> k in s.kv && !Expired(s.kv[k].timeout, op.at(k))
    requires forall k :: k in live ==> live[k] == (s.kv[k].value, s.kv[k].timeout.expiresAt)
    ensures Step(s, op).answer == Seen(live)
  {
    assert live == Step(s, op).answer.live;
  }

  lemma SweepTakes<V>(s: State<V>, op: Op<V>, p: Pass, expired: map<string, V>)
    requires op.Sweep? && Popping(s.kv, s.heap, 0, {}, op.tick) == p
    requires expired.Keys == Gone(s.kv, p.candidates, op.at)
    requires forall k :: k in expired ==> expired[k] == s.kv[k].value
    ensures Step(s, op).state == State(s.kv - expired.Keys, p.heap) && Step(s, op).notified == expired
  {
    hide Popping;
    var notified := Step(s, op).notified;
    assert notified.Keys == expired.Keys;
    assert forall k :: k in expired ==> notified[k] == expired[k];
  }

  lemma DepartedAre<V>(before: map<string, Entry<V>>, expired: map<string, V>)
    requires forall k :: k in expired ==> k in before && expired[k] == before[k].value
    ensures var after := before - expired.Keys;
      && (before.Keys <= after.Keys <==> expired == map[])
      && (map k | k in before && k !in after :: before[k].value) == expired
  {
    if expired != map[] {
      var k :| k in expired;
      assert k in before && k !in before - expired.Keys;
    }
  }

  /** How long the root of the heap has left at some instant of the call; its whole life once it has lapsed. */
  ghost predicate TimeLeft(root: Timeout, interval: int, lo: int, hi: int) {
    exists now :: lo <= now <= hi && interval == Left(root, now)
  }

  function Left(root: Timeout, now: int): (left: int)
    ensures now <= root.expiresAt ==> left >= 0 && now + left == root.expiresAt
    ensures now > root.expiresAt ==> left == root.expiresAfter
  {
    if root.expiresAt < now then root.expiresAfter else root.expiresAt - now
  }
}
