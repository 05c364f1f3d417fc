/**
  The expiring store of pkg/tinykv/tinykv.go as a state machine on values: one `Step` per
  call that holds the store's mutex. Clock readings are part of the operation, because a
  call may read the clock several times and time passes in between.
*/
module TinyKV {
  import opened Common
  import opened Heaps

  // ---------- State ----------

  /** Never assigned after `newTimeout`, so the pointer shared by heap and map is a shared value here. */
  datatype Timeout = Timeout(expiresAt: int, expiresAfter: int, key: string)

  datatype Entry<V> = Entry(timeout: Timeout, value: V)

  datatype State<V> = State(kv: map<string, Entry<V>>, heap: seq<Timeout>)

  predicate Expired(t: Timeout, now: int) {
    now > t.expiresAt
  }

  predicate Before(a: Timeout, b: Timeout) {
    a.expiresAt < b.expiresAt
  }

  function Empty<V>(): State<V> {
    State(map[], [])
  }

  // ---------- Operations ----------

  /**
    One call on the store, with what it reads from the clock: `tick(c)` in round `c` of the
    sweep's loop, `at(k)` where entries are examined in map iteration order.
  */
  datatype Op<V> =
    | Put(key: string, value: V, after: int, now: int)
    | Delete(key: string)
    | Get(key: string, now: int)
    | Range(at: string -> int)
    | Sweep(tick: nat -> int, at: string -> int)

  datatype Answer<V> =
    | Silent
    | Found(value: Option<V>)
    | Seen(live: map<string, (V, int)>)

  /** `notified` is the map handed to `notifyExpirations`. */
  datatype Effect<V> = Effect(state: State<V>, answer: Answer<V>, notified: map<string, V>)

  /** `stop` is the round whose root was live and not expired, if the loop ended that way. */
  datatype Pass = Pass(heap: seq<Timeout>, candidates: set<string>, stop: Option<nat>)

  /** The popping loop of `expireFunc`; `c` counts rounds, while the heap shrinks below it. */
  function Popping<V>(kv: map<string, Entry<V>>, heap: seq<Timeout>, c: nat, candidates: set<string>,
                      tick: nat -> int): (p: Pass)
    decreases |heap|
  {
    if heap == [] || c >= |heap| then Pass(heap, candidates, None)
    else if heap[0].key !in kv then Popping(kv, Popped(Before, heap), c + 1, candidates, tick)
    else if !Expired(heap[0], tick(c)) then Pass(heap, candidates, Some(c))
    else Popping(kv, Popped(Before, heap), c + 1, candidates + {heap[0].key}, tick)
  }

  /** The candidates that the second loop of `expireFunc` does not take back. */
  function Gone<V>(kv: map<string, Entry<V>>, candidates: set<string>, at: string -> int): set<string> {
    set k | k in candidates && k in kv && Expired(kv[k].timeout, at(k))
  }

  function Swept<V>(s: State<V>, tick: nat -> int, at: string -> int): Effect<V> {
    var p := Popping(s.kv, s.heap, 0, {}, tick);
    var gone := Gone(s.kv, p.candidates, at);
    Effect(State(s.kv - gone, p.heap), Silent, map k | k in gone && k in s.kv :: s.kv[k].value)
  }

  function Step<V>(s: State<V>, op: Op<V>): Effect<V> {
    match op
    case Put(k, v, after, now) =>
      var t := Timeout(now + after, after, k);
      Effect(State(s.kv[k := Entry(t, v)], Pushed(Before, s.heap, t)), Silent, map[])
    case Delete(k) =>
      Effect(s.(kv := s.kv - {k}), Silent, map[])
    case Get(k, now) =>
      if k !in s.kv then Effect(s, Found(None), map[])
      else if Expired(s.kv[k].timeout, now) then
        Effect(s.(kv := s.kv - {k}), Found(None), map[k := s.kv[k].value])
      else Effect(s, Found(Some(s.kv[k].value)), map[])
    case Range(at) =>
      Effect(s, Seen(map k | k in s.kv && !Expired(s.kv[k].timeout, at(k)) ::
                       (s.kv[k].value, s.kv[k].timeout.expiresAt)), map[])
    case Sweep(tick, at) => Swept(s, tick, at)
  }

  /** What `Put` and `Delete` do to the map. */
  function WriteThrough<V>(kv: map<string, Entry<V>>, op: Op<V>): map<string, Entry<V>>
    requires op.Put? || op.Delete?
  {
    if op.Put? then kv[op.key := Entry(Timeout(op.now + op.after, op.after, op.key), op.value)]
    else kv - {op.key}
  }

  lemma WritesReachTheMap<V>(s: State<V>, op: Op<V>)
    requires op.Put? || op.Delete?
    ensures Step(s, op).state.kv == WriteThrough(s.kv, op) && Step(s, op).notified == map[]
    ensures op.Put? ==> op.key in Step(s, op).state.kv
    ensures op.Put? ==>
      var e := Step(s, op).state.kv[op.key];
      && e.value == op.value && e.timeout.key == op.key
      && e.timeout.expiresAfter == op.after && e.timeout.expiresAt - op.now == op.after
  {
  }

  /** All readings of one call fall between `lo` and `hi` and come in the order of the source. */
  ghost predicate ReadsWithin<V>(op: Op<V>, lo: int, hi: int) {
    lo <= hi &&
    match op
    case Put(_, _, _, now) => lo <= now <= hi
    case Delete(_) => true
    case Get(_, now) => lo <= now <= hi
    case Range(at) => forall k :: lo <= at(k) <= hi
    case Sweep(tick, at) =>
      && (forall i: nat :: lo <= tick(i) <= hi)
      && (forall i: nat, j: nat :: i <= j ==> tick(i) <= tick(j))
      && (forall i: nat, k :: tick(i) <= at(k))
      && (forall k :: at(k) <= hi)
  }

  // ---------- Runs ----------

  /** The clock never runs backwards: call `i` reads it between `clock[i]` and `clock[i + 1]`. */
  ghost predicate Paced<V>(ops: seq<Op<V>>, clock: seq<int>) {
    |clock| == |ops| + 1 && forall i :: 0 <= i < |ops| ==> ReadsWithin(ops[i], clock[i], clock[i + 1])
  }

  /** What reaches the expiry callback of one call: a map, unless it is empty. */
  function Told<V>(notified: map<string, V>): seq<map<string, V>> {
    if notified == map[] then [] else [notified]
  }

  function After<V>(s: State<V>, ops: seq<Op<V>>): State<V> {
    if ops == [] then s else Step(After(s, Front(ops)), Last(ops)).state
  }

  /** What callers see over a run: the results of `Get` and `Range`. */
  function Answers<V>(s: State<V>, ops: seq<Op<V>>): seq<Answer<V>> {
    if ops == [] then []
    else
      var a := Step(After(s, Front(ops)), Last(ops)).answer;
      Answers(s, Front(ops)) + if a.Silent? then [] else [a]
  }

  lemma PacedFront<V>(ops: seq<Op<V>>, clock: seq<int>)
    requires Paced(ops, clock) && ops != []
    ensures Paced(Front(ops), Front(clock))
    ensures ReadsWithin(Last(ops), Last(Front(clock)), Last(clock))
  {
  }

  // ---------- The plain map the store must look like ----------

  /** Last put value and deadline of every key put and not deleted since; nothing ever expires. */
  type Plain<V> = map<string, (V, int)>

  function PlainStep<V>(p: Plain<V>, op: Op<V>): Plain<V> {
    match op
    case Put(k, v, after, now) => p[k := (v, now + after)]
    case Delete(k) => p - {k}
    case Get(_, _) => p
    case Range(_) => p
    case Sweep(_, _) => p
  }

  function PlainAnswer<V>(p: Plain<V>, op: Op<V>): Answer<V> {
    match op
    case Get(k, now) => Found(if k in p && now <= p[k].1 then Some(p[k].0) else None)
    case Range(at) => Seen(map k | k in p && at(k) <= p[k].1 :: p[k])
    case _ => Silent
  }

  function PlainAfter<V>(ops: seq<Op<V>>): Plain<V> {
    if ops == [] then map[] else PlainStep(PlainAfter(Front(ops)), Last(ops))
  }

  function PlainAnswers<V>(ops: seq<Op<V>>): seq<Answer<V>> {
    if ops == [] then []
    else
      var a := PlainAnswer(PlainAfter(Front(ops)), Last(ops));
      PlainAnswers(Front(ops)) + if a.Silent? then [] else [a]
  }

  /** What the store holds is the plain map minus keys whose deadline has already passed. */
  ghost predicate Agrees<V>(s: State<V>, p: Plain<V>, now: int) {
    && (forall k :: k in s.kv ==> k in p && p[k] == (s.kv[k].value, s.kv[k].timeout.expiresAt))
    && (forall k :: k in p && k !in s.kv ==> now > p[k].1)
  }

  lemma StepAgrees<V>(s: State<V>, p: Plain<V>, op: Op<V>, lo: int, hi: int)
    requires Agrees(s, p, lo) && ReadsWithin(op, lo, hi)
    ensures Agrees(Step(s, op).state, PlainStep(p, op), hi)
    ensures Step(s, op).answer == PlainAnswer(p, op)
  {
    hide Swept, Pushed;
    match op
    case Get(k, now) => GetAgrees(s, p, k, now);
    case Range(at) => RangeAgrees(s, p, at, lo, hi);
    case Sweep(tick, at) => SweepAgrees(s, p, tick, at, hi);
    case _ =>
  }

  lemma SweepAgrees<V>(s: State<V>, p: Plain<V>, tick: nat -> int, at: string -> int, hi: int)
    requires Agrees(s, p, hi) && forall k :: at(k) <= hi
    ensures Agrees(Swept(s, tick, at).state, p, hi) && Swept(s, tick, at).answer == Silent
  {
    hide Popping;
    var gone := Gone(s.kv, Popping(s.kv, s.heap, 0, {}, tick).candidates, at);
    forall k | k in gone ensures hi > p[k].1 {
      assert at(k) <= hi;
    }
  }

  lemma GetAgrees<V>(s: State<V>, p: Plain<V>, k: string, now: int)
    requires Agrees(s, p, now)
    ensures Agrees(Step(s, Op<V>.Get(k, now)).state, p, now)
    ensures Step(s, Op<V>.Get(k, now)).answer == PlainAnswer(p, Op<V>.Get(k, now))
  {
  }

  lemma RangeAgrees<V>(s: State<V>, p: Plain<V>, at: string -> int, lo: int, hi: int)
    requires Agrees(s, p, lo) && ReadsWithin(Op<V>.Range(at), lo, hi)
    ensures Step(s, Op<V>.Range(at)).answer == PlainAnswer(p, Op<V>.Range(at))
  {
    var live := Step(s, Op<V>.Range(at)).answer.live;
    var plain := PlainAnswer(p, Op<V>.Range(at)).live;
    forall k ensures k in live <==> k in plain {
      assert lo <= at(k);
    }
    assert live == plain;
  }

  /**
    Store refinement: whatever calls and sweeps are interleaved, `Get` and `Range` answer
    exactly as the plain map does.
  */
  lemma {:induction false} StoreRefinesPlainMap<V>(ops: seq<Op<V>>, clock: seq<int>)
    requires Paced(ops, clock)
    ensures Agrees(After(Empty(), ops), PlainAfter(ops), Last(clock))
    ensures Answers(Empty(), ops) == PlainAnswers(ops)
  {
    if ops != [] {
      PacedFront(ops, clock);
      StoreRefinesPlainMap(Front(ops), Front(clock));
      StepAgrees(After(Empty(), Front(ops)), PlainAfter(Front(ops)), Last(ops), Last(Front(clock)), Last(clock));
    }
  }

  function WithoutSweeps<V>(ops: seq<Op<V>>): seq<Op<V>> {
    if ops == [] then []
    else WithoutSweeps(Front(ops)) + if Last(ops).Sweep? then [] else [Last(ops)]
  }

  lemma {:induction false} PlainIgnoresSweeps<V>(ops: seq<Op<V>>)
    ensures PlainAfter(WithoutSweeps(ops)) == PlainAfter(ops)
    ensures PlainAnswers(WithoutSweeps(ops)) == PlainAnswers(ops)
  {
    if ops != [] {
      PlainIgnoresSweeps(Front(ops));
      var kept := WithoutSweeps(Front(ops));
      assert Front(kept + [Last(ops)]) == kept;
      assert kept + [] == kept;
    }
  }

  /** When and how often sweeps run cannot be told from the answers. */
  lemma {:induction false} SweepsAreUnobservable<V>(ops1: seq<Op<V>>, clock1: seq<int>, ops2: seq<Op<V>>,
                                                    clock2: seq<int>)
    requires Paced(ops1, clock1) && Paced(ops2, clock2)
    requires WithoutSweeps(ops1) == WithoutSweeps(ops2)
    ensures Answers(Empty(), ops1) == Answers(Empty(), ops2)
  {
    StoreRefinesPlainMap(ops1, clock1);
    StoreRefinesPlainMap(ops2, clock2);
    PlainIgnoresSweeps(ops1);
    PlainIgnoresSweeps(ops2);
  }

  // ---------- The heap as an index of the map ----------

  /** The heap is ordered and, stale timeouts apart, holds the own timeout of every entry. */
  ghost predicate Indexed<V>(s: State<V>) {
    && Ordered(Before, s.heap)
    && forall k :: k in s.kv ==> s.kv[k].timeout.key == k && s.kv[k].timeout in s.heap
  }

  /** A timeout that some round of the sweep saw expired. */
  ghost predicate Lapsed(t: Timeout, tick: nat -> int) {
    exists i: nat :: Expired(t, tick(i))
  }

  lemma {:induction false} PoppingKeepsIndex<V>(kv: map<string, Entry<V>>, heap: seq<Timeout>, c: nat,
                                                candidates: set<string>, tick: nat -> int)
    requires Ordered(Before, heap)
    ensures var p := Popping(kv, heap, c, candidates, tick);
      && Ordered(Before, p.heap)
      && candidates <= p.candidates
      && (forall t :: t in heap ==>
            t in p.heap || t.key !in kv || (t.key in p.candidates && Lapsed(t, tick)))
      && (p.stop.Some? ==> forall t :: t in p.heap ==> tick(p.stop.value) <= t.expiresAt)
    decreases |heap|
  {
    hide Popped;
    if heap == [] || c >= |heap| {
    } else {
      PopOrders(Before, heap);
      var rest := Popped(Before, heap);
      assert forall t :: t in heap ==> t in multiset(rest) || t == heap[0] by {
        forall t | t in heap ensures t in multiset(rest) || t == heap[0] {
          assert t in multiset(heap);
        }
      }
      if heap[0].key !in kv {
        PoppingKeepsIndex(kv, rest, c + 1, candidates, tick);
      } else if Expired(heap[0], tick(c)) {
        assert Lapsed(heap[0], tick);
        PoppingKeepsIndex(kv, rest, c + 1, candidates + {heap[0].key}, tick);
      }
    }
  }

  lemma PutKeepsIndex<V>(s: State<V>, k: string, v: V, t: Timeout)
    requires Indexed(s) && t.key == k
    ensures Indexed(State(s.kv[k := Entry(t, v)], Pushed(Before, s.heap, t)))
  {
    hide Pushed, Ordered;
    PushOrders(Before, s.heap, t);
    var heap := Pushed(Before, s.heap, t);
    forall u ensures u in heap <==> u in s.heap || u == t {
      assert u in heap <==> u in multiset(heap);
    }
  }

  lemma SweepKeepsIndex<V>(s: State<V>, tick: nat -> int, at: string -> int)
    requires Indexed(s) && forall i: nat, k :: tick(i) <= at(k)
    ensures Indexed(Swept(s, tick, at).state)
  {
    PoppingKeepsIndex(s.kv, s.heap, 0, {}, tick);
    hide Popping, Ordered;
    var r := Swept(s, tick, at).state;
    forall k | k in r.kv ensures r.kv[k].timeout in r.heap {
      var t := s.kv[k].timeout;
      if Lapsed(t, tick) {
        var i: nat :| Expired(t, tick(i));
        assert tick(i) <= at(k);
      }
    }
  }

  lemma StepKeepsIndex<V>(s: State<V>, op: Op<V>, lo: int, hi: int)
    requires Indexed(s) && ReadsWithin(op, lo, hi)
    ensures Indexed(Step(s, op).state)
  {
    hide Pushed, Popping, Ordered, Swept;
    match op
    case Put(k, v, after, now) => PutKeepsIndex(s, k, v, Timeout(now + after, after, k));
    case Sweep(tick, at) => SweepKeepsIndex(s, tick, at);
    case _ =>
  }

  /** Every state a run can reach is indexed. */
  lemma {:induction false} RunKeepsIndex<V>(s: State<V>, ops: seq<Op<V>>, clock: seq<int>)
    requires Indexed(s) && Paced(ops, clock)
    ensures Indexed(After(s, ops))
  {
    if ops != [] {
      PacedFront(ops, clock);
      RunKeepsIndex(s, Front(ops), Front(clock));
      StepKeepsIndex(After(s, Front(ops)), Last(ops), Last(Front(clock)), Last(clock));
    }
  }

  // ---------- How much one sweep does ----------

  /**
    A sweep of `n` timeouts either stops at a live, unexpired root or leaves at most half
    of them; it never removes more than the larger half.
  */
  lemma {:induction false} PoppingHalves<V>(kv: map<string, Entry<V>>, heap: seq<Timeout>, c: nat,
                                            candidates: set<string>, tick: nat -> int)
    requires c <= |heap| + 1
    ensures var p := Popping(kv, heap, c, candidates, tick);
      && (p.stop.None? ==> 2 * |p.heap| <= |heap| + c)
      && (p.stop.Some? ==> p.heap != [] && p.heap[0].key in kv && !Expired(p.heap[0], tick(p.stop.value)))
      && |heap| + c <= 2 * |p.heap| + 1
    decreases |heap|
  {
    hide Popped;
    if heap != [] && c < |heap| {
      if heap[0].key !in kv {
        PoppingHalves(kv, Popped(Before, heap), c + 1, candidates, tick);
      } else if Expired(heap[0], tick(c)) {
        PoppingHalves(kv, Popped(Before, heap), c + 1, candidates + {heap[0].key}, tick);
      }
    }
  }

  ghost predicate NothingExpiredAt<V>(s: State<V>, now: int) {
    forall k :: k in s.kv ==> !Expired(s.kv[k].timeout, now)
  }

  /** One `expireFunc` call: halving, or nothing left that was expired when it began. */
  lemma SweepHalvesOrFinishes<V>(s: State<V>, tick: nat -> int, at: string -> int, lo: int, hi: int)
    requires Indexed(s) && ReadsWithin(Op<V>.Sweep(tick, at), lo, hi)
    ensures var r := Swept(s, tick, at).state;
      && |s.heap| / 2 <= |r.heap|
      && (|r.heap| <= |s.heap| / 2 || NothingExpiredAt(r, lo))
      && (Popping(s.kv, s.heap, 0, {}, tick).stop.Some? ==>
            NothingExpiredAt(r, tick(Popping(s.kv, s.heap, 0, {}, tick).stop.value)))
  {
    var op := Op<V>.Sweep(tick, at);
    assert Step(s, op) == Swept(s, tick, at);
    StepKeepsIndex(s, op, lo, hi);
    PoppingHalves(s.kv, s.heap, 0, {}, tick);
    PoppingKeepsIndex(s.kv, s.heap, 0, {}, tick);
    var p := Popping(s.kv, s.heap, 0, {}, tick);
    if p.stop.Some? {
      assert lo <= tick(p.stop.value);
    }
  }

  function KeysOf(timeouts: seq<Timeout>): set<string> {
    set t | t in timeouts :: t.key
  }

  /**
    What rounds `c` and later can take off: of the timeouts in deadline order, dead ones
    included, as many as fit before the counter meets the shrinking length.
  */
  function Due(heap: seq<Timeout>, c: nat): seq<Timeout>
    requires c <= |heap| + 1
  {
    Drained(Before, heap)[..(|heap| - c + 1) / 2]
  }

  lemma DueAfterPop(heap: seq<Timeout>, c: nat)
    requires heap != [] && c < |heap|
    ensures Due(heap, c) == [heap[0]] + Due(Popped(Before, heap), c + 1)
  {
    hide Popped;
    var rest := Popped(Before, heap);
    assert Drained(Before, heap) == [heap[0]] + Drained(Before, rest);
    assert |Drained(Before, rest)| == |rest|;
  }

  lemma NothingDue(heap: seq<Timeout>, c: nat)
    requires |heap| <= c <= |heap| + 1
    ensures Due(heap, c) == []
  {
  }

  lemma DueComeAfterRoot(heap: seq<Timeout>, c: nat)
    requires Ordered(Before, heap) && heap != [] && c < |heap|
    ensures forall t :: t in Due(heap, c) ==> heap[0].expiresAt <= t.expiresAt
  {
    hide Popped, Ordered;
    PopOrders(Before, heap);
    var all := Drained(Before, heap);
    hide Drained;
    forall t | t in Due(heap, c) ensures heap[0].expiresAt <= t.expiresAt {
      assert t in multiset(all) && t in multiset(heap);
      assert !Before(t, heap[0]);
    }
  }

  /**
    The candidates are keys of due timeouts, and all those of them that are in the map and had
    expired at `lo`, however the clock moves on from there.
  */
  lemma {:induction false} PoppingTakesDue<V>(kv: map<string, Entry<V>>, heap: seq<Timeout>, c: nat,
                                              candidates: set<string>, tick: nat -> int, lo: int)
    requires Ordered(Before, heap) && c <= |heap| + 1 && forall i: nat :: lo <= tick(i)
    ensures var p := Popping(kv, heap, c, candidates, tick);
      && candidates <= p.candidates <= candidates + KeysOf(Due(heap, c))
      && (forall t :: t in Due(heap, c) && t.key in kv && Expired(t, lo) ==> t.key in p.candidates)
    decreases |heap|
  {
    hide Popped, Ordered, Due;
    if heap == [] || c >= |heap| {
      NothingDue(heap, c);
    } else {
      PopOrders(Before, heap);
      DueAfterPop(heap, c);
      DueComeAfterRoot(heap, c);
      var rest := Popped(Before, heap);
      assert forall t :: t in Due(heap, c) <==> t == heap[0] || t in Due(rest, c + 1);
      if heap[0].key !in kv {
        PoppingTakesDue(kv, rest, c + 1, candidates, tick, lo);
      } else if Expired(heap[0], tick(c)) {
        PoppingTakesDue(kv, rest, c + 1, candidates + {heap[0].key}, tick, lo);
      }
    }
  }

  /** What expires before a timeout that is due is due as well. */
  lemma DueIsEarliest(heap: seq<Timeout>, c: nat, t: Timeout, own: Timeout)
    requires Ordered(Before, heap) && c <= |heap| + 1 && t in Due(heap, c) && own in heap
    ensures own in Due(heap, c) || t.expiresAt <= own.expiresAt
  {
    hide Drained, Ordered, Sorted;
    DrainSorts(Before, heap);
    assert own in multiset(heap);
    PrefixIsEarliest(Drained(Before, heap), (|heap| - c + 1) / 2, t, own);
  }

  lemma PrefixIsEarliest(all: seq<Timeout>, n: nat, t: Timeout, own: Timeout)
    requires Sorted(Before, all) && n <= |all| && t in all[..n] && own in multiset(all)
    ensures own in all[..n] || t.expiresAt <= own.expiresAt
  {
    var i :| 0 <= i < n && all[i] == t;
    var j :| 0 <= j < |all| && all[j] == own;
    if j < n {
      assert own == all[..n][j];
    } else {
      assert !Before(all[j], all[i]);
    }
  }

  function ExpiredKeys<V>(s: State<V>, now: int): set<string> {
    set k | k in s.kv && Expired(s.kv[k].timeout, now)
  }

  /**
    When one sweep is enough: it leaves nothing that had expired when it began if and only if
    every expired key has a timeout in the larger half of the heap in deadline order.
  */
  lemma OneSweepSuffices<V>(s: State<V>, tick: nat -> int, at: string -> int, lo: int, hi: int)
    requires Indexed(s) && ReadsWithin(Op<V>.Sweep(tick, at), lo, hi)
    ensures NothingExpiredAt(Swept(s, tick, at).state, lo) <==> ExpiredKeys(s, lo) <= KeysOf(Due(s.heap, 0))
  {
    forall k | k in ExpiredKeys(s, lo)
      ensures k in Swept(s, tick, at).state.kv <==> k !in KeysOf(Due(s.heap, 0))
    {
      SweepTakesDue(s, tick, at, lo, hi, k);
    }
  }

  lemma SweepTakesDue<V>(s: State<V>, tick: nat -> int, at: string -> int, lo: int, hi: int, k: string)
    requires Indexed(s) && ReadsWithin(Op<V>.Sweep(tick, at), lo, hi) && k in ExpiredKeys(s, lo)
    ensures k in Swept(s, tick, at).state.kv <==> k !in KeysOf(Due(s.heap, 0))
  {
    hide Popping, Ordered, Due;
    PoppingTakesDue(s.kv, s.heap, 0, {}, tick, lo);
    assert lo <= tick(0) <= at(k);
    if k in KeysOf(Due(s.heap, 0)) {
      var t :| t in Due(s.heap, 0) && t.key == k;
      DueIsEarliest(s.heap, 0, t, s.kv[k].timeout);
    }
  }

  ghost predicate DistinctKeys(timeouts: seq<Timeout>) {
    forall i, j :: 0 <= i < j < |timeouts| ==> timeouts[i].key != timeouts[j].key
  }

  lemma {:induction false} KeyCount(timeouts: seq<Timeout>)
    ensures |KeysOf(timeouts)| <= |timeouts| && (|KeysOf(timeouts)| == |timeouts| <==> DistinctKeys(timeouts))
  {
    if timeouts != [] {
      var front, last := Front(timeouts), Last(timeouts);
      KeyCount(front);
      assert timeouts == front + [last];
      assert KeysOf(timeouts) == KeysOf(front) + {last.key};
      if last.key in KeysOf(front) {
        assert KeysOf(timeouts) == KeysOf(front);
        var i :| 0 <= i < |front| && front[i].key == last.key;
        assert timeouts[i].key == timeouts[|timeouts| - 1].key;
      }
    }
  }

  /** If the heap is no larger than the map, it holds the own timeouts and nothing else. */
  lemma NoneStale<V>(s: State<V>)
    requires Indexed(s) && |s.heap| == |s.kv|
    ensures var all := Drained(Before, s.heap);
      DistinctKeys(all) && forall t :: t in all ==> t.key in s.kv && s.kv[t.key].timeout == t
  {
    var all := Drained(Before, s.heap);
    hide Drained, Ordered;
    assert forall t :: t in all <==> t in multiset(all);
    assert forall t :: t in s.heap <==> t in multiset(s.heap);
    KeyCount(all);
    forall k | k in s.kv ensures k in KeysOf(all) {
      assert s.kv[k].timeout in all;
    }
    SubsetSize(s.kv.Keys, KeysOf(all));
    SameSize(s.kv.Keys, KeysOf(all));
    forall t | t in all ensures t.key in s.kv && s.kv[t.key].timeout == t {
      assert t.key in KeysOf(all);
      var i :| 0 <= i < |all| && all[i] == t;
      var j :| 0 <= j < |all| && all[j] == s.kv[t.key].timeout;
      assert i == j;
    }
  }

  lemma NoneDueIsStale<V>(s: State<V>)
    requires Indexed(s) && |s.heap| == |s.kv|
    ensures var due := Due(s.heap, 0);
      DistinctKeys(due) && forall t :: t in due ==> t.key in s.kv && s.kv[t.key].timeout == t
  {
    hide Indexed, Drained, Ordered, DistinctKeys;
    NoneStale(s);
    PrefixOfDistinct(Drained(Before, s.heap), (|s.heap| + 1) / 2);
  }

  lemma PrefixOfDistinct(all: seq<Timeout>, n: nat)
    requires DistinctKeys(all) && n <= |all|
    ensures DistinctKeys(all[..n]) && forall t :: t in all[..n] ==> t in all
  {
  }

  /** Without stale timeouts, an expired key that is not due means more have expired than are due. */
  lemma MoreThanDue<V>(s: State<V>, lo: int, k: string)
    requires Indexed(s) && |s.heap| == |s.kv| && k in ExpiredKeys(s, lo) && k !in KeysOf(Due(s.heap, 0))
    ensures |ExpiredKeys(s, lo)| > |Due(s.heap, 0)|
  {
    hide Ordered, Due, DistinctKeys;
    NoneDueIsStale(s);
    var due, expired := Due(s.heap, 0), ExpiredKeys(s, lo);
    KeyCount(due);
    forall j | j in KeysOf(due) ensures j in expired {
      var t :| t in due && t.key == j;
      DueIsEarliest(s.heap, 0, t, s.kv[k].timeout);
    }
    SubsetSize(KeysOf(due) + {k}, expired);
  }

  /** Without stale timeouts it is a matter of number: at most half, rounded up, may have expired. */
  lemma OneSweepSufficesForHalf<V>(s: State<V>, tick: nat -> int, at: string -> int, lo: int, hi: int)
    requires Indexed(s) && ReadsWithin(Op<V>.Sweep(tick, at), lo, hi) && |s.heap| == |s.kv|
    ensures NothingExpiredAt(Swept(s, tick, at).state, lo) <==> 2 * |ExpiredKeys(s, lo)| <= |s.heap| + 1
  {
    OneSweepSuffices(s, tick, at, lo, hi);
    hide Swept, NothingExpiredAt, ReadsWithin, Indexed, ExpiredKeys;
    var due, expired := Due(s.heap, 0), ExpiredKeys(s, lo);
    if expired <= KeysOf(due) {
      KeyCount(due);
      SubsetSize(expired, KeysOf(due));
    } else {
      var k :| k in expired && k !in KeysOf(due);
      MoreThanDue(s, lo, k);
    }
  }

  /**
    Two entries that expired together: the next sweep takes only one of them, because its
    counter has reached the length of the heap after the first pop.
  */
  lemma OneSweepIsNotEnough<V>(s: State<V>, now: int)
    requires Indexed(s) && |s.kv| == |s.heap| == 2
    requires forall t :: t in s.heap ==> Expired(t, now) && t.key in s.kv
    ensures |Swept(s, _ => now, _ => now).state.kv| == 1
  {
    hide Popped;
    var tick: nat -> int := _ => now;
    var root, rest := s.heap[0], Popped(Before, s.heap);
    assert Popping(s.kv, rest, 1, {} + {root.key}, tick) == Pass(rest, {root.key}, None);
    assert Popping(s.kv, s.heap, 0, {}, tick).candidates == {root.key};
    assert s.kv[root.key].timeout in s.heap;
    assert Gone(s.kv, {root.key}, _ => now) == {root.key};
    assert (s.kv - {root.key}).Keys == s.kv.Keys - {root.key};
  }

  /** Such a state is reached by two `Put` calls whose sessions end at once. */
  lemma TwoPutsExpireTogether<V>(v: V)
    ensures var s := Step(Step(Empty<V>(), Put("a", v, 0, 0)).state, Put("b", v, 0, 0)).state;
      Indexed(s) && |s.kv| == |s.heap| == 2 && forall t :: t in s.heap ==> Expired(t, 1) && t.key in s.kv
  {
    hide Pushed;
    var s1 := Step(Empty<V>(), Put("a", v, 0, 0)).state;
    var s2 := Step(s1, Put("b", v, 0, 0)).state;
    StepKeepsIndex(Empty<V>(), Put("a", v, 0, 0), 0, 0);
    StepKeepsIndex(s1, Put("b", v, 0, 0), 0, 0);
    assert s2.kv.Keys == {"a", "b"};
    assert forall t :: t in s2.heap ==> t in multiset(s2.heap);
  }

  /** How many halvings bring `n` to 0: floor(log2 n) + 1 for n > 0. */
  function Halvings(n: nat): nat {
    if n == 0 then 0 else 1 + Halvings(n / 2)
  }

  lemma {:induction false} HalvingsMonotone(m: nat, n: nat)
    requires m <= n
    ensures Halvings(m) <= Halvings(n)
  {
    if m > 0 { HalvingsMonotone(m / 2, n / 2); }
  }

  function Pow2(k: nat): nat {
    if k == 0 then 1 else 2 * Pow2(k - 1)
  }

  lemma {:induction false} HalvingsIsLogarithm(n: nat, k: nat)
    requires Pow2(k) <= n < 2 * Pow2(k)
    ensures Halvings(n) == k + 1
  {
    if k > 0 { HalvingsIsLogarithm(n / 2, k - 1); }
  }

  function Sweeps<V>(ops: seq<Op<V>>): nat {
    if ops == [] then 0 else Sweeps(Front(ops)) + if Last(ops).Sweep? then 1 else 0
  }

  ghost predicate NoPut<V>(ops: seq<Op<V>>) {
    forall op :: op in ops ==> !op.Put?
  }

  /**
    With no intervening Put, floor(log2 n) + 1 sweeps remove every entry that had already
    expired when the first of them began, whatever else is called in between. Before that,
    each sweep not yet through has at least halved the heap.
  */
  lemma {:induction false} LogarithmicallyManySweepsSuffice<V>(s: State<V>, ops: seq<Op<V>>, clock: seq<int>)
    requires Indexed(s) && Paced(ops, clock) && NoPut(ops)
    ensures var r := After(s, ops);
      NothingExpiredAt(r, clock[0]) || Halvings(|r.heap|) + Sweeps(ops) <= Halvings(|s.heap|)
    ensures Sweeps(ops) >= Halvings(|s.heap|) ==> NothingExpiredAt(After(s, ops), clock[0])
  {
    if ops != [] {
      PacedFront(ops, clock);
      var mid := After(s, Front(ops));
      RunKeepsIndex(s, Front(ops), Front(clock));
      LogarithmicallyManySweepsSuffice(s, Front(ops), Front(clock));
      ClockAdvances(Front(ops), Front(clock));
      match Last(ops) {
        case Sweep(tick, at) =>
          SweepHalvesOrFinishes(mid, tick, at, Last(Front(clock)), Last(clock));
          var r := After(s, ops);
          if |r.heap| <= |mid.heap| / 2 && |mid.heap| > 0 {
            HalvingsMonotone(|r.heap|, |mid.heap| / 2);
          } else if |mid.heap| == 0 {
            assert forall t :: t !in mid.heap;
          }
        case _ =>
      }
    }
    RunKeepsIndex(s, ops, clock);
  }

  lemma {:induction false} ClockAdvances<V>(ops: seq<Op<V>>, clock: seq<int>)
    requires Paced(ops, clock)
    ensures clock[0] <= Last(clock)
  {
    if ops != [] {
      PacedFront(ops, clock);
      ClockAdvances(Front(ops), Front(clock));
    }
  }
}
