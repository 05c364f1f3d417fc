/**
  What becomes of every value put into the store: it is still held, was overwritten, was
  deleted, or was handed to the expiry callback. Exactly one of them, for every run.
*/
module Ledger {
  import opened Common
  import opened TinyKV

  datatype Record<V> = Record(key: string, value: V, expiresAt: int)

  /** One multiset per fate, filled from the arguments and results of the calls. */
  datatype Books<V(==)> = Books(
    put: multiset<Record<V>>,
    overwritten: multiset<Record<V>>,
    deleted: multiset<Record<V>>,
    notified: multiset<Record<V>>)

  ghost function Recorded<V>(kv: map<string, Entry<V>>, keys: set<string>): set<Record<V>> {
    set k | k in keys && k in kv :: Record(k, kv[k].value, kv[k].timeout.expiresAt)
  }

  /** What the store holds, one record a key. */
  ghost function Held<V>(kv: map<string, Entry<V>>): multiset<Record<V>> {
    multiset(Recorded(kv, kv.Keys))
  }

  /** The values the callback gets, each with the deadline its key had when the call began. */
  ghost function Announced<V>(kv: map<string, Entry<V>>, notified: map<string, V>): set<Record<V>> {
    set k | k in notified && k in kv :: Record(k, notified[k], kv[k].timeout.expiresAt)
  }

  ghost function Booked<V>(s: State<V>, op: Op<V>, b: Books<V>): Books<V> {
    var c := b.(notified := b.notified + multiset(Announced(s.kv, Step(s, op).notified)));
    match op
    case Put(k, v, after, now) =>
      c.(put := b.put + multiset{Record(k, v, now + after)},
         overwritten := b.overwritten + multiset(Recorded(s.kv, {k})))
    case Delete(k) => c.(deleted := b.deleted + multiset(Recorded(s.kv, {k})))
    case _ => c
  }

  ghost function BooksAfter<V>(ops: seq<Op<V>>): Books<V> {
    if ops == [] then Books(multiset{}, multiset{}, multiset{}, multiset{})
    else Booked(After(Empty(), Front(ops)), Last(ops), BooksAfter(Front(ops)))
  }

  /** What a call held before it, as it is booked. */
  ghost function Replaced<V>(s: State<V>, k: string): multiset<Record<V>> {
    if k in s.kv then multiset{Record(k, s.kv[k].value, s.kv[k].timeout.expiresAt)} else multiset{}
  }

  /** Each call is booked under its own name: only a Put overwrites, only a Delete deletes. */
  lemma CallsAreBooked<V>(s: State<V>, op: Op<V>, b: Books<V>)
    ensures var c := Booked(s, op, b);
      && (op.Put? ==>
            && c.put == b.put + multiset{Record(op.key, op.value, op.now + op.after)}
            && c.overwritten == b.overwritten + Replaced(s, op.key) && c.deleted == b.deleted)
      && (op.Delete? ==>
            c.put == b.put && c.overwritten == b.overwritten && c.deleted == b.deleted + Replaced(s, op.key))
      && (!op.Put? && !op.Delete? ==>
            c.put == b.put && c.overwritten == b.overwritten && c.deleted == b.deleted)
  {
    hide Step;
    if op.Put? || op.Delete? {
      assert multiset(Recorded(s.kv, {op.key})) == Replaced(s, op.key) by {
        if op.key in s.kv {
          assert Recorded(s.kv, {op.key}) == {Record(op.key, s.kv[op.key].value, s.kv[op.key].timeout.expiresAt)};
        } else {
          assert Recorded(s.kv, {op.key}) == {};
        }
      }
    }
  }

  ghost predicate Balanced<V>(s: State<V>, b: Books<V>) {
    b.put == Held(s.kv) + b.overwritten + b.deleted + b.notified
  }

  /** Taking keys out of the map takes out exactly their records. */
  lemma RemovalSplitsHeld<V>(kv: map<string, Entry<V>>, keys: set<string>)
    ensures Held(kv) == Held(kv - keys) + multiset(Recorded(kv, keys))
  {
    var rest, out := Recorded(kv - keys, (kv - keys).Keys), Recorded(kv, keys);
    assert Recorded(kv, kv.Keys) == rest + out by {
      forall r | r in Recorded(kv, kv.Keys) ensures r in rest + out {
        assert r.key in keys || r.key in kv - keys;
      }
    }
    assert rest !! out;
  }

  lemma PutSplitsHeld<V>(kv: map<string, Entry<V>>, k: string, e: Entry<V>)
    ensures Held(kv[k := e]) == Held(kv - {k}) + multiset{Record(k, e.value, e.timeout.expiresAt)}
  {
    var after := kv[k := e];
    RemovalSplitsHeld(after, {k});
    assert after - {k} == kv - {k};
    assert Recorded(after, {k}) == {Record(k, e.value, e.timeout.expiresAt)};
  }

  /** Who is announced: exactly the keys that leave the map, with the value they had. */
  lemma AnnouncedAreTheDeparted<V>(s: State<V>, op: Op<V>)
    requires op.Get? || op.Range? || op.Sweep?
    ensures var e := Step(s, op);
      && e.state.kv == s.kv - e.notified.Keys
      && Announced(s.kv, e.notified) == Recorded(s.kv, e.notified.Keys)
      && (op.Range? ==> e.notified == map[])
      && (op.Get? && op.key in s.kv && op.now > s.kv[op.key].timeout.expiresAt ==>
            e.notified == map[op.key := s.kv[op.key].value])
      && (op.Get? && (op.key !in s.kv || op.now <= s.kv[op.key].timeout.expiresAt) ==> e.notified == map[])
  {
  }

  lemma StepBalances<V>(s: State<V>, op: Op<V>, b: Books<V>)
    requires Balanced(s, b)
    ensures Balanced(Step(s, op).state, Booked(s, op, b))
  {
    hide Step, Held, Recorded, Announced;
    match op
    case Put(k, v, after, now) =>
      QuietStep(s, op);
      RemovalSplitsHeld(s.kv, {k});
      PutSplitsHeld(s.kv, k, Entry(Timeout(now + after, after, k), v));
    case Delete(k) =>
      QuietStep(s, op);
      RemovalSplitsHeld(s.kv, {k});
    case _ =>
      AnnouncedAreTheDeparted(s, op);
      RemovalSplitsHeld(s.kv, Step(s, op).notified.Keys);
  }

  lemma QuietStep<V>(s: State<V>, op: Op<V>)
    requires op.Put? || op.Delete?
    ensures Announced(s.kv, Step(s, op).notified) == {}
    ensures Step(s, op).state.kv == WriteThrough(s.kv, op)
  {
    WritesReachTheMap(s, op);
  }

  /**
    Conservation: over any run the values put are, one by one, the values still held, those
    overwritten, those deleted and those announced as expired. None has two fates, so none
    is announced twice.
  */
  lemma {:induction false} EveryPutHasOneFate<V>(ops: seq<Op<V>>)
    ensures Balanced(After(Empty(), ops), BooksAfter(ops))
  {
    if ops != [] {
      EveryPutHasOneFate(Front(ops));
      StepBalances(After(Empty(), Front(ops)), Last(ops), BooksAfter(Front(ops)));
    }
  }

  /** The maps handed to the expiry callback over a run, oldest first. */
  function Announcements<V>(ops: seq<Op<V>>): seq<map<string, V>> {
    if ops == [] then []
    else Announcements(Front(ops)) + Told(Step(After(Empty(), Front(ops)), Last(ops)).notified)
  }

  function Total<V>(maps: seq<map<string, V>>): nat {
    if maps == [] then 0 else Total(Front(maps)) + |Last(maps)|
  }

  lemma AnnouncedOneEach<V>(s: State<V>, op: Op<V>)
    ensures var n := Step(s, op).notified;
      && n.Keys <= s.kv.Keys && |Announced(s.kv, n)| == |n|
      && forall k :: k in n ==> Record(k, n[k], s.kv[k].timeout.expiresAt) in Announced(s.kv, n)
  {
    var n := Step(s, op).notified;
    assert n.Keys <= s.kv.Keys by {
      if op.Put? || op.Delete? {
        WritesReachTheMap(s, op);
      } else {
        AnnouncedKeysHeld(s, op);
      }
    }
    hide Step;
    OneRecordEach(s.kv, n);
  }

  lemma AnnouncedKeysHeld<V>(s: State<V>, op: Op<V>)
    requires op.Get? || op.Range? || op.Sweep?
    ensures Step(s, op).notified.Keys <= s.kv.Keys
  {
  }

  lemma {:induction false} OneRecordEach<V>(kv: map<string, Entry<V>>, n: map<string, V>)
    requires n.Keys <= kv.Keys
    ensures |Announced(kv, n)| == |n|
    decreases |n|
  {
    if n == map[] {
      assert Announced(kv, n) == {};
    } else {
      var k :| k in n;
      var rest := n - {k};
      var r := Record(k, n[k], kv[k].timeout.expiresAt);
      assert n.Keys == rest.Keys + {k} && rest == map j | j in n && j != k :: n[j];
      OneRecordEach(kv, rest);
      assert Announced(kv, n) == Announced(kv, rest) + {r};
      assert r !in Announced(kv, rest);
    }
  }

  /** The books have a record for every value announced. */
  ghost predicate AllBooked<V>(announced: seq<map<string, V>>, notified: multiset<Record<V>>) {
    forall i, k :: 0 <= i < |announced| && k in announced[i] ==>
      exists due :: Record(k, announced[i][k], due) in notified
  }

  /** The books and the callback agree: as many values, each booked under its key. */
  lemma {:induction false} AnnouncementsAreBooked<V>(ops: seq<Op<V>>)
    ensures |BooksAfter(ops).notified| == Total(Announcements(ops))
    ensures AllBooked(Announcements(ops), BooksAfter(ops).notified)
  {
    if ops != [] {
      var s, op := After(Empty<V>(), Front(ops)), Last(ops);
      AnnouncementsAreBooked(Front(ops));
      AnnouncedOneEach(s, op);
      BookedMore(s, op, BooksAfter(Front(ops)));
      hide Step, Announced, Booked, AllBooked, Total, Told;
      AnnounceMore(Announcements(Front(ops)), Step(s, op).notified, s.kv, BooksAfter(Front(ops)).notified);
    }
  }

  lemma {:induction false} AnnounceMore<V>(before: seq<map<string, V>>, n: map<string, V>, kv: map<string, Entry<V>>,
                        booked: multiset<Record<V>>)
    requires AllBooked(before, booked) && n.Keys <= kv.Keys
    requires forall k :: k in n ==> Record(k, n[k], kv[k].timeout.expiresAt) in Announced(kv, n)
    ensures AllBooked(before + Told(n), booked + multiset(Announced(kv, n)))
    ensures Total(before + Told(n)) == Total(before) + |n|
  {
    var more, notified := before + Told(n), booked + multiset(Announced(kv, n));
    if n == map[] {
      assert more == before;
    } else {
      assert Front(more) == before && Last(more) == n;
    }
    hide Announced, Total;
    forall i, k | 0 <= i < |more| && k in more[i] ensures exists due :: Record(k, more[i][k], due) in notified {
      if i < |before| {
        var due :| Record(k, before[i][k], due) in booked;
        assert Record(k, more[i][k], due) in notified;
      } else {
        assert Record(k, more[i][k], kv[k].timeout.expiresAt) in notified;
      }
    }
  }

  lemma BookedMore<V>(s: State<V>, op: Op<V>, b: Books<V>)
    ensures Booked(s, op, b).notified == b.notified + multiset(Announced(s.kv, Step(s, op).notified))
  {
  }

  /**
    An announcement is never early and never stale: it carries the value last put for the
    key, the deadline of that very put has passed, and the key is gone afterwards. A key
    renewed before the call is judged by its new deadline only.
  */
  lemma {:induction false} AnnouncedOnlyWhenDue<V>(ops: seq<Op<V>>, clock: seq<int>, op: Op<V>, hi: int)
    requires Paced(ops, clock) && ReadsWithin(op, Last(clock), hi)
    ensures var s, p := After(Empty(), ops), PlainAfter(ops);
      forall k :: k in Step(s, op).notified ==>
        && k in p && Step(s, op).notified[k] == p[k].0 && p[k].1 < hi
        && k !in Step(s, op).state.kv
  {
    StoreRefinesPlainMap(ops, clock);
    var s := After(Empty(), ops);
    if op.Sweep? {
      forall k | k in Step(s, op).notified ensures Expired(s.kv[k].timeout, op.at(k)) && op.at(k) <= hi {
      }
    }
  }

  /**
    Nothing due stays for long: from any reachable store, after logarithmically many sweeps
    without a Put every value whose deadline had passed when they began has left.
  */
  lemma {:induction false} DueEntriesLeave<V>(s: State<V>, more: seq<Op<V>>, clock: seq<int>)
    requires Indexed(s) && Paced(more, clock) && NoPut(more) && Sweeps(more) >= Halvings(|s.heap|)
    ensures forall r :: r in Held(After(s, more).kv) ==> clock[0] <= r.expiresAt
  {
    hide After;
    LogarithmicallyManySweepsSuffice(s, more, clock);
  }
}
