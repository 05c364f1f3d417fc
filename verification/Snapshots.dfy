/**
  Saving and loading the store, at the level of maps: `MarshalJSON` writes value and
  deadline of every entry, `UnmarshalJSON` puts back those that have not expired.
*/
module Snapshots {
  import opened Common
  import opened TinyKV

  type Snapshot<V> = map<string, (V, int)>

  function Saved<V>(s: State<V>): Snapshot<V> {
    map k | k in s.kv :: (s.kv[k].value, s.kv[k].timeout.expiresAt)
  }

  /**
    The readings of one load: for each key the two while its entry is decoded (`After`, then
    `Until`), and the one inside its `Put`. All entries are decoded before the first `Put`.
  */
  datatype Readings = Readings(after: string -> int, until: string -> int, put: string -> int)

  ghost predicate LoadedWithin(r: Readings, lo: int, hi: int) {
    && (forall k :: lo <= r.after(k) <= r.until(k) <= hi)
    && (forall k :: r.put(k) <= hi)
    && (forall j, k :: r.until(j) <= r.put(k))
  }

  /** `Put` of the entries in the order the keys come, leaving out what was decoded as expired. */
  function Loaded<V>(s: State<V>, snap: Snapshot<V>, order: seq<string>, r: Readings): State<V>
    requires forall k :: k in order ==> k in snap
  {
    if order == [] then s
    else
      var t := Loaded(s, snap, Front(order), r);
      var k := Last(order);
      if snap[k].1 > r.after(k)
      then Step(t, Put(k, snap[k].0, snap[k].1 - r.until(k), r.put(k))).state
      else t
  }

  ghost predicate Enumerates(order: seq<string>, keys: set<string>) {
    && (forall k :: k in order <==> k in keys)
    && (forall i, j :: 0 <= i < j < |order| ==> order[i] != order[j])
  }

  /** The keys put so far, with the deadline each was given. */
  lemma {:induction false} LoadedEntries<V>(snap: Snapshot<V>, order: seq<string>, r: Readings, lo: int, hi: int)
    requires forall k :: k in order ==> k in snap
    requires forall i, j :: 0 <= i < j < |order| ==> order[i] != order[j]
    requires LoadedWithin(r, lo, hi)
    ensures var t := Loaded(Empty(), snap, order, r);
      && Indexed(t)
      && (forall k :: k in t.kv <==> k in order && r.after(k) < snap[k].1)
      && (forall k :: k in t.kv ==>
            t.kv[k].value == snap[k].0 && t.kv[k].timeout.expiresAt == snap[k].1 + (r.put(k) - r.until(k)))
  {
    hide Step, Indexed;
    if order == [] {
      NothingLoaded<V>();
    } else {
      LoadedEntries(snap, Front(order), r, lo, hi);
      var t := Loaded(Empty(), snap, Front(order), r);
      var k := Last(order);
      assert order == Front(order) + [k];
      if snap[k].1 > r.after(k) {
        assert lo <= r.after(k) <= r.until(k) <= r.put(k) <= hi;
        var op := Put(k, snap[k].0, snap[k].1 - r.until(k), r.put(k));
        StepKeepsIndex(t, op, lo, hi);
        WritesReachTheMap(t, op);
      }
    }
  }

  lemma StandingClockRestoresExactly<V>(s: State<V>, t: State<V>, r: Readings, now: int)
    requires LoadedWithin(r, now, now)
    requires forall k :: k in t.kv <==> k in s.kv && r.after(k) < s.kv[k].timeout.expiresAt
    requires forall k :: k in t.kv ==>
      t.kv[k].value == s.kv[k].value && s.kv[k].timeout.expiresAt == t.kv[k].timeout.expiresAt
    ensures Saved(t) == map k | k in s.kv && now < s.kv[k].timeout.expiresAt :: Saved(s)[k]
  {
    forall k ensures k in Saved(t) <==> k in s.kv && now < s.kv[k].timeout.expiresAt {
      assert now <= r.after(k) <= r.until(k) <= now;
    }
  }

  lemma NothingLoaded<V>()
    ensures Indexed(Empty<V>())
  {
  }

  /**
    Save and restore: loading a snapshot into an empty store keeps exactly the keys whose
    deadline is still ahead, with their values, and never shortens a session. If the clock
    stands still during the load, the saved entries come back unchanged.
  */
  lemma {:induction false} RestoreKeepsTheLiving<V>(s: State<V>, order: seq<string>, r: Readings, lo: int, hi: int)
    requires Indexed(s) && Enumerates(order, s.kv.Keys) && LoadedWithin(r, lo, hi)
    ensures var t := Loaded(Empty(), Saved(s), order, r);
      && Indexed(t)
      && (forall k :: k in t.kv <==> k in s.kv && r.after(k) < s.kv[k].timeout.expiresAt)
      && (forall k :: k in t.kv ==>
            && t.kv[k].value == s.kv[k].value
            && s.kv[k].timeout.expiresAt <= t.kv[k].timeout.expiresAt
                 <= s.kv[k].timeout.expiresAt + (hi - lo))
      && (lo == hi ==> Saved(t) == map k | k in s.kv && lo < s.kv[k].timeout.expiresAt :: Saved(s)[k])
  {
    hide Loaded, Indexed;
    LoadedEntries(Saved(s), order, r, lo, hi);
    var t := Loaded(Empty(), Saved(s), order, r);
    forall k | k in t.kv
      ensures s.kv[k].timeout.expiresAt <= t.kv[k].timeout.expiresAt <= s.kv[k].timeout.expiresAt + (hi - lo)
    {
      assert lo <= r.until(k) <= r.put(k) <= hi;
    }
    if lo == hi {
      StandingClockRestoresExactly(s, t, r, lo);
    }
  }
}
