/**
  `instanceRequest` of pkg/sablier/instance_request.go: which state is put back into the
  session store, and for how long. With the store of pkg/tinykv this gives the keep-warm
  guarantee: a session seen inside its running-hours window lives until the window ends.
*/
module InstanceRequest {
  import opened Common
  import opened RunningHours
  import opened TinyKV
  import Store

  /** The `running-hours` label; its window is None if the text does not parse. */
  datatype Hours = NoHours | Hours(window: Option<RunningHours>)

  datatype Info = Info(name: string, ready: bool, hours: Hours, days: Days)

  datatype Pending = InProgress | StartFailed | NoPending

  /** What everything around the request answers; None stands for an error. */
  datatype World = World(held: bool, start: Option<Info>, pending: Pending, inspect: Option<Info>)

  datatype Result = Rejected | HeldBack | Failed | Served(state: Info)

  /** The state the session is renewed with. */
  function Chosen(stored: Option<Info>, world: World): Option<Info> {
    match stored
    case None => world.start
    case Some(state) =>
      if state.ready then Some(state)
      else match world.pending
        case StartFailed => None
        case InProgress => Some(state)
        case NoPending => world.inspect
  }

  /** The requested duration, extended to the end of the running-hours window around `now`. */
  function Effective(duration: int, state: Info, now: int): int {
    if state.hours.NoHours? then duration
    else match RemainingAt(state.hours.window, state.days, now)
      case Inside(remaining) => if remaining > duration then remaining else duration
      case _ => duration
  }

  /** A Put as this function makes it: `t` is the instant the window was looked up at. */
  ghost predicate IsRenewal(op: Op<Info>, duration: int, t: int) {
    op.Put? && t <= op.now && op.key == op.value.name && op.after == Effective(duration, op.value, t)
  }

  /** The Put answers the Get on `s`, as a request makes it. */
  ghost predicate Renews(s: State<Info>, get: Op<Info>, put: Op<Info>, duration: int, world: World) {
    && get.Get? && put.Put?
    && Chosen(Step(s, get).answer.value, world) == Some(put.value)
    && exists t :: get.now <= t && IsRenewal(put, duration, t)
  }

  /**
    One request on the store: a Get and, if the request is served, a Put under the state's
    name for the effective duration. Refused, held and failed requests renew nothing.
  */
  method Request(name: string, duration: int, world: World, sessions: Store.Store<Info>, clock: Store.Clock)
    returns (result: Result, ghost ops: seq<Op<Info>>, ghost times: seq<int>)
    requires sessions.Valid()
    modifies sessions, sessions.heap, clock
    ensures sessions.Valid()
    ensures sessions.Contents() == After(old(sessions.Contents()), ops)
    ensures Paced(ops, times) && old(clock.now) <= times[0] && Last(times) <= clock.now
    ensures result.Rejected? <==> name == ""
    ensures result.HeldBack? <==> name != "" && world.held
    ensures result.Rejected? || result.HeldBack? ==> ops == []
    ensures result.Failed? || result.Served? ==>
              && ops != [] && ops[0].Get? && ops[0].key == name
              && var answer := Step(old(sessions.Contents()), ops[0]).answer;
              && answer.Found?
              && (answer.value.None? ==>
                    result == if world.start.Some? then Served(world.start.value) else Failed)
              && (answer.value.Some? && answer.value.value.ready ==> result == Served(answer.value.value))
              && (answer.value.Some? && !answer.value.value.ready ==>
                    && (world.pending.InProgress? ==> result == Served(answer.value.value))
                    && (world.pending.StartFailed? ==> result == Failed)
                    && (world.pending.NoPending? ==>
                          result == if world.inspect.Some? then Served(world.inspect.value) else Failed))
    ensures result.Failed? ==> |ops| == 1
    ensures result.Served? ==>
              |ops| == 2 && Renews(old(sessions.Contents()), ops[0], ops[1], duration, world)
              && ops[1].value == result.state
  {
    hide Step, Paced;
    ops, times := [], [clock.now];
    PacedRuns();
    if name == "" {
      return Rejected, ops, times;
    }
    if world.held {
      return HeldBack, ops, times;
    }
    ghost var s0, lo := sessions.Contents(), clock.now;
    var stored: Option<Info>;
    ghost var get;
    stored, get := sessions.Get(name, clock);
    ghost var mid := clock.now;
    ops, times := [get], [lo, mid];
    OneCall(s0, get, lo, mid);
    var state := Chosen(stored, world);
    if state.None? {
      return Failed, ops, times;
    }
    var effectiveDuration := duration;
    if state.value.hours.Hours? {
      var now := clock.Now();
      var left := RemainingAt(state.value.hours.window, state.value.days, now);
      if left.Inside? && left.remaining > effectiveDuration {
        effectiveDuration := left.remaining;
      }
    }
    ghost var t := clock.now;
    ghost var put := sessions.Put(state.value.name, state.value, effectiveDuration, clock);
    assert IsRenewal(put, duration, t);
    ops, times := [get, put], [lo, mid, clock.now];
    TwoCalls(s0, get, put, lo, mid, t, clock.now);
    return Served(state.value), ops, times;
  }

  /**
    `seedSession` of pkg/sablier/autowarm.go, for an instance found running that Sablier did not
    start: it writes only if there is no session and the instance is ready.
  */
  method SeedSession(name: string, defaultDuration: int, inspect: Option<Info>, sessions: Store.Store<Info>,
                     clock: Store.Clock)
    returns (ghost ops: seq<Op<Info>>, ghost times: seq<int>)
    requires sessions.Valid()
    modifies sessions, sessions.heap, clock
    ensures sessions.Valid()
    ensures sessions.Contents() == After(old(sessions.Contents()), ops)
    ensures Paced(ops, times) && old(clock.now) <= times[0] && Last(times) <= clock.now
    ensures ops != [] && ops[0].Get? && ops[0].key == name
    ensures var found := Step(old(sessions.Contents()), ops[0]).answer != Found(None);
      if found || inspect.None? || !inspect.value.ready then |ops| == 1
      else |ops| == 2 && ops[1] == Op<Info>.Put(inspect.value.name, inspect.value, defaultDuration, Last(times))
  {
    hide Step, Paced;
    ghost var s0, lo := sessions.Contents(), clock.now;
    var stored: Option<Info>;
    ghost var get;
    stored, get := sessions.Get(name, clock);
    ghost var mid := clock.now;
    ops, times := [get], [lo, mid];
    OneCall(s0, get, lo, mid);
    if stored.Some? || inspect.None? || !inspect.value.ready {
      return;
    }
    ghost var put := sessions.Put(inspect.value.name, inspect.value, defaultDuration, clock);
    ops, times := [get, put], [lo, mid, clock.now];
    TwoCalls(s0, get, put, lo, mid, mid, clock.now);
  }

  lemma PacedRuns()
    ensures forall t: int {:trigger [t]} :: Paced<Info>([], [t])
    ensures forall s: State<Info> :: After(s, []) == s
  {
  }

  lemma {:induction false} OneCall(s: State<Info>, op: Op<Info>, lo: int, hi: int)
    requires ReadsWithin(op, lo, hi)
    ensures After(s, [op]) == Step(s, op).state && Paced([op], [lo, hi])
  {
    hide Step;
    assert Front([op]) == [] && After(s, []) == s;
  }

  lemma {:induction false} TwoCalls(s: State<Info>, op1: Op<Info>, op2: Op<Info>, lo: int, mid: int, t: int, hi: int)
    requires ReadsWithin(op1, lo, mid) && mid <= t && ReadsWithin(op2, t, hi) && op2.Put?
    ensures After(s, [op1, op2]) == Step(Step(s, op1).state, op2).state && Paced([op1, op2], [lo, mid, hi])
  {
    hide Step;
    OneCall(s, op1, lo, mid);
    assert Front([op1, op2]) == [op1];
  }

  // ---------- Keep warm ----------

  /**
    A session lasts as long as was asked for, or else exactly until the end of the window
    that applies; outside any window, or with unreadable labels, it is never extended.
  */
  lemma ExtendedOnlyToWindowEnd(duration: int, state: Info, now: int)
    requires state.hours.Hours? && state.hours.window.Some? ==> WellFormed(state.hours.window.value)
    ensures var e := Effective(duration, state, now);
      && duration <= e
      && (e == duration ||
          (state.hours.Hours? && state.hours.window.Some?
           && WarmUntil(state.hours.window.value, state.days, now, now + e)))
  {
    if state.hours.Hours? && state.hours.window.Some? {
      var r := state.hours.window.value;
      var end := WindowAt(r, now).end;
      if WarmUntil(r, state.days, now, end) {
        RemainingIsExact(r, state.days, now, end, now);
      }
    }
  }

  /** A renewal with this window, made while the window around it ended at `end`. */
  ghost predicate WarmRenewal(op: Op<Info>, k: string, r: RunningHours, end: int) {
    op.Put? && op.key == k && op.value.hours == Hours(Some(r)) &&
    exists duration, t :: IsRenewal(op, duration, t) && WarmUntil(r, op.value.days, t, end)
  }

  /** However short the requested duration, the deadline is at or after the window's end. */
  lemma RenewalReachesWindowEnd(op: Op<Info>, k: string, r: RunningHours, end: int)
    requires WellFormed(r) && WarmRenewal(op, k, r, end)
    ensures end <= op.now + op.after
  {
    var duration, t :| IsRenewal(op, duration, t) && WarmUntil(r, op.value.days, t, end);
    RemainingIsExact(r, op.value.days, t, end, t);
  }

  /** A request served while its state's window is open renews as required for `end`. */
  lemma ServedInWindowIsWarm(s: State<Info>, get: Op<Info>, put: Op<Info>, duration: int,
                             world: World, r: RunningHours, end: int)
    requires WellFormed(r) && Renews(s, get, put, duration, world) && put.now < end
    requires put.value.hours == Hours(Some(r)) && WarmUntil(r, put.value.days, get.now, end)
    ensures WarmRenewal(put, put.value.name, r, end)
  {
    var t :| get.now <= t && IsRenewal(put, duration, t);
    WarmOnwards(r, put.value.days, get.now, t, end);
  }

  lemma PutAfterGet(s: State<Info>, get: Op<Info>, put: Op<Info>, duration: int, world: World)
    requires Renews(s, get, put, duration, world)
    ensures get.now <= put.now && put.key == put.value.name
  {
  }

  /** Once warm until `end`, warm at every later instant before `end`. */
  lemma WarmOnwards(r: RunningHours, days: Days, t: int, later: int, end: int)
    requires WellFormed(r) && WarmUntil(r, days, t, end) && t <= later < end
    ensures WarmUntil(r, days, later, end)
  {
    BoundsEncloseNow(r, t);
    RemainingIsExact(r, days, t, end, later);
  }

  /** The labels of a session survive its renewal unless a fresh inspection changes them. */
  lemma LabelsSurvive(s: State<Info>, get: Op<Info>, put: Op<Info>, duration: int, world: World)
    requires Renews(s, get, put, duration, world) && Step(s, get).answer.value.Some?
    ensures var stored := Step(s, get).answer.value.value;
      put.value == stored ||
      (!stored.ready && world.pending.NoPending? && world.inspect == Some(put.value))
  {
  }

  // ---------- Keep warm over runs ----------

  /** The Put at `j` was made by a request for `k` whose Get is the call at `i`. */
  ghost predicate MadeByRequest(ops: seq<Op<Info>>, i: nat, j: nat, k: string, world: World) {
    && i < j < |ops| && ops[i].Get? && ops[i].key == k
    && exists duration :: Renews(After(Empty(), ops[..i]), ops[i], ops[j], duration, world)
  }

  /** Any request served in the middle of a run is one of those. */
  lemma {:induction false} RequestJoinsRun(earlier: seq<Op<Info>>, get: Op<Info>, put: Op<Info>, duration: int,
                                           world: World)
    requires Renews(After(Empty(), earlier), get, put, duration, world)
    ensures MadeByRequest(earlier + [get, put], |earlier|, |earlier| + 1, get.key, world)
  {
    var ops := earlier + [get, put];
    assert ops[..|earlier|] == earlier;
    assert ops[|earlier|] == get && ops[|earlier| + 1] == put;
  }

  /** The Put at `j` was made by `seedSession`, which writes only if its Get found no session. */
  ghost predicate MadeBySeed(ops: seq<Op<Info>>, i: nat, j: nat, k: string) {
    && i < j < |ops| && ops[i].Get? && ops[i].key == k
    && Step(After(Empty(), ops[..i]), ops[i]).answer == Found(None)
  }

  /** If the request inspects, it finds the name and the window unchanged, on a day that counts. */
  ghost predicate SameWindow(world: World, k: string, r: RunningHours, now: int, end: int) {
    world.inspect.Some? ==>
      var i := world.inspect.value;
      i.name == k && i.hours == Hours(Some(r)) && WarmUntil(r, i.days, now, end)
  }

  /**
    What may happen to `k` after its renewal at `first`: a request inside the window or a
    seeding, begun since, puts it again at whatever distance from its own Get, or some other
    warm renewal does. Nobody deletes it. Other keys, reads and sweeps are free.
  */
  ghost predicate Undisturbed(ops: seq<Op<Info>>, first: nat, j: nat, k: string, r: RunningHours, end: int)
    requires j < |ops|
  {
    && (ops[j].Delete? ==> ops[j].key != k)
    && (ops[j].Put? && ops[j].key == k ==>
          || WarmRenewal(ops[j], k, r, end)
          || (exists i :: first < i && MadeBySeed(ops, i, j, k))
          || (ops[j].now < end &&
              exists i, world ::
                first < i && MadeByRequest(ops, i, j, k, world) && SameWindow(world, k, r, ops[i].now, end)))
  }

  lemma {:induction false} ClockOrdered(ops: seq<Op<Info>>, clock: seq<int>, i: nat, j: nat)
    requires Paced(ops, clock) && i <= j < |clock|
    ensures clock[i] <= clock[j]
  {
    if i < j {
      ClockOrdered(ops, clock, i, j - 1);
      assert ReadsWithin(ops[j - 1], clock[j - 1], clock[j]);
    }
  }

  /** The plain map holds `k` with the window, warm at some instant no later than `upTo`, until `end` at least. */
  ghost predicate Warm(p: Plain<Info>, k: string, r: RunningHours, upTo: int, end: int) {
    k in p &&
    var (session, deadline) := p[k];
    && end <= deadline && session.hours == Hours(Some(r))
    && exists t :: t <= upTo && WarmUntil(r, session.days, t, end)
  }

  /** A Get up to the end of the window finds a warm session. */
  lemma WarmIsFound(ops: seq<Op<Info>>, clock: seq<int>, n: nat, k: string, r: RunningHours, now: int, end: int)
    requires Paced(ops, clock) && n <= |ops| && clock[n] <= now <= end
    requires Warm(PlainAfter(ops[..n]), k, r, clock[n], end)
    ensures Step(After(Empty(), ops[..n]), Op<Info>.Get(k, now)).answer == Found(Some(PlainAfter(ops[..n])[k].0))
  {
    assert Paced(ops[..n], clock[..n + 1]);
    hide Step, After, PlainAfter;
    StoreRefinesPlainMap(ops[..n], clock[..n + 1]);
    StepAgrees(After(Empty(), ops[..n]), PlainAfter(ops[..n]), Op<Info>.Get(k, now), clock[n], now);
  }

  /** A request that begins on a warm session makes a warm renewal. */
  lemma RequestRenewsWarm(ops: seq<Op<Info>>, clock: seq<int>, i: nat, j: nat, k: string,
                          world: World, r: RunningHours, end: int)
    requires Paced(ops, clock) && WellFormed(r) && MadeByRequest(ops, i, j, k, world) && ops[j].now < end
    requires ops[j].key == k && SameWindow(world, k, r, ops[i].now, end)
    requires Warm(PlainAfter(ops[..i]), k, r, clock[i], end)
    ensures WarmRenewal(ops[j], k, r, end)
  {
    hide Step, After, PlainAfter, WellFormed, WarmUntil, WarmRenewal, IsRenewal, Chosen;
    var s, get, put := After(Empty(), ops[..i]), ops[i], ops[j];
    var duration :| Renews(s, get, put, duration, world);
    assert ReadsWithin(get, clock[i], clock[i + 1]);
    PutAfterGet(s, get, put, duration, world);
    WarmIsFound(ops, clock, i, k, r, get.now, end);
    assert get == Op<Info>.Get(k, get.now);
    LabelsSurvive(s, get, put, duration, world);
    var stored := PlainAfter(ops[..i])[k].0;
    var t :| t <= clock[i] && WarmUntil(r, stored.days, t, end);
    WarmOnwards(r, stored.days, t, get.now, end);
    ServedInWindowIsWarm(s, get, put, duration, world, r, end);
  }

  lemma RenewedIsWarm(p: Plain<Info>, op: Op<Info>, k: string, r: RunningHours, upTo: int, end: int)
    requires WellFormed(r) && WarmRenewal(op, k, r, end) && op.now <= upTo
    ensures Warm(PlainStep(p, op), k, r, upTo, end)
  {
    RenewalReachesWindowEnd(op, k, r, end);
    hide WarmUntil, Effective;
    var duration, t :| IsRenewal(op, duration, t) && WarmUntil(r, op.value.days, t, end);
    assert t <= upTo;
  }

  /** A seeding that begins on a warm session finds it and writes nothing. */
  lemma SeedSparesWarm(ops: seq<Op<Info>>, clock: seq<int>, i: nat, j: nat, k: string, r: RunningHours, end: int)
    requires Paced(ops, clock) && MadeBySeed(ops, i, j, k) && Last(clock) <= end
    ensures !Warm(PlainAfter(ops[..i]), k, r, clock[i], end)
  {
    hide Step, After, PlainAfter, WarmUntil;
    ClockOrdered(ops, clock, i + 1, |ops|);
    assert ReadsWithin(ops[i], clock[i], clock[i + 1]);
    assert ops[i] == Op<Info>.Get(k, ops[i].now);
    if Warm(PlainAfter(ops[..i]), k, r, clock[i], end) {
      WarmIsFound(ops, clock, i, k, r, ops[i].now, end);
    }
  }

  lemma {:induction false} StaysWarm(ops: seq<Op<Info>>, clock: seq<int>, first: nat, n: nat, k: string,
                                     r: RunningHours, end: int)
    requires Paced(ops, clock) && WellFormed(r) && first < n <= |ops| && Last(clock) <= end
    requires WarmRenewal(ops[first], k, r, end)
    requires forall j :: first < j < |ops| ==> Undisturbed(ops, first, j, k, r, end)
    ensures Warm(PlainAfter(ops[..n]), k, r, clock[n], end)
  {
    assert ops[first].Put? && ops[first].key == k;
    hide PlainAfter, PlainStep, WarmRenewal, Renews, Step, After, SameWindow, WellFormed, Warm;
    var j := n - 1;
    var op := ops[j];
    PlainAfterOneMore(ops, j);
    assert ReadsWithin(op, clock[j], clock[n]);
    assert j > first ==> Undisturbed(ops, first, j, k, r, end);
    if op.Put? && op.key == k {
      if !WarmRenewal(op, k, r, end) {
        if i :| first < i && MadeBySeed(ops, i, j, k) {
          StaysWarm(ops, clock, first, i, k, r, end);
          SeedSparesWarm(ops, clock, i, j, k, r, end);
        } else {
          var i, world :| first < i && MadeByRequest(ops, i, j, k, world) && SameWindow(world, k, r, ops[i].now, end);
          StaysWarm(ops, clock, first, i, k, r, end);
          RequestRenewsWarm(ops, clock, i, j, k, world, r, end);
        }
      }
      RenewedIsWarm(PlainAfter(ops[..j]), op, k, r, clock[n], end);
    } else {
      StaysWarm(ops, clock, first, j, k, r, end);
      OthersKeepWarm(PlainAfter(ops[..j]), op, k, r, clock[j], clock[n], end);
    }
  }

  lemma OthersKeepWarm(p: Plain<Info>, op: Op<Info>, k: string, r: RunningHours, was: int, upTo: int, end: int)
    requires Warm(p, k, r, was, end) && was <= upTo && (op.Put? || op.Delete? ==> op.key != k)
    ensures Warm(PlainStep(p, op), k, r, upTo, end)
  {
    hide WarmUntil;
  }

  lemma PlainAfterOneMore(ops: seq<Op<Info>>, j: nat)
    requires j < |ops|
    ensures PlainAfter(ops[..j + 1]) == PlainStep(PlainAfter(ops[..j]), ops[j])
  {
    assert Front(ops[..j + 1]) == ops[..j];
  }

  /**
    Keep-warm over runs: once a session has been renewed inside its window, then whatever
    requests and seedings follow, each interleaved with any other calls and sweeps, a Get at any
    time up to the window's end finds it. Inspections in between must not find the label changed.
  */
  lemma {:induction false} WarmUntilWindowEnds(ops: seq<Op<Info>>, clock: seq<int>, first: nat, k: string,
                                               r: RunningHours, end: int, now: int)
    requires Paced(ops, clock) && WellFormed(r) && first < |ops| && WarmRenewal(ops[first], k, r, end)
    requires forall j :: first < j < |ops| ==> Undisturbed(ops, first, j, k, r, end)
    requires Last(clock) <= now <= end
    ensures var answer := Step(After(Empty(), ops), Op<Info>.Get(k, now)).answer;
      k in PlainAfter(ops) && answer == Found(Some(PlainAfter(ops)[k].0))
  {
    hide Step, After, PlainAfter, WarmRenewal, Undisturbed, WellFormed, Paced;
    StaysWarm(ops, clock, first, |ops|, k, r, end);
    assert ops[..|ops|] == ops;
    PacedLength(ops, clock);
    WarmIsFound(ops, clock, |ops|, k, r, now, end);
  }

  lemma PacedLength(ops: seq<Op<Info>>, clock: seq<int>)
    requires Paced(ops, clock)
    ensures |clock| == |ops| + 1
  {
  }

  // ---------- When keep-warm fails ----------

  /** The Put at `j` is the last call that writes or deletes `k`. */
  ghost predicate LastWrite(ops: seq<Op<Info>>, j: nat, k: string) {
    && j < |ops| && ops[j].Put? && ops[j].key == k
    && forall i :: j < i < |ops| && (ops[i].Put? || ops[i].Delete?) ==> ops[i].key != k
  }

  lemma {:induction false} LastWriteIsHeld(ops: seq<Op<Info>>, j: nat, k: string)
    requires LastWrite(ops, j, k)
    ensures k in PlainAfter(ops) && PlainAfter(ops)[k] == (ops[j].value, ops[j].now + ops[j].after)
  {
    if j < |ops| - 1 {
      LastWriteIsHeld(Front(ops), j, k);
    }
  }

  /** What a Get after the run answers. */
  function Looked(ops: seq<Op<Info>>, k: string, now: int): Answer<Info> {
    Step(After(Empty(), ops), Op<Info>.Get(k, now)).answer
  }

  /** In every run the last write alone decides what a Get finds, up to its own deadline and no longer. */
  lemma LastWriteDecides(ops: seq<Op<Info>>, clock: seq<int>, j: nat, k: string, now: int)
    requires Paced(ops, clock) && LastWrite(ops, j, k) && Last(clock) <= now
    ensures Looked(ops, k, now) ==
            Found(if now <= ops[j].now + ops[j].after then Some(ops[j].value) else None)
  {
    var lo := Last(clock);
    hide Step, After, PlainAfter, Paced, LastWrite;
    StoreRefinesPlainMap(ops, clock);
    LastWriteIsHeld(ops, j, k);
    StepAgrees(After(Empty(), ops), PlainAfter(ops), Op<Info>.Get(k, now), lo, now);
  }

  /** A session is found through the rest of the window, whoever wrote it last. */
  ghost predicate FoundUntil(ops: seq<Op<Info>>, k: string, since: int, end: int) {
    forall now :: since <= now <= end ==> Looked(ops, k, now) != Found(None)
  }

  /**
    Exactly when keep-warm holds after a session was renewed in its window: whatever request or
    seeding wrote last, begun before the renewal or since, the session is found through the rest
    of the window if and only if what was left of the window at that write is at most the
    duration written. A request that saw the window at the write always meets this. What was
    found before that write is the same statement about the run up to it.
  */
  lemma WarmIfLastWriteReachesEnd(ops: seq<Op<Info>>, clock: seq<int>, first: nat, j: nat, k: string,
                                  r: RunningHours, end: int)
    requires Paced(ops, clock) && LastWrite(ops, j, k) && Last(clock) <= end
    requires first <= j && WellFormed(r) && WarmRenewal(ops[first], k, r, end)
    ensures FoundUntil(ops, k, Last(clock), end) <==> end - ops[j].now <= ops[j].after
    ensures WarmRenewal(ops[j], k, r, end) ==> FoundUntil(ops, k, Last(clock), end)
  {
    var lo := Last(clock);
    hide Looked, Paced, WarmRenewal, WellFormed;
    LastWriteDecides(ops, clock, j, k, end);
    forall now | lo <= now <= end
      ensures Looked(ops, k, now) != Found(None) <==> now <= ops[j].now + ops[j].after
    {
      LastWriteDecides(ops, clock, j, k, now);
    }
    if WarmRenewal(ops[j], k, r, end) {
      RenewalReachesWindowEnd(ops[j], k, r, end);
    }
  }

  /**
    It can fail: "web" is to be kept warm from midnight to one o'clock and renewed at 0 until
    then. A seeding, or a request whose inspection did not find the label, that had looked
    before writes one nanosecond after it, and at 2 the session is gone.
  */
  lemma BegunBeforeMayCut(world: World)
    ensures var r, end := RunningHours(0, 60), 60 * MINUTE;
      var info := Info("web", true, Hours(Some(r)), EveryDay);
      var bare := Info("web", true, NoHours, EveryDay);
      var ops := [Op<Info>.Get("web", 0), Put("web", info, end, 0), Put("web", bare, 1, 0)];
      && Paced(ops, [0, 0, 0, 0]) && WellFormed(r) && 2 <= end && WarmRenewal(ops[1], "web", r, end)
      && MadeBySeed(ops, 0, 2, "web")
      && (world.start == Some(bare) ==> MadeByRequest(ops, 0, 2, "web", world))
      && Looked(ops, "web", 2) == Found(None)
  {
    var r, end := RunningHours(0, 60), 60 * MINUTE;
    var info := Info("web", true, Hours(Some(r)), EveryDay);
    var bare := Info("web", true, NoHours, EveryDay);
    var ops := [Op<Info>.Get("web", 0), Put("web", info, end, 0), Put("web", bare, 1, 0)];
    assert ops[..0] == [] && After(Empty<Info>(), []) == Empty<Info>();
    assert IsRenewal(ops[1], 0, 0) && WarmUntil(r, EveryDay, 0, end);
    if world.start == Some(bare) {
      assert IsRenewal(ops[2], 1, 0);
      assert Renews(Empty(), ops[0], ops[2], 1, world);
    }
    LastWriteDecides(ops, [0, 0, 0, 0], 2, "web", 2);
  }
}
