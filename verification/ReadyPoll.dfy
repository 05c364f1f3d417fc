/**
  The polling of a blocking request, `requestReadySession` in pkg/sablier/session_request.go:
  readiness is rechecked when a timer fires, each wait twice the last up to a limit, and once
  more when the starts in progress complete.
*/
module ReadyPoll {
  import opened Common

  /** 100 ms, in nanoseconds. */
  const FIRST_RECHECK := 100_000_000

  function Min(a: int, b: int): int {
    if a <= b then a else b
  }

  /** A zero or negative frequency would make the timer fire in a busy loop. */
  function MaxDelay(blockingRefreshFrequency: int): (d: int)
    ensures 0 < d
  {
    if blockingRefreshFrequency <= 0 then FIRST_RECHECK else blockingRefreshFrequency
  }

  /** What ended one wait of the loop, and when. */
  datatype Wake = Timer(at: int) | StartDone(at: int)

  /** 100 ms * 2^k. */
  function Doubled(k: nat): (d: int)
    ensures d >= FIRST_RECHECK
  {
    if k == 0 then FIRST_RECHECK else 2 * Doubled(k - 1)
  }

  /** The wait that follows `k` timer firings. */
  function Delay(k: nat, maxDelay: int): int {
    Min(Doubled(k), maxDelay)
  }

  function Fired(wakes: seq<Wake>): nat {
    if wakes == [] then 0 else Fired(Front(wakes)) + if Last(wakes).Timer? then 1 else 0
  }

  function Now(wakes: seq<Wake>, start: int): int {
    if wakes == [] then start else Last(wakes).at
  }

  /** Wake `i` comes after the one before, a timer no sooner than the delay it was armed with. */
  predicate InTime(wakes: seq<Wake>, i: nat, start: int, maxDelay: int)
    requires i < |wakes|
  {
    wakes[i].at - Now(wakes[..i], start) >= if wakes[i].Timer? then Delay(Fired(wakes[..i]), maxDelay) else 0
  }

  /**
    The timer is armed anew after each recheck with the current delay, so it cannot fire
    sooner than that after the wake before; the start-completed case is disabled once taken.
  */
  ghost predicate Possible(wakes: seq<Wake>, start: int, maxDelay: int) {
    && (forall i :: 0 <= i < |wakes| ==> InTime(wakes, i, start, maxDelay))
    && (forall i, j :: 0 <= i < j < |wakes| ==> !(wakes[i].StartDone? && wakes[j].StartDone?))
  }

  /** The delays grow from at most 100 ms to the limit and are never zero. */
  lemma {:induction false} DelaysAreMonotone(j: nat, k: nat, maxDelay: int)
    requires j <= k && 0 < maxDelay
    ensures 0 < Delay(j, maxDelay) <= Delay(k, maxDelay) <= maxDelay
    ensures Delay(j + 1, maxDelay) == Min(2 * Delay(j, maxDelay), maxDelay)
    decreases k
  {
    if j < k { DelaysAreMonotone(j, k - 1, maxDelay); }
  }

  /**
    What the configured frequency means: the waits begin at 100 ms or at the frequency, if that
    is less, and double until they reach it; without a positive frequency they stay at 100 ms.
  */
  lemma WaitsFollowFrequency(k: nat, blockingRefreshFrequency: int)
    ensures var f, maxDelay := blockingRefreshFrequency, MaxDelay(blockingRefreshFrequency);
      if f <= 0 then Delay(k, maxDelay) == 100_000_000
      else
        && Delay(0, maxDelay) == (if f < 100_000_000 then f else 100_000_000)
        && Delay(k + 1, maxDelay) == (if 2 * Delay(k, maxDelay) < f then 2 * Delay(k, maxDelay) else f)
  {
    DelaysAreMonotone(k, k, MaxDelay(blockingRefreshFrequency));
  }

  /** The loop itself: `delay` doubles on a timer, stays on a completed start, and re-arms the timer. */
  method PollLoop(wakes: seq<Wake>, blockingRefreshFrequency: int) returns (waits: seq<int>)
    ensures |waits| == |wakes| + 1
    ensures forall i :: 0 <= i <= |wakes| ==> waits[i] == Delay(Fired(wakes[..i]), MaxDelay(blockingRefreshFrequency))
  {
    var maxDelay := blockingRefreshFrequency;
    if maxDelay <= 0 {
      maxDelay := FIRST_RECHECK;
    }
    var delay := Min(FIRST_RECHECK, maxDelay);
    waits := [delay];
    var i := 0;
    assert wakes[..0] == [];
    while i < |wakes|
      invariant 0 <= i <= |wakes| && |waits| == i + 1
      invariant delay == Delay(Fired(wakes[..i]), maxDelay)
      invariant forall j :: 0 <= j <= i ==> waits[j] == Delay(Fired(wakes[..j]), maxDelay)
    {
      assert Front(wakes[..i + 1]) == wakes[..i] && Last(wakes[..i + 1]) == wakes[i];
      DelaysAreMonotone(Fired(wakes[..i]), Fired(wakes[..i]), maxDelay);
      if wakes[i].Timer? {
        delay := Min(delay * 2, maxDelay);
      }
      waits := waits + [delay];
      i := i + 1;
    }
  }

  /** How many doublings it takes from `delay` to the limit: ceil(log2(maxDelay / delay)). */
  function Ramp(delay: int, maxDelay: int): nat
    requires 0 < delay
    decreases maxDelay - delay
  {
    if delay >= maxDelay then 0 else 1 + Ramp(2 * delay, maxDelay)
  }

  /** After that many firings, and not before, every wait is the limit. */
  lemma {:induction false} RampReachesLimit(k: nat, maxDelay: int)
    requires 0 < maxDelay
    ensures Doubled(k) < maxDelay ==> Ramp(FIRST_RECHECK, maxDelay) == k + Ramp(Doubled(k), maxDelay)
    ensures k >= Ramp(FIRST_RECHECK, maxDelay) <==> Delay(k, maxDelay) == maxDelay
  {
    if k > 0 {
      RampReachesLimit(k - 1, maxDelay);
      var d := Doubled(k - 1);
      assert d < maxDelay ==> Ramp(d, maxDelay) == 1 + Ramp(2 * d, maxDelay);
    }
  }

  /** What `f` firings cost: past the ramp, a full `maxDelay` each. */
  lemma {:induction false} FiringsTakeTime(wakes: seq<Wake>, start: int, maxDelay: int)
    requires 0 < maxDelay && Possible(wakes, start, maxDelay)
    ensures start <= Now(wakes, start)
    ensures (Fired(wakes) - Ramp(FIRST_RECHECK, maxDelay)) * maxDelay <= Now(wakes, start) - start
  {
    if wakes != [] {
      var n := |wakes| - 1;
      PossibleFront(wakes, start, maxDelay);
      FiringsTakeTime(Front(wakes), start, maxDelay);
      assert wakes[..n] == Front(wakes);
      var f: int := Fired(Front(wakes));
      assert InTime(wakes, n, start, maxDelay);
      RampReachesLimit(f, maxDelay);
      DelaysAreMonotone(f, f, maxDelay);
      if Last(wakes).Timer? && f >= Ramp(FIRST_RECHECK, maxDelay) {
        assert (f + 1 - Ramp(FIRST_RECHECK, maxDelay)) * maxDelay ==
               (f - Ramp(FIRST_RECHECK, maxDelay)) * maxDelay + maxDelay;
      } else if Last(wakes).Timer? {
        NonPositiveProduct(f as int + 1 - Ramp(FIRST_RECHECK, maxDelay), maxDelay);
      }
    } else {
      NonPositiveProduct(0 - Ramp(FIRST_RECHECK, maxDelay) as int, maxDelay);
    }
  }

  lemma PossibleFront(wakes: seq<Wake>, start: int, maxDelay: int)
    requires wakes != [] && Possible(wakes, start, maxDelay)
    ensures Possible(Front(wakes), start, maxDelay)
  {
    forall i | 0 <= i < |wakes| - 1 ensures InTime(Front(wakes), i, start, maxDelay) {
      assert InTime(wakes, i, start, maxDelay) && Front(wakes)[..i] == wakes[..i];
    }
  }

  lemma NonPositiveProduct(a: int, b: int)
    requires a <= 0 && b > 0
    ensures a * b <= 0
  {
    ProductMonotone(a, 0, b);
    assert 0 * b == 0;
  }

  lemma {:induction false} AtMostOneStartDone(wakes: seq<Wake>)
    requires forall i, j :: 0 <= i < j < |wakes| ==> !(wakes[i].StartDone? && wakes[j].StartDone?)
    ensures |wakes| <= Fired(wakes) + 1
    ensures (forall i :: 0 <= i < |wakes| ==> wakes[i].Timer?) ==> |wakes| == Fired(wakes)
  {
    if wakes != [] {
      AtMostOneStartDone(Front(wakes));
      if Last(wakes).StartDone? {
        assert forall i :: 0 <= i < |wakes| - 1 ==> Front(wakes)[i] == wakes[i] && !wakes[i].StartDone?;
      }
    }
  }

  /**
    Poll bound: a request that has waited for a time T has rechecked at most
    ceil(log2(maxDelay / 100 ms)) + floor(T / maxDelay) + 1 times, for every limit and every
    pattern of wakes, the single start-completed recheck included.
  */
  lemma RechecksAreBounded(wakes: seq<Wake>, start: int, blockingRefreshFrequency: int)
    requires Possible(wakes, start, MaxDelay(blockingRefreshFrequency)) && wakes != []
    ensures var maxDelay := MaxDelay(blockingRefreshFrequency);
      |wakes| <= Ramp(FIRST_RECHECK, maxDelay) + (Last(wakes).at - start) / maxDelay + 1
  {
    var maxDelay := MaxDelay(blockingRefreshFrequency);
    FiringsTakeTime(wakes, start, maxDelay);
    AtMostOneStartDone(wakes);
    var a, t := Fired(wakes) - Ramp(FIRST_RECHECK, maxDelay), Last(wakes).at - start;
    QuotientAtLeast(a, t, maxDelay);
  }

  lemma QuotientAtLeast(a: int, t: int, d: int)
    requires 0 < d && a * d <= t
    ensures a <= t / d
  {
    var q := t / d;
    assert (q + 1) * d == q * d + d > t;
    if a >= q + 1 {
      ProductMonotone(q + 1, a, d);
      assert false;
    }
  }
}
