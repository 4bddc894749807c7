/** Sliding-window limiting: the pruned timestamp lists of the rate limiter and of flow
    control decide as the whole grant history would. */
module SlidingWindows {
  import opened GoStrings

  // Times are nanoseconds.

  /** How many of the times lie after start. */
  function CountAfter(times: seq<int>, start: int): nat {
    if times == [] then 0
    else CountAfter(times[..|times| - 1], start) + if times[|times| - 1] > start then 1 else 0
  }

  /** The times after start, in order. */
  function After(times: seq<int>, start: int): (kept: seq<int>)
    ensures |kept| == CountAfter(times, start)
    ensures forall t | t in kept :: t in times && t > start
  {
    if times == [] then []
    else
      var kept := After(times[..|times| - 1], start);
      if times[|times| - 1] > start then kept + [times[|times| - 1]] else kept
  }

  /** How many of the times lie in (end - window, end]. */
  function CountIn(times: seq<int>, end: int, window: int): nat {
    if times == [] then 0
    else CountIn(times[..|times| - 1], end, window)
         + if end - window < times[|times| - 1] <= end then 1 else 0
  }

  ghost predicate NoneAfter(times: seq<int>, now: int) {
    forall i | 0 <= i < |times| :: times[i] <= now
  }

  lemma AfterSnoc(times: seq<int>, t: int, start: int)
    ensures After(times + [t], start) == After(times, start) + if t > start then [t] else []
    ensures forall end: int, window: int ::
              CountIn(times + [t], end, window) == CountIn(times, end, window) + if end - window < t <= end then 1 else 0
  {
    assert (times + [t])[..|times|] == times;
    assert After(times, start) + [] == After(times, start);
  }

  lemma {:induction false} PrunedTwice(history: seq<int>, early: int, late: int)
    requires early <= late
    ensures After(After(history, early), late) == After(history, late)
  {
    if history != [] {
      var n := |history| - 1;
      PrunedTwice(history[..n], early, late);
      AfterSnoc(After(history[..n], early), history[n], late);
    }
  }

  lemma {:induction false} AllIn(history: seq<int>, now: int, window: int)
    requires NoneAfter(history, now)
    ensures CountIn(history, now, window) == CountAfter(history, now - window)
  {
    if history != [] {
      AllIn(history[..|history| - 1], now, window);
    }
  }

  lemma {:induction false} LaterCountsFewer(history: seq<int>, now: int, later: int, window: int)
    requires now <= later && NoneAfter(history, now)
    ensures CountIn(history, later, window) <= CountIn(history, now, window)
  {
    if history != [] {
      LaterCountsFewer(history[..|history| - 1], now, later, window);
    }
  }

  function Max(a: int, b: int): int {
    if a >= b then a else b
  }

  /** No window of the given size ever holds more than limit of the times. */
  ghost predicate WithinLimit(history: seq<int>, window: int, limit: int) {
    forall end: int :: CountIn(history, end, window) <= Max(limit, 0)
  }

  /** A grant made while fewer than limit past grants are in the window keeps every window
      within the limit. */
  lemma GrantKeepsLimit(history: seq<int>, now: int, window: int, limit: int)
    requires NoneAfter(history, now) && WithinLimit(history, window, limit)
    requires CountIn(history, now, window) < limit
    ensures WithinLimit(history + [now], window, limit)
  {
    AfterSnoc(history, now, 0);
    forall end: int ensures CountIn(history + [now], end, window) <= Max(limit, 0) {
      if end >= now {
        LaterCountsFewer(history, now, end, window);
      }
    }
  }

  /** From time last on, the list kept answers every question about the window as the
      history would. */
  ghost predicate Keeps(times: seq<int>, history: seq<int>, window: int, last: int) {
    && NoneAfter(history, last)
    && forall start: int :: start >= last - window ==> After(times, start) == After(history, start)
  }

  lemma KeptDecides(times: seq<int>, history: seq<int>, window: int, last: int, now: int)
    requires Keeps(times, history, window, last) && last <= now
    ensures |After(times, now - window)| == CountIn(history, now, window)
    ensures Keeps(After(times, now - window), history, window, now)
  {
    AllIn(history, now, window);
    forall start: int | start >= now - window
      ensures After(After(times, now - window), start) == After(history, start)
    {
      PrunedTwice(times, now - window, start);
    }
  }

  lemma KeptAfterGrant(times: seq<int>, history: seq<int>, window: int, now: int)
    requires Keeps(times, history, window, now)
    ensures Keeps(times + [now], history + [now], window, now)
  {
  }

  lemma KeptLater(times: seq<int>, history: seq<int>, window: int, last: int, now: int)
    requires Keeps(times, history, window, last) && last <= now
    ensures Keeps(times, history, window, now)
  {
  }

  ghost predicate KeyKept(times: seq<int>, history: seq<int>, window: int, limit: int, last: int) {
    Keeps(times, history, window, last) && WithinLimit(history, window, limit)
  }

  // ---------------------------------------------------------------- whole runs

  /** What a limiter keeps, and what it decided so far. */
  datatype Run = Run(times: seq<int>, decisions: seq<bool>)

  /** The limiter that never forgets: it asks the whole history of grants. */
  function FullStep(r: Run, now: int, window: int, limit: int): Run {
    var granted := CountIn(r.times, now, window) < limit;
    Run(if granted then r.times + [now] else r.times, r.decisions + [granted])
  }

  /** The limiter of the code: it asks the list it pruned. */
  function PrunedStep(r: Run, now: int, window: int, limit: int): Run {
    var kept := After(r.times, now - window);
    var granted := |kept| < limit;
    Run(if granted then kept + [now] else kept, r.decisions + [granted])
  }

  function FullRun(requests: seq<int>, window: int, limit: int): Run {
    if requests == [] then Run([], [])
    else FullStep(FullRun(requests[..|requests| - 1], window, limit), requests[|requests| - 1], window, limit)
  }

  function PrunedRun(requests: seq<int>, window: int, limit: int): Run {
    if requests == [] then Run([], [])
    else PrunedStep(PrunedRun(requests[..|requests| - 1], window, limit), requests[|requests| - 1], window, limit)
  }

  /** Alike so far, within the limit so far, and set to stay so. */
  ghost predicate Agree(pruned: Run, full: Run, window: int, limit: int, last: int) {
    && pruned.decisions == full.decisions
    && KeyKept(pruned.times, full.times, window, limit, last)
  }

  lemma StepAgrees(pruned: Run, full: Run, window: int, limit: int, last: int, now: int)
    requires Agree(pruned, full, window, limit, last) && last <= now
    ensures Agree(PrunedStep(pruned, now, window, limit), FullStep(full, now, window, limit), window, limit, now)
  {
    KeptDecides(pruned.times, full.times, window, last, now);
    if CountIn(full.times, now, window) < limit {
      GrantKeepsLimit(full.times, now, window, limit);
      KeptAfterGrant(After(pruned.times, now - window), full.times, window, now);
    }
  }

  /** In every run with a non-decreasing clock the two decide alike, and no window of the
      given size holds more than limit grants. */
  lemma {:induction false} RunsAgree(requests: seq<int>, window: int, limit: int)
    requires forall i, j | 0 <= i < j < |requests| :: requests[i] <= requests[j]
    ensures PrunedRun(requests, window, limit).decisions == FullRun(requests, window, limit).decisions
    ensures WithinLimit(FullRun(requests, window, limit).times, window, limit)
    ensures requests != [] ==> Agree(PrunedRun(requests, window, limit), FullRun(requests, window, limit),
                                     window, limit, requests[|requests| - 1])
  {
    if requests != [] {
      var n := |requests| - 1;
      RunsAgree(requests[..n], window, limit);
      StepAgrees(PrunedRun(requests[..n], window, limit), FullRun(requests[..n], window, limit),
                 window, limit, if n == 0 then requests[n] else requests[n - 1], requests[n]);
    }
  }

  // ---------------------------------------------------------------- the code

  /** The filtering loop of both limiters. */
  method Prune(times: seq<int>, windowStart: int) returns (validTimes: seq<int>)
    ensures validTimes == After(times, windowStart)
  {
    validTimes := [];
    for i := 0 to |times|
      invariant validTimes == After(times[..i], windowStart)
    {
      assert times[..i + 1] == times[..i] + [times[i]];
      AfterSnoc(times[..i], times[i], windowStart);
      if times[i] > windowStart {
        validTimes := validTimes + [times[i]];
      }
    }
    assert times[..|times|] == times;
  }

  function Get(m: map<GoString, seq<int>>, key: GoString): seq<int> {
    if key in m then m[key] else []
  }

  ghost predicate AllKept(windows: map<GoString, seq<int>>, history: map<GoString, seq<int>>,
                          window: int, limit: int, last: int) {
    forall key: GoString :: KeyKept(Get(windows, key), Get(history, key), window, limit, last)
  }

  /** The step both limiters take on one list: prune it, and grant if it is then short enough. */
  method Admit(times: seq<int>, window: int, limit: int, now: int, ghost history: seq<int>, ghost last: int)
    returns (admitted: bool, kept: seq<int>)
    requires KeyKept(times, history, window, limit, last) && last <= now
    ensures admitted <==> CountIn(history, now, window) < limit
    ensures KeyKept(kept, if admitted then history + [now] else history, window, limit, now)
  {
    var windowStart := now - window;
    KeptDecides(times, history, window, last, now);
    kept := Prune(times, windowStart);
    admitted := |kept| < limit;
    if admitted {
      GrantKeepsLimit(history, now, window, limit);
      KeptAfterGrant(kept, history, window, now);
      kept := kept + [now];
    }
  }

  /** Time passes and one key's list and history are replaced. */
  lemma KeyReplaced(windows: map<GoString, seq<int>>, history: map<GoString, seq<int>>, window: int, limit: int,
                    last: int, now: int, key: GoString, times: seq<int>, granted: seq<int>)
    requires AllKept(windows, history, window, limit, last) && last <= now
    requires KeyKept(times, granted, window, limit, now)
    ensures AllKept(windows[key := times], history[key := granted], window, limit, now)
    ensures granted == Get(history, key) ==> AllKept(windows[key := times], history, window, limit, now)
  {
    var ws, hs := windows[key := times], history[key := granted];
    forall k: GoString
      ensures KeyKept(Get(ws, k), Get(hs, k), window, limit, now)
      ensures granted == Get(history, key) ==> KeyKept(Get(ws, k), Get(history, k), window, limit, now)
    {
      if k != key {
        assert KeyKept(Get(windows, k), Get(history, k), window, limit, last);
        KeptLater(Get(windows, k), Get(history, k), window, last, now);
      }
    }
  }

  /** ratelimit.SlidingWindowLimiter, one list per key. */
  class SlidingWindowLimiter {
    var windows: map<GoString, seq<int>>
    const window: int
    const limit: int

    ghost var history: map<GoString, seq<int>>  // every grant ever made
    ghost var last: int                         // the latest time seen

    ghost predicate Valid()
      reads this
    {
      AllKept(windows, history, window, limit, last)
    }

    constructor (window: int, limit: int, ghost now: int)
      ensures Valid() && history == map[] && last == now
      ensures this.window == window && this.limit == limit
    {
      windows := map[];
      this.window, this.limit := window, limit;
      history, last := map[], now;
    }

    /** Grants exactly when fewer than limit past grants lie in (now - window, now]. */
    method Allow(key: GoString, now: int) returns (allowed: bool)
      requires Valid() && last <= now
      modifies this
      ensures Valid() && last == now
      ensures allowed <==> CountIn(Get(old(history), key), now, window) < limit
      ensures history == if allowed then old(history)[key := Get(old(history), key) + [now]] else old(history)
    {
      var times := if key in windows then windows[key] else [];
      ghost var granted := Get(history, key);
      assert KeyKept(times, granted, window, limit, last);
      var kept;
      allowed, kept := Admit(times, window, limit, now, granted, last);
      KeyReplaced(windows, history, window, limit, last, now, key, kept, if allowed then granted + [now] else granted);
      windows := windows[key := kept];
      history := if allowed then history[key := granted + [now]] else history;
      last := now;
    }

    method GetRemainingRequests(key: GoString, now: int) returns (remaining: int)
      requires Valid() && last <= now
      ensures remaining == limit - CountIn(Get(history, key), now, window)
    {
      var windowStart := now - window;
      assert KeyKept(Get(windows, key), Get(history, key), window, limit, last);
      KeptDecides(Get(windows, key), Get(history, key), window, last, now);
      if key !in windows {
        return limit;
      }
      var times := windows[key];
      var validCount := 0;
      for i := 0 to |times|
        invariant validCount == CountAfter(times[..i], windowStart)
      {
        assert times[..i + 1][..i] == times[..i];
        if times[i] > windowStart {
          validCount := validCount + 1;
        }
      }
      assert times[..|times|] == times;
      return limit - validCount;
    }
  }

  /** flowcontrol.SlidingWindow: one list, and a count of outstanding requests. */
  class FlowWindow {
    const maxOutstanding: int
    const windowSize: int
    var outstanding: int
    var window: seq<int>

    ghost var history: seq<int>
    ghost var releases: nat
    ghost var last: int

    ghost predicate Valid()
      reads this
    {
      && KeyKept(window, history, windowSize, maxOutstanding, last)
      && outstanding == |history| - releases
    }

    constructor (maxOutstanding: int, windowSize: int, ghost now: int)
      ensures Valid() && history == [] && releases == 0 && last == now
      ensures this.maxOutstanding == maxOutstanding && this.windowSize == windowSize
    {
      this.maxOutstanding, this.windowSize := maxOutstanding, windowSize;
      outstanding, window := 0, [];
      history, releases, last := [], 0, now;
    }

    method TryAcquire(now: int) returns (acquired: bool)
      requires Valid() && last <= now
      modifies this
      ensures Valid() && last == now && releases == old(releases)
      ensures acquired <==> CountIn(old(history), now, windowSize) < maxOutstanding
      ensures history == if acquired then old(history) + [now] else old(history)
    {
      var kept;
      acquired, kept := Admit(window, windowSize, maxOutstanding, now, history, last);
      window := kept;
      last := now;
      if acquired {
        outstanding := outstanding + 1;
        history := history + [now];
      }
    }

    /** Gives back one request; the window list, and so the decisions, do not change. */
    method Release()
      requires Valid()
      modifies this`outstanding, this`releases
      ensures Valid() && releases == old(releases) + 1 && outstanding == old(outstanding) - 1
    {
      outstanding := outstanding - 1;
      releases := releases + 1;
    }
  }

  // ---------------------------------------------------------------- the window as a set

  /** The places of the times in (end - window, end]. */
  function PlacesIn(times: seq<int>, end: int, window: int): set<nat> {
    set i: nat | i < |times| && end - window < times[i] <= end
  }

  lemma {:induction false} CountIsCardinality(times: seq<int>, end: int, window: int)
    ensures CountIn(times, end, window) == |PlacesIn(times, end, window)|
  {
    if times != [] {
      var n := |times| - 1;
      var before := PlacesIn(times[..n], end, window);
      CountIsCardinality(times[..n], end, window);
      assert n !in before;
      assert PlacesIn(times, end, window) == if end - window < times[n] <= end then before + {n} else before;
    }
  }
}
