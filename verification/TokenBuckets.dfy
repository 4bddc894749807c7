/** The token bucket in exact arithmetic: times in nanoseconds, a real refill rate per second. */
module TokenBuckets {
  const SECOND: real := 1_000_000_000.0

  /** `int64(x)`: truncation toward zero. */
  function Truncate(x: real): int {
    if x >= 0.0 then x.Floor else -((-x).Floor)
  }

  datatype Bucket = Bucket(capacity: int, tokens: int, rate: real, lastRefill: int)

  /** The tokens a rate earns in an interval, as a real number. */
  function Earned(rate: real, from: int, to: int): real {
    (to - from) as real * rate / SECOND
  }

  function Refilled(b: Bucket, now: int): Bucket {
    var tokensToAdd := Truncate(Earned(b.rate, b.lastRefill, now));
    if tokensToAdd > 0 then
      b.(tokens := if b.tokens + tokensToAdd > b.capacity then b.capacity else b.tokens + tokensToAdd, lastRefill := now)
    else b
  }

  datatype Step = Step(bucket: Bucket, granted: bool)

  /** AllowN; Allow is AllowN of one token. */
  function AllowStep(b: Bucket, now: int, n: int): Step {
    var r := Refilled(b, now);
    if r.tokens >= n then Step(r.(tokens := r.tokens - n), true) else Step(r, false)
  }

  class TokenBucket {
    const capacity: int
    var tokens: int
    const refillRate: real
    var lastRefill: int

    function View(): Bucket
      reads this
    {
      Bucket(capacity, tokens, refillRate, lastRefill)
    }

    constructor (capacity: int, refillRate: real, now: int)
      ensures View() == Bucket(capacity, capacity, refillRate, now)
    {
      this.capacity, tokens, this.refillRate, lastRefill := capacity, capacity, refillRate, now;
    }

    method Refill(now: int)
      modifies this
      ensures View() == Refilled(old(View()), now)
    {
      var elapsed := now - lastRefill;
      var tokensToAdd := Truncate(elapsed as real * refillRate / SECOND);
      if tokensToAdd > 0 {
        tokens := tokens + tokensToAdd;
        if tokens > capacity {
          tokens := capacity;
        }
        lastRefill := now;
      }
    }

    method Allow(now: int) returns (allowed: bool)
      modifies this
      ensures Step(View(), allowed) == AllowStep(old(View()), now, 1)
    {
      Refill(now);
      if tokens > 0 {
        tokens := tokens - 1;
        return true;
      }
      return false;
    }

    method AllowN(n: int, now: int) returns (allowed: bool)
      modifies this
      ensures Step(View(), allowed) == AllowStep(old(View()), now, n)
    {
      Refill(now);
      if tokens >= n {
        tokens := tokens - n;
        return true;
      }
      return false;
    }

    method Tokens(now: int) returns (n: int)
      modifies this
      ensures View() == Refilled(old(View()), now) && n == tokens
    {
      Refill(now);
      n := tokens;
    }
  }

  // ---------------------------------------------------------------- runs

  datatype Request = Request(time: int, n: int)

  /** The bucket after each request of a run, and the tokens granted so far. */
  datatype Ledger = Ledger(bucket: Bucket, granted: int)

  function After(b: Bucket, requests: seq<Request>): Ledger {
    if requests == [] then Ledger(b, 0)
    else
      var k := |requests| - 1;
      var before := After(b, requests[..k]);
      var step := AllowStep(before.bucket, requests[k].time, requests[k].n);
      Ledger(step.bucket, before.granted + if step.granted then requests[k].n else 0)
  }

  /** Requests for n >= 0 tokens each, at non-decreasing times from start on. */
  ghost predicate Monotone(requests: seq<Request>, start: int) {
    && (forall i | 0 <= i < |requests| :: requests[i].n >= 0 && requests[i].time >= start)
    && forall i, j | 0 <= i < j < |requests| :: requests[i].time <= requests[j].time
  }

  /** A bucket with its tokens between 0 and capacity, and a rate that is not negative. */
  predicate Sound(b: Bucket) {
    0 <= b.tokens <= b.capacity && b.rate >= 0.0
  }

  lemma EarnedAdds(rate: real, a: int, b: int, c: int)
    ensures Earned(rate, a, b) + Earned(rate, b, c) == Earned(rate, a, c)
  {
    var x, y := (b - a) as real, (c - b) as real;
    assert (c - a) as real == x + y;
    assert (x + y) * rate == x * rate + y * rate;
    assert (x * rate + y * rate) / SECOND == x * rate / SECOND + y * rate / SECOND;
  }

  lemma EarnedNotNegative(rate: real, a: int, b: int)
    requires rate >= 0.0 && a <= b
    ensures Earned(rate, a, b) >= 0.0
  {
    assert (b - a) as real * rate >= 0.0;
  }

  /** A refill never creates tokens: what it adds, the elapsed time has earned. */
  lemma RefillBound(b: Bucket, now: int)
    requires Sound(b) && b.lastRefill <= now
    ensures Sound(Refilled(b, now)) && Refilled(b, now).lastRefill <= now
    ensures Refilled(b, now).tokens as real <= b.tokens as real + Earned(b.rate, b.lastRefill, Refilled(b, now).lastRefill)
    ensures Earned(b.rate, Refilled(b, now).lastRefill, now) < 1.0
  {
    EarnedNotNegative(b.rate, b.lastRefill, now);
    assert Earned(b.rate, b.lastRefill, b.lastRefill) == 0.0;
    assert Earned(b.rate, now, now) == 0.0;
  }

  /** Refilling twice at one time is refilling once. */
  lemma RefillTwice(b: Bucket, now: int)
    requires Sound(b) && b.lastRefill <= now
    ensures Refilled(Refilled(b, now), now) == Refilled(b, now)
  {
    RefillBound(b, now);
    EarnedNotNegative(b.rate, Refilled(b, now).lastRefill, now);
  }

  /** A request keeps the tokens between 0 and capacity exactly when it asks for no fewer than
      the tokens missing, negated; every request for n >= 0 does. */
  lemma SoundExactly(b: Bucket, now: int, n: int)
    requires Sound(b) && b.lastRefill <= now
    ensures Sound(AllowStep(b, now, n).bucket) <==> n >= Refilled(b, now).tokens - b.capacity
    ensures n >= 0 ==> Sound(AllowStep(b, now, n).bucket)
  {
    RefillBound(b, now);
  }

  /** A negative request on a full bucket overfills it. */
  lemma NegativeRequestOverfills(b: Bucket)
    requires Sound(b) && b.tokens == b.capacity
    ensures AllowStep(b, b.lastRefill, -1).granted
    ensures AllowStep(b, b.lastRefill, -1).bucket.tokens == b.capacity + 1
  {
    assert Earned(b.rate, b.lastRefill, b.lastRefill) == 0.0;
  }

  lemma NegativeCapacityStep(b: Bucket, now: int, n: int)
    requires b.tokens <= b.capacity < 0 && n >= 0
    ensures !AllowStep(b, now, n).granted
    ensures var next := AllowStep(b, now, n).bucket; next.tokens <= next.capacity == b.capacity
  {
  }

  /** A bucket made with a negative capacity never grants anything, whatever the clock does. */
  lemma {:induction false} NegativeCapacityGrantsNothing(b: Bucket, requests: seq<Request>)
    requires b.tokens <= b.capacity < 0 && forall i | 0 <= i < |requests| :: requests[i].n >= 0
    ensures After(b, requests).granted == 0
    ensures var l := After(b, requests); l.bucket.tokens <= l.bucket.capacity == b.capacity
  {
    if requests != [] {
      var k := |requests| - 1;
      NegativeCapacityGrantsNothing(b, requests[..k]);
      NegativeCapacityStep(After(b, requests[..k]).bucket, requests[k].time, requests[k].n);
    }
  }

  lemma MonotonePrefix(requests: seq<Request>, start: int, k: nat)
    requires Monotone(requests, start) && k <= |requests|
    ensures Monotone(requests[..k], start)
  {
  }

  /** Over any run: what was granted and what is left never exceed what the bucket held and
      what the time has earned. */
  lemma {:induction false} LedgerBound(b: Bucket, requests: seq<Request>)
    requires Sound(b) && Monotone(requests, b.lastRefill)
    ensures var l := After(b, requests);
            && Sound(l.bucket) && l.bucket.capacity == b.capacity && l.bucket.rate == b.rate
            && l.granted >= 0
            && b.lastRefill <= l.bucket.lastRefill
            && (requests == [] ==> l.bucket == b)
            && (requests != [] ==> l.bucket.lastRefill <= requests[|requests| - 1].time)
            && (l.granted + l.bucket.tokens) as real <= b.tokens as real + Earned(b.rate, b.lastRefill, l.bucket.lastRefill)
  {
    assert Earned(b.rate, b.lastRefill, b.lastRefill) == 0.0;
    if requests != [] {
      var k := |requests| - 1;
      MonotonePrefix(requests, b.lastRefill, k);
      LedgerBound(b, requests[..k]);
      var before := After(b, requests[..k]);
      var now := requests[k].time;
      RefillBound(before.bucket, now);
      EarnedAdds(b.rate, b.lastRefill, before.bucket.lastRefill, Refilled(before.bucket, now).lastRefill);
    }
  }

  /** From creation to time t a bucket grants at most capacity + rate * (t - creation). */
  lemma GrantedSinceCreation(capacity: nat, rate: real, created: int, requests: seq<Request>, t: int)
    requires rate >= 0.0 && Monotone(requests, created)
    requires created <= t && (requests != [] ==> requests[|requests| - 1].time <= t)
    ensures After(Bucket(capacity, capacity, rate, created), requests).granted as real <=
            capacity as real + Earned(rate, created, t)
  {
    var b := Bucket(capacity, capacity, rate, created);
    LedgerBound(b, requests);
    var last := After(b, requests).bucket.lastRefill;
    EarnedAdds(rate, created, last, t);
    EarnedNotNegative(rate, last, t);
  }

  lemma {:induction false} AfterSplit(b: Bucket, requests: seq<Request>, i: nat)
    requires i <= |requests|
    ensures var first := After(b, requests[..i]);
            var second := After(first.bucket, requests[i..]);
            After(b, requests) == Ledger(second.bucket, first.granted + second.granted)
  {
    if i == |requests| {
      assert requests[..i] == requests && requests[i..] == [];
    } else {
      var k := |requests| - 1;
      AfterSplit(b, requests[..k], i);
      assert requests[..k][..i] == requests[..i];
      assert requests[i..][..k - i] == requests[..k][i..];
      assert requests[i..][k - i] == requests[k];
    }
  }

  /** Starting a run with the refill its first request makes anyway changes nothing. */
  lemma {:induction false} RefillFirst(b: Bucket, requests: seq<Request>)
    requires Sound(b) && requests != [] && Monotone(requests, b.lastRefill)
    ensures After(Refilled(b, requests[0].time), requests) == After(b, requests)
  {
    if |requests| == 1 {
      assert requests[..0] == [];
      RefillTwice(b, requests[0].time);
    } else {
      var k := |requests| - 1;
      MonotonePrefix(requests, b.lastRefill, k);
      assert requests[..k][0] == requests[0];
      RefillFirst(b, requests[..k]);
    }
  }

  /** What a bucket refilled at s can still grant until t. */
  lemma GrantedFrom(d: Bucket, requests: seq<Request>, s: int, t: int)
    requires Sound(d) && requests != [] && Monotone(requests, d.lastRefill)
    requires requests[0].time == s && requests[|requests| - 1].time == t
    requires Earned(d.rate, d.lastRefill, s) < 1.0
    ensures After(d, requests).granted as real < d.capacity as real + 1.0 + Earned(d.rate, s, t)
  {
    LedgerBound(d, requests);
    var l := After(d, requests);
    EarnedUntil(d.rate, d.lastRefill, l.bucket.lastRefill, s, t);
    assert l.granted as real <= (l.granted + l.bucket.tokens) as real;
  }

  lemma EarnedUntil(rate: real, from: int, last: int, s: int, t: int)
    requires rate >= 0.0 && last <= t && Earned(rate, from, s) < 1.0
    ensures Earned(rate, from, last) < 1.0 + Earned(rate, s, t)
  {
    EarnedAdds(rate, from, s, t);
    EarnedAdds(rate, from, last, t);
    EarnedNotNegative(rate, last, t);
  }

  /** A run's grants depend on its first and last times only. */
  lemma GrantedInRun(c: Bucket, requests: seq<Request>)
    requires Sound(c) && requests != [] && Monotone(requests, c.lastRefill)
    ensures After(c, requests).granted as real <
            c.capacity as real + 1.0 + Earned(c.rate, requests[0].time, requests[|requests| - 1].time)
  {
    var s := requests[0].time;
    RefillBound(c, s);
    RefillFirst(c, requests);
    assert forall i | 0 < i < |requests| :: s <= requests[i].time;
    GrantedFrom(Refilled(c, s), requests, s, requests[|requests| - 1].time);
  }

  /** Over any later interval [s, t] of a run a bucket grants less than
      capacity + 1 + rate * (t - s). */
  lemma GrantedInInterval(b: Bucket, requests: seq<Request>, i: nat)
    requires Sound(b) && Monotone(requests, b.lastRefill) && i < |requests|
    ensures (After(b, requests).granted - After(b, requests[..i]).granted) as real <
            b.capacity as real + 1.0 + Earned(b.rate, requests[i].time, requests[|requests| - 1].time)
  {
    MonotonePrefix(requests, b.lastRefill, i);
    LedgerBound(b, requests[..i]);
    var c := After(b, requests[..i]).bucket;
    GrantedDifference(b, requests, i, c);
    EarlierRequests(requests, b.lastRefill, i, c.lastRefill);
    MonotoneTail(requests, b.lastRefill, i, c.lastRefill);
    GrantedInRun(c, requests[i..]);
  }

  lemma GrantedDifference(b: Bucket, requests: seq<Request>, i: nat, c: Bucket)
    requires i <= |requests| && c == After(b, requests[..i]).bucket
    ensures After(b, requests).granted - After(b, requests[..i]).granted == After(c, requests[i..]).granted
  {
    AfterSplit(b, requests, i);
  }

  lemma EarlierRequests(requests: seq<Request>, start: int, i: nat, last: int)
    requires Monotone(requests, start) && i < |requests|
    requires i == 0 ==> last == start
    requires i > 0 ==> last <= requests[..i][i - 1].time
    ensures last <= requests[i].time
  {
  }

  lemma MonotoneTail(requests: seq<Request>, start: int, i: nat, later: int)
    requires Monotone(requests, start) && i < |requests| && later <= requests[i].time
    ensures Monotone(requests[i..], later)
    ensures requests[i..][0] == requests[i]
    ensures requests[i..][|requests| - i - 1] == requests[|requests| - 1]
  {
    var tail := requests[i..];
    forall j | 0 <= j < |tail| ensures tail[j] == requests[i + j] && tail[j].time >= later {
      assert j > 0 ==> requests[i].time <= requests[i + j].time;
    }
  }

  // ---------------------------------------------------------------- exactly what is granted

  lemma WholeTokens(x: real)
    ensures Truncate(x) > 0 <==> x >= 1.0
    ensures x >= 1.0 ==> Truncate(x) == x.Floor
  {
  }

  /** A request is granted exactly when what was left and the whole tokens earned since the last refill,
      up to the capacity, are enough; it then takes what it asks for.  The bucket's clock moves only
      when a whole token has been earned, and a clock that has gone back earns nothing. */
  lemma GrantedExactly(b: Bucket, now: int, n: int)
    ensures var x := (now - b.lastRefill) as real * b.rate / 1_000_000_000.0;
            var earned := if x >= 1.0 then x.Floor else 0;
            var held := if earned > 0 && b.tokens + earned > b.capacity then b.capacity else b.tokens + earned;
            var step := AllowStep(b, now, n);
            && (step.granted <==> n <= held)
            && step.bucket == Bucket(b.capacity, if step.granted then held - n else held, b.rate,
                                     if earned > 0 then now else b.lastRefill)
  {
    WholeTokens(Earned(b.rate, b.lastRefill, now));
  }

  /** An emptied bucket grants a token again as soon as one has been earned, and not before. */
  lemma EmptyGrantsAgain(b: Bucket, now: int)
    requires Sound(b) && b.tokens == 0 < b.capacity && b.lastRefill <= now
    ensures AllowStep(b, now, 1).granted <==> Earned(b.rate, b.lastRefill, now) >= 1.0
  {
    EarnedNotNegative(b.rate, b.lastRefill, now);
  }
}
