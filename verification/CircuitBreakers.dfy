/** CircuitBreaker.Call, one call after another. */
module CircuitBreakers {
  datatype State = Closed | Open | HalfOpen

  datatype Config = Config(failureThreshold: int, resetTimeout: int, successThreshold: int)

  datatype Breaker = Breaker(config: Config, state: State, failures: int, successes: int, lastFailure: int)

  /** A call: when the breaker looks at the clock, when the function would return, and how. */
  datatype Call = Call(start: int, end: int, fails: bool)

  datatype Outcome = Rejected | Failed | Succeeded

  datatype Step = Step(breaker: Breaker, outcome: Outcome)

  predicate Rejects(b: Breaker, c: Call) {
    b.state == Open && c.start - b.lastFailure < b.config.resetTimeout
  }

  function CallStep(b: Breaker, c: Call): Step {
    if Rejects(b, c) then Step(b, Rejected)
    else if b.state == Closed then
      if c.fails then
        Step(b.(failures := b.failures + 1, lastFailure := c.end,
                state := if b.failures + 1 >= b.config.failureThreshold then Open else Closed), Failed)
      else Step(b.(failures := 0), Succeeded)
    else
      var successes := if b.state == Open then 0 else b.successes;
      if c.fails then
        Step(b.(failures := b.failures + 1, successes := successes, lastFailure := c.end, state := Open), Failed)
      else if successes + 1 >= b.config.successThreshold then
        Step(b.(failures := 0, successes := successes + 1, state := Closed), Succeeded)
      else Step(b.(successes := successes + 1, state := HalfOpen), Succeeded)
  }

  class CircuitBreaker {
    const config: Config
    var state: State
    var failures: int
    var successes: int
    var lastFailure: int

    function View(): Breaker
      reads this
    {
      Breaker(config, state, failures, successes, lastFailure)
    }

    constructor (config: Config)
      ensures View() == Breaker(config, Closed, 0, 0, 0)
    {
      this.config, state, failures, successes, lastFailure := config, Closed, 0, 0, 0;
    }

    method Call(c: Call) returns (outcome: Outcome)
      modifies this
      ensures Step(View(), outcome) == CallStep(old(View()), c)
    {
      if state == Closed {
        if c.fails {
          failures := failures + 1;
          lastFailure := c.end;
          if failures >= config.failureThreshold {
            state := Open;
          }
          return Failed;
        }
        failures := 0;
        return Succeeded;
      }
      if state == Open {
        if c.start - lastFailure < config.resetTimeout {
          return Rejected;
        }
        state := HalfOpen;
        successes := 0;
      }
      if c.fails {
        failures := failures + 1;
        lastFailure := c.end;
        state := Open;
        return Failed;
      }
      successes := successes + 1;
      if successes >= config.successThreshold {
        state := Closed;
        failures := 0;
      }
      return Succeeded;
    }
  }

  // ---------------------------------------------------------------- runs

  /** A call whose function was run: as a trial if the breaker was not closed. */
  datatype Run = Run(trial: bool, failed: bool, start: int, end: int)

  /** The breaker after a sequence of calls, and the functions run on the way. */
  datatype Trace = Trace(breaker: Breaker, runs: seq<Run>)

  function After(config: Config, calls: seq<Call>): Trace {
    if calls == [] then Trace(Breaker(config, Closed, 0, 0, 0), [])
    else
      var c := calls[|calls| - 1];
      var t := After(config, calls[..|calls| - 1]);
      var s := CallStep(t.breaker, c);
      Trace(s.breaker, if s.outcome == Rejected then t.runs
                       else t.runs + [Run(t.breaker.state != Closed, s.outcome == Failed, c.start, c.end)])
  }

  function Last(runs: seq<Run>): Run
    requires runs != []
  {
    runs[|runs| - 1]
  }

  /** The length of the run of failures the history ends with. */
  function TrailingFailures(runs: seq<Run>): nat {
    if runs == [] || !Last(runs).failed then 0 else 1 + TrailingFailures(runs[..|runs| - 1])
  }

  /** The length of the run of successful trials the history ends with. */
  function TrailingTrialSuccesses(runs: seq<Run>): nat {
    if runs == [] || Last(runs).failed || !Last(runs).trial then 0
    else 1 + TrailingTrialSuccesses(runs[..|runs| - 1])
  }

  /** The state a breaker should be in, told from the history alone: open after a failed trial
      or when the failures in a row reach the threshold; half-open while the successful trials
      in a row are too few; closed otherwise. */
  function StateOf(config: Config, runs: seq<Run>): State {
    if runs == [] then Closed
    else if Last(runs).failed then
      if Last(runs).trial || TrailingFailures(runs) >= config.failureThreshold then Open else Closed
    else if Last(runs).trial && TrailingTrialSuccesses(runs) < config.successThreshold then HalfOpen
    else Closed
  }

  function Max(a: int, b: int): int {
    if a >= b then a else b
  }

  ghost predicate AgreesWith(b: Breaker, config: Config, runs: seq<Run>) {
    && b.config == config
    && b.state == StateOf(config, runs)
    && (b.state == Closed ==> b.failures == TrailingFailures(runs) < Max(1, config.failureThreshold))
    && (b.state == HalfOpen ==> 1 <= b.successes == TrailingTrialSuccesses(runs) < config.successThreshold)
    && (b.state == Open ==> runs != [] && Last(runs).failed && b.lastFailure == Last(runs).end)
  }

  /** A run that may follow the runs before it: a trial exactly if the breaker was not closed, and
      not while open within the reset timeout of the last failure. */
  predicate Allowed(config: Config, before: seq<Run>, r: Run) {
    && (r.trial <==> StateOf(config, before) != Closed)
    && (StateOf(config, before) == Open ==> before != [] && r.start - Last(before).end >= config.resetTimeout)
  }

  ghost predicate RunsAllowed(config: Config, runs: seq<Run>) {
    forall k | 0 <= k < |runs| :: Allowed(config, runs[..k], runs[k])
  }

  lemma StepAgrees(b: Breaker, config: Config, runs: seq<Run>, c: Call)
    requires AgreesWith(b, config, runs)
    ensures var s := CallStep(b, c);
            && (s.outcome == Rejected ==> s.breaker == b)
            && (s.outcome != Rejected ==>
                  AgreesWith(s.breaker, config, runs + [Run(b.state != Closed, s.outcome == Failed, c.start, c.end)]))
  {
    var s := CallStep(b, c);
    var r := Run(b.state != Closed, s.outcome == Failed, c.start, c.end);
    var all := runs + [r];
    assert Last(all) == r && all[..|all| - 1] == runs;
    assert TrailingFailures(all) == if r.failed then 1 + TrailingFailures(runs) else 0;
    assert TrailingTrialSuccesses(all) == if r.failed || !r.trial then 0 else 1 + TrailingTrialSuccesses(runs);
    assert b.state == Open ==> TrailingTrialSuccesses(runs) == 0;
  }

  lemma AllowedSnoc(config: Config, runs: seq<Run>, r: Run)
    requires RunsAllowed(config, runs) && Allowed(config, runs, r)
    ensures RunsAllowed(config, runs + [r])
  {
    var all := runs + [r];
    forall k | 0 <= k < |all| ensures Allowed(config, all[..k], all[k]) {
      assert all[..k] == if k < |runs| then runs[..k] else runs;
    }
  }

  /** After any sequence of calls the breaker is in the state its history calls for, its
      counters count the trailing failures or successful trials, and every function run was
      allowed. */
  lemma {:induction false} BreakerFollowsHistory(config: Config, calls: seq<Call>)
    ensures AgreesWith(After(config, calls).breaker, config, After(config, calls).runs)
    ensures RunsAllowed(config, After(config, calls).runs)
  {
    if calls != [] {
      var c := calls[|calls| - 1];
      BreakerFollowsHistory(config, calls[..|calls| - 1]);
      var t := After(config, calls[..|calls| - 1]);
      var s := CallStep(t.breaker, c);
      StepAgrees(t.breaker, config, t.runs, c);
      if s.outcome != Rejected {
        AllowedSnoc(config, t.runs, Run(t.breaker.state != Closed, s.outcome == Failed, c.start, c.end));
      }
    }
  }

  /** Closing takes SuccessThreshold successful trials in a row: a closed breaker whose last
      run was a trial has just seen them. */
  lemma ClosingTakesSuccesses(config: Config, calls: seq<Call>, k: nat)
    requires After(config, calls).breaker.state == Closed
    requires After(config, calls).runs != [] && Last(After(config, calls).runs).trial
    requires k < config.successThreshold
    ensures var runs := After(config, calls).runs;
            k < |runs| && runs[|runs| - 1 - k].trial && !runs[|runs| - 1 - k].failed
  {
    BreakerFollowsHistory(config, calls);
    TrailingTrials(After(config, calls).runs, k);
  }

  lemma {:induction false} TrailingTrials(runs: seq<Run>, k: nat)
    requires k < TrailingTrialSuccesses(runs)
    ensures k < |runs| && runs[|runs| - 1 - k].trial && !runs[|runs| - 1 - k].failed
  {
    if k > 0 {
      TrailingTrials(runs[..|runs| - 1], k - 1);
    }
  }

  // ---------------------------------------------------------------- every outcome

  /** A call is turned away: the history says open, and the last failure ended less than the reset
      timeout ago. */
  predicate TurnedAway(config: Config, runs: seq<Run>, c: Call) {
    StateOf(config, runs) == Open && runs != [] && c.start - Last(runs).end < config.resetTimeout
  }

  /** Every call but those turned away runs its function, and reports what the function did. */
  lemma OutcomeExactly(config: Config, calls: seq<Call>, c: Call)
    ensures var t := After(config, calls);
            var o := CallStep(t.breaker, c).outcome;
            && (o == Rejected <==> TurnedAway(config, t.runs, c))
            && (o == Failed <==> !TurnedAway(config, t.runs, c) && c.fails)
            && (o == Succeeded <==> !TurnedAway(config, t.runs, c) && !c.fails)
  {
    BreakerFollowsHistory(config, calls);
  }

  /** The functions that should have been run, told from the calls without any breaker. */
  function Ran(config: Config, calls: seq<Call>): seq<Run> {
    if calls == [] then []
    else
      var before, c := Ran(config, calls[..|calls| - 1]), calls[|calls| - 1];
      if TurnedAway(config, before, c) then before
      else before + [Run(StateOf(config, before) != Closed, c.fails, c.start, c.end)]
  }

  lemma {:induction false} RunsExactly(config: Config, calls: seq<Call>)
    ensures After(config, calls).runs == Ran(config, calls)
    ensures After(config, calls).breaker.state == StateOf(config, Ran(config, calls))
  {
    BreakerFollowsHistory(config, calls);
    if calls != [] {
      var n := |calls| - 1;
      RunsExactly(config, calls[..n]);
      BreakerFollowsHistory(config, calls[..n]);
      OutcomeExactly(config, calls[..n], calls[n]);
    }
  }

  lemma {:induction false} FailuresInARow(config: Config, calls: seq<Call>)
    requires forall i | 0 <= i < |calls| :: calls[i].fails
    requires |calls| <= Max(1, config.failureThreshold)
    ensures var runs := Ran(config, calls);
            && |runs| == |calls| == TrailingFailures(runs)
            && (runs != [] ==> Last(runs) == Run(false, true, calls[|calls| - 1].start, calls[|calls| - 1].end))
            && (StateOf(config, runs) == if |calls| < Max(1, config.failureThreshold) then Closed else Open)
  {
    if calls != [] {
      var n := |calls| - 1;
      FailuresInARow(config, calls[..n]);
      OneMoreFailure(config, Ran(config, calls[..n]), calls[n]);
    }
  }

  lemma OneMoreFailure(config: Config, before: seq<Run>, c: Call)
    requires TrailingFailures(before) == |before| < Max(1, config.failureThreshold)
    requires before != [] ==> !Last(before).trial
    ensures StateOf(config, before) == Closed
    ensures var all := before + [Run(false, true, c.start, c.end)];
            && TrailingFailures(all) == |all|
            && StateOf(config, all) == if |all| < Max(1, config.failureThreshold) then Closed else Open
  {
    assert (before + [Run(false, true, c.start, c.end)])[..|before|] == before;
  }

  /** From a new breaker as many failures as the threshold open it, no fewer; it then turns calls away
      until the reset timeout has passed, and runs the first call after that. */
  lemma OpensAtThreshold(config: Config, calls: seq<Call>, c: Call)
    requires forall i | 0 <= i < |calls| :: calls[i].fails
    requires |calls| <= Max(1, config.failureThreshold)
    ensures After(config, calls).breaker.state == if |calls| < Max(1, config.failureThreshold) then Closed else Open
    ensures |calls| == Max(1, config.failureThreshold) ==>
              (CallStep(After(config, calls).breaker, c).outcome == Rejected <==>
               c.start - calls[|calls| - 1].end < config.resetTimeout)
  {
    RunsExactly(config, calls);
    FailuresInARow(config, calls);
    OutcomeExactly(config, calls, c);
  }
}
