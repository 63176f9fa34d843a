/** The bound on grants: how many tokens any window of a run can hand out. */
module RateLimitGrants {
  import opened RateLimit
  import opened RateLimitRuns

  /** Tokens one step hands out. */
  function GrantedBy(s: System, step: Step): int
    requires Enabled(s, step)
  {
    if Succeeds(s, step) then s.waiters[step.id].need else 0
  }

  /** Tokens the refill rate in force adds during one step. */
  function RefillDuring(s: System, step: Step): real {
    if step.Tick? then step.seconds * s.bucket.rate else 0.0
  }

  /** Tokens handed out by the steps from `i` up to `j`. */
  function GrantedBetween(run: Run, i: nat, j: nat): int
    requires IsRun(run) && i <= j <= |run.steps|
  {
    if i == j then 0
    else
      assert Follows(run, j - 1);
      GrantedBetween(run, i, j - 1) + GrantedBy(run.states[j - 1], run.steps[j - 1])
  }

  /** The refill rate integrated over the steps from `i` up to `j`. */
  function RefillBetween(run: Run, i: nat, j: nat): real
    requires IsRun(run) && i <= j <= |run.steps|
  {
    if i == j then 0.0 else RefillBetween(run, i, j - 1) + RefillDuring(run.states[j - 1], run.steps[j - 1])
  }

  lemma StepBound(s: System, step: Step)
    requires Inv(s) && Enabled(s, step)
    ensures GrantedBy(s, step) as real + Projected(Apply(s, step).bucket, Apply(s, step).clock)
            <= Projected(s.bucket, s.clock) + RefillDuring(s, step)
  {
    StepKeepsInv(s, step);
    ProjectionGrowth(s.bucket, s.bucket.last, s.clock);
    match step
    case Tick(seconds) =>
      ProjectionGrowth(s.bucket, s.clock, s.clock + seconds);
      assert s.clock + seconds - s.clock == seconds;
    case _ =>
  }

  /**
   * Whatever the interleaving, the tokens granted in any window of a run are covered by the balance projected at
   * its start plus what the refill rate, as it changed along the way, put back during the window.
   */
  lemma {:induction false} WindowBound(run: Run, i: nat, j: nat)
    requires IsRun(run) && i <= j <= |run.steps|
    ensures GrantedBetween(run, i, j) as real + Projected(run.states[j].bucket, run.states[j].clock)
            <= Projected(run.states[i].bucket, run.states[i].clock) + RefillBetween(run, i, j)
    decreases j
  {
    if i < j {
      WindowBound(run, i, j - 1);
      StepOf(run, j - 1);
      StepBound(run.states[j - 1], run.steps[j - 1]);
    }
  }

  /**
   * After a 429 the bucket starts from nothing, whatever it held and whatever hint came with it: in any window from
   * then on, only what has been refilled meanwhile is granted.
   */
  lemma GrantsAfterFeedback(run: Run, j: nat, k: nat)
    requires IsRun(run) && j < k <= |run.steps| && run.steps[j].Feedback?
    ensures Projected(run.states[j + 1].bucket, run.states[j + 1].clock) == 0.0
    ensures GrantedBetween(run, j + 1, k) as real <= RefillBetween(run, j + 1, k)
  {
    StepOf(run, j);
    AfterFeedback(run.states[j].bucket, run.steps[j].retryAfter, run.states[j].clock, run.states[j].clock);
    InvAlways(run, k);
    ProjectionGrowth(run.states[k].bucket, run.states[k].clock, run.states[k].clock);
    WindowBound(run, j + 1, k);
  }

  /** No rate in force in the run exceeds `rate`: neither the first one nor one a 429 calibrates. */
  predicate RatesAtMost(run: Run, rate: Rate)
    requires IsRun(run)
  {
    && run.states[0].bucket.rate <= rate
    && forall k | 0 <= k < |run.steps| && run.steps[k].Feedback? ::
         run.steps[k].retryAfter.Some? && run.steps[k].retryAfter.value > 0.0
         ==> PerToken(run.steps[k].retryAfter.value) <= rate
  }

  lemma {:induction false} RateStaysBelow(run: Run, rate: Rate, k: nat)
    requires IsRun(run) && RatesAtMost(run, rate) && k <= |run.steps|
    ensures run.states[k].bucket.rate <= rate
  {
    if k > 0 {
      RateStaysBelow(run, rate, k - 1);
      StepOf(run, k - 1);
    }
  }

  lemma StepRefillAtMost(s: System, step: Step, rate: Rate)
    requires Enabled(s, step) && s.bucket.rate <= rate
    ensures RefillDuring(s, step) <= (Apply(s, step).clock - s.clock) * rate
  {
    if step.Tick? {
      ProductMonotone(s.bucket.rate, rate, step.seconds);
      assert Apply(s, step).clock - s.clock == step.seconds;
    } else {
      assert Apply(s, step).clock - s.clock == 0.0;
    }
  }

  lemma RefillOf(run: Run, rate: Rate, k: nat)
    requires IsRun(run) && RatesAtMost(run, rate) && k < |run.steps|
    ensures run.states[k].clock <= run.states[k + 1].clock
    ensures RefillDuring(run.states[k], run.steps[k]) <= (run.states[k + 1].clock - run.states[k].clock) * rate
  {
    RateStaysBelow(run, rate, k);
    StepOf(run, k);
    StepRefillAtMost(run.states[k], run.steps[k], rate);
  }

  lemma {:induction false} RefillAtMost(run: Run, rate: Rate, i: nat, j: nat)
    requires IsRun(run) && RatesAtMost(run, rate) && i <= j <= |run.steps|
    ensures run.states[i].clock <= run.states[j].clock
    ensures RefillBetween(run, i, j) <= (run.states[j].clock - run.states[i].clock) * rate
    decreases j
  {
    if i < j {
      RefillAtMost(run, rate, i, j - 1);
      RefillOf(run, rate, j - 1);
      AddUp(RefillBetween(run, i, j - 1), RefillDuring(run.states[j - 1], run.steps[j - 1]),
            run.states[i].clock, run.states[j - 1].clock, run.states[j].clock, rate);
    }
  }

  lemma AddUp(sofar: real, more: real, x: real, y: real, z: real, rate: Rate)
    requires x <= y <= z && sofar <= (y - x) * rate && more <= (z - y) * rate
    ensures sofar + more <= (z - x) * rate
  {
    GainsAdd(x, y, z, rate);
  }

  /** In any window, at most the capacity plus the highest rate times the window's length. */
  lemma GrantsBounded(run: Run, rate: Rate, i: nat, j: nat)
    requires IsRun(run) && RatesAtMost(run, rate) && i <= j <= |run.steps|
    ensures GrantedBetween(run, i, j) as real
            <= run.states[0].bucket.capacity + (run.states[j].clock - run.states[i].clock) * rate
  {
    WindowBound(run, i, j);
    RefillAtMost(run, rate, i, j);
    InvAlways(run, i);
    InvAlways(run, j);
    var start, end := run.states[i], run.states[j];
    ProjectionGrowth(start.bucket, start.clock, start.clock);
    ProjectionGrowth(end.bucket, end.clock, end.clock);
  }

  /** What a bucket can hand out in `seconds` at no more than `rate`: its capacity, and what is refilled meanwhile. */
  function Allowance(capacity: real, seconds: real, rate: Rate): real {
    capacity + seconds * rate
  }

  lemma GrantsWithinAllowance(run: Run, rate: Rate, i: nat, j: nat)
    requires IsRun(run) && RatesAtMost(run, rate) && i <= j <= |run.steps|
    ensures GrantedBetween(run, i, j) as real
            <= Allowance(run.states[0].bucket.capacity, run.states[j].clock - run.states[i].clock, rate)
  {
    GrantsBounded(run, rate, i, j);
  }
}
