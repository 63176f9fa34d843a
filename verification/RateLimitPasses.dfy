/** The bound on passes: how often callers can come back to the critical section before they are served. */
module RateLimitPasses {
  import opened Wrappers
  import opened RateLimit
  import opened RateLimitRuns

  function Count(b: bool): nat {
    if b then 1 else 0
  }

  predicate IsExternal(step: Step) {
    step.Report? || step.Feedback?
  }

  /** How many of the first `k` steps are passes over the critical section. */
  function Passes(run: Run, k: nat): nat
    requires k <= |run.steps|
  {
    if k == 0 then 0 else Passes(run, k - 1) + Count(run.steps[k - 1].Pass?)
  }

  function Arrivals(run: Run, k: nat): nat
    requires k <= |run.steps|
  {
    if k == 0 then 0 else Arrivals(run, k - 1) + Count(run.steps[k - 1].Arrive?)
  }

  /** RPC reports and 429 feedbacks: the disturbances that are not grants. */
  function Externals(run: Run, k: nat): nat
    requires k <= |run.steps|
  {
    if k == 0 then 0 else Externals(run, k - 1) + Count(IsExternal(run.steps[k - 1]))
  }

  /** Callers whose next pass may still fail. */
  function MayFail(s: System): set<CallerId> {
    set id | id in s.waiters && s.waiters[id].seen != Some(s.disturbances)
  }

  /** m(m + 1): two units for each pair of a waiter and a grant it may have to outlive. */
  function Rounds(m: nat): nat {
    if m == 0 then 0 else Rounds(m - 1) + 2 * m
  }

  /** Twice the number of passes that can still happen if nothing else arrives, reports or is fed back. */
  function Potential(s: System): nat {
    2 * |MayFail(s)| + Rounds(|s.waiters|)
  }

  lemma SubsetSize<T>(a: set<T>, b: set<T>)
    requires a <= b
    ensures |a| <= |b|
  {
    assert b == a + (b - a);
  }

  lemma MayFailIsSmall(s: System)
    ensures |MayFail(s)| <= |s.waiters|
  {
    SubsetSize(MayFail(s), s.waiters.Keys);
  }

  /** Every pass, granted or not, uses up potential. */
  lemma PassSpendsPotential(s: System, id: CallerId)
    requires Inv(s) && Enabled(s, Pass(id))
    ensures Potential(Apply(s, Pass(id))) + 2 <= Potential(s)
    ensures |Apply(s, Pass(id)).waiters| <= |s.waiters|
  {
    var s' := Apply(s, Pass(id));
    var m := |s.waiters|;
    if Succeeds(s, Pass(id)) {
      assert s'.waiters.Keys == s.waiters.Keys - {id};
      assert |s'.waiters| == m - 1;
      MayFailIsSmall(s');
    } else {
      FailureNeedsDisturbance(s, id);
      assert MayFail(s') == MayFail(s) - {id};
      assert s'.waiters.Keys == s.waiters.Keys;
      assert |s'.waiters| == m;
    }
  }

  lemma ArrivalSizes(s: System, id: CallerId, n: int)
    requires Enabled(s, Arrive(id, n)) && MustWait(s, n)
    ensures |Apply(s, Arrive(id, n)).waiters| == |s.waiters| + 1
    ensures |MayFail(Apply(s, Arrive(id, n)))| == |MayFail(s)| + 1
  {
    var s' := Apply(s, Arrive(id, n));
    assert s'.waiters.Keys == s.waiters.Keys + {id};
    assert MayFail(s') == MayFail(s) + {id};
  }

  lemma ArrivalPotential(s: System, id: CallerId, n: int)
    requires Inv(s) && Enabled(s, Arrive(id, n))
    ensures Potential(Apply(s, Arrive(id, n))) <= Potential(s) + 2 * |s.waiters| + 4
    ensures |Apply(s, Arrive(id, n)).waiters| <= |s.waiters| + 1
  {
    if MustWait(s, n) {
      ArrivalSizes(s, id, n);
    }
  }

  lemma ExternalPotential(s: System, step: Step)
    requires Inv(s) && Enabled(s, step) && !step.Arrive? && !step.Pass?
    ensures Apply(s, step).waiters == s.waiters
    ensures Potential(Apply(s, step)) <= Potential(s) + if step.Tick? then 0 else 2 * |s.waiters|
  {
    MayFailIsSmall(Apply(s, step));
    if step.Tick? {
      assert MayFail(Apply(s, step)) == MayFail(s);
    }
  }

  /** Twice the passes that `a` callers and `e` reports or feedbacks allow: a(a + 3) + 2ea. */
  function PassBudget(a: nat, e: nat): nat {
    if a == 0 then 0 else PassBudget(a - 1, e) + 2 * a + 2 + 2 * e
  }

  lemma {:induction false} BudgetClosedForm(a: nat, e: nat)
    ensures PassBudget(a, e) == a * (a + 3) + 2 * e * a
  {
    if a > 0 {
      BudgetClosedForm(a - 1, e);
      assert (a - 1) * (a + 2) + 2 * a + 2 == a * (a + 3);
    }
  }

  lemma {:induction false} BudgetGrowth(a: nat, e: nat)
    ensures PassBudget(a, e + 1) == PassBudget(a, e) + 2 * a
  {
    if a > 0 {
      BudgetGrowth(a - 1, e);
    }
  }

  /** One step spends two units per pass and earns what its arrival or disturbance adds to the budget. */
  predicate WithinBudget(s: System, step: Step, a: nat, e: nat)
    requires Enabled(s, step)
  {
    var a', e' := a + Count(step.Arrive?), e + Count(IsExternal(step));
    && |Apply(s, step).waiters| <= a'
    && 2 * Count(step.Pass?) + Potential(Apply(s, step)) + PassBudget(a, e) <= Potential(s) + PassBudget(a', e')
  }

  lemma ArrivalBudget(s: System, step: Step, a: nat, e: nat)
    requires Inv(s) && Enabled(s, step) && step.Arrive? && |s.waiters| <= a
    ensures WithinBudget(s, step, a, e)
  {
    ArrivalPotential(s, step.id, step.n);
  }

  lemma DisturbanceBudget(s: System, step: Step, a: nat, e: nat)
    requires Inv(s) && Enabled(s, step) && IsExternal(step) && |s.waiters| <= a
    ensures WithinBudget(s, step, a, e)
  {
    ExternalPotential(s, step);
    BudgetGrowth(a, e);
  }

  lemma PassWithinBudget(s: System, step: Step, a: nat, e: nat)
    requires Inv(s) && Enabled(s, step) && step.Pass? && |s.waiters| <= a
    ensures WithinBudget(s, step, a, e)
  {
    PassSpendsPotential(s, step.id);
  }

  lemma StepBudget(s: System, step: Step, a: nat, e: nat)
    requires Inv(s) && Enabled(s, step) && |s.waiters| <= a
    ensures WithinBudget(s, step, a, e)
  {
    match step
    case Arrive(_, _) => ArrivalBudget(s, step, a, e);
    case Pass(_) => PassWithinBudget(s, step, a, e);
    case Tick(_) => ExternalPotential(s, step);
    case _ => DisturbanceBudget(s, step, a, e);
  }

  /**
   * From an empty queue, whatever the interleaving: with `a` callers and `e` reports or feedbacks so far, twice the
   * passes made plus the remaining potential stay within a(a + 3) + 2ea.
   */
  lemma {:induction false} PassesBounded(run: Run, k: nat)
    requires IsRun(run) && run.states[0].waiters == map[] && k <= |run.steps|
    ensures |run.states[k].waiters| <= Arrivals(run, k)
    ensures 2 * Passes(run, k) + Potential(run.states[k]) <= PassBudget(Arrivals(run, k), Externals(run, k))
  {
    if k == 0 {
      assert MayFail(run.states[0]) == {};
    } else {
      PassesBounded(run, k - 1);
      BudgetStep(run, k);
    }
  }

  lemma BudgetStep(run: Run, k: nat)
    requires IsRun(run) && 0 < k <= |run.steps|
    requires |run.states[k - 1].waiters| <= Arrivals(run, k - 1)
    ensures |run.states[k].waiters| <= Arrivals(run, k)
    ensures 2 * Passes(run, k) + Potential(run.states[k]) - PassBudget(Arrivals(run, k), Externals(run, k))
            <= 2 * Passes(run, k - 1) + Potential(run.states[k - 1])
               - PassBudget(Arrivals(run, k - 1), Externals(run, k - 1))
  {
    StepOf(run, k - 1);
    StepBudget(run.states[k - 1], run.steps[k - 1], Arrivals(run, k - 1), Externals(run, k - 1));
  }

  lemma QuietBudget(a: nat)
    ensures PassBudget(a, 0) == a * (a + 3) <= 2 * a * (a + 1)
  {
    BudgetClosedForm(a, 0);
    if a > 0 {
      assert 2 * a * (a + 1) == a * (a + 3) + a * (a - 1);
      ProductAtLeast(a, a - 1);
    }
  }

  lemma ProductAtLeast(a: nat, b: nat)
    ensures a * b >= 0
  {
  }

  /**
   * `a` callers undisturbed by reports and feedbacks make at most a(a + 3)/2 <= a(a + 1) passes between them, and
   * fewer than that as long as anybody is still waiting.
   */
  lemma RetriesTerminate(run: Run, k: nat)
    requires IsRun(run) && run.states[0].waiters == map[] && k <= |run.steps| && Externals(run, k) == 0
    ensures var a := Arrivals(run, k); 2 * Passes(run, k) <= a * (a + 3) <= 2 * a * (a + 1)
    ensures run.states[k].waiters != map[] ==> 2 * Passes(run, k) < Arrivals(run, k) * (Arrivals(run, k) + 3)
  {
    PassesBounded(run, k);
    QuietBudget(Arrivals(run, k));
    if run.states[k].waiters != map[] {
      assert |run.states[k].waiters| > 0;
    }
  }
}
