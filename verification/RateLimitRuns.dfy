/**
 * Many callers sharing one bucket.
 *
 * Between two suspension points the scheduler runs without interruption, so a run is a sequence of
 * atomic steps: a caller enters `acquire`, makes one pass over its critical section, an RPC is
 * reported, a 429 is fed back, or time passes.  Any enabled step may come next.
 */
module RateLimitRuns {
  import opened Wrappers
  import opened RateLimit

  type CallerId = nat

  /** A caller inside `acquire`: not before `wakeAt`, and `seen` disturbances at its last failed pass. */
  datatype Waiter = Waiter(need: int, wakeAt: real, seen: Option<nat>)

  /** `disturbances` counts the grants, reports and feedbacks so far. */
  datatype System = System(bucket: Bucket, clock: real, waiters: map<CallerId, Waiter>, disturbances: nat)

  datatype Step =
    | Arrive(id: CallerId, n: int)
    | Pass(id: CallerId)
    | Report(n: int)
    | Feedback(retryAfter: Option<real>)
    | Tick(seconds: real)

  predicate Enabled(s: System, step: Step) {
    match step
    case Arrive(id, n) => id !in s.waiters
    case Pass(id) => id in s.waiters && s.clock >= s.waiters[id].wakeAt
    case Report(_) => true
    case Feedback(_) => true
    case Tick(seconds) => seconds >= 0.0
  }

  /** A request for no tokens returns at once and an impossible request raises; neither one waits. */
  predicate MustWait(s: System, n: int) {
    0 < n && n as real <= s.bucket.capacity
  }

  predicate Succeeds(s: System, step: Step)
    requires Enabled(s, step)
  {
    step.Pass? && Refilled(s.bucket, s.clock).tokens >= s.waiters[step.id].need as real
  }

  function Apply(s: System, step: Step): System
    requires Enabled(s, step)
  {
    match step
    case Arrive(id, n) =>
      if MustWait(s, n) then s.(waiters := s.waiters[id := Waiter(n, s.clock, None)]) else s
    case Pass(id) =>
      var (bucket, outcome) := TryReserve(s.bucket, s.waiters[id].need, s.clock);
      (match outcome
       case Granted =>
         System(bucket, s.clock, s.waiters - {id}, s.disturbances + 1)
       case MustSleep(wait) =>
         var w := s.waiters[id].(wakeAt := s.clock + wait, seen := Some(s.disturbances));
         System(bucket, s.clock, s.waiters[id := w], s.disturbances))
    case Report(n) =>
      if n <= 0 then s
      else s.(bucket := Reported(s.bucket, n, s.clock), disturbances := s.disturbances + 1)
    case Feedback(retryAfter) =>
      s.(bucket := FedBack(s.bucket, retryAfter, s.clock), disturbances := s.disturbances + 1)
    case Tick(seconds) =>
      s.(clock := s.clock + seconds)
  }

  /** Every request for some tokens that the bucket can hold waits for them, the largest one included. */
  lemma WaitsFromArrival(s: System, id: CallerId, n: nat)
    requires Enabled(s, Arrive(id, n))
    ensures id in Apply(s, Arrive(id, n)).waiters <==> n >= 1 && n as real <= s.bucket.capacity
    ensures n == 0 || n as real > s.bucket.capacity ==> Apply(s, Arrive(id, n)) == s
  {
  }

  /** A grant, a report that moves the refill clock, or a feedback. */
  predicate Disturbs(s: System, step: Step)
    requires Enabled(s, step)
  {
    Succeeds(s, step) || (step.Report? && step.n > 0) || step.Feedback?
  }

  // ---------------------------------------------------------------- the invariant of every run

  /** A caller no disturbance has reached since its failed pass will be served when it wakes. */
  predicate WaiterOk(s: System, w: Waiter) {
    && 0 < w.need && w.need as real <= s.bucket.capacity
    && (w.seen.Some? ==>
          && w.seen.value <= s.disturbances
          && (w.seen.value == s.disturbances ==> Projected(s.bucket, w.wakeAt) >= w.need as real))
  }

  predicate Inv(s: System) {
    && s.bucket.Valid()
    && s.bucket.last <= s.clock
    && forall id | id in s.waiters :: WaiterOk(s, s.waiters[id])
  }

  lemma PassKeepsInv(s: System, id: CallerId)
    requires Inv(s) && Enabled(s, Pass(id))
    ensures Inv(Apply(s, Pass(id)))
  {
    var s' := Apply(s, Pass(id));
    var n := s.waiters[id].need;
    ProjectionGrowth(s.bucket, s.bucket.last, s.clock);
    RefillComposes(s.bucket, s.clock, s.clock);
    var r := Refilled(s.bucket, s.clock);
    if r.tokens < n as real {
      WaitIsLeastWhenShort(r, n, s.clock, s.clock);
      WaitIsLeastWhenShort(r, n, s.clock, s'.waiters[id].wakeAt);
      forall other | other in s.waiters && other != id && s.waiters[other].seen == Some(s.disturbances)
        ensures Projected(r, s.waiters[other].wakeAt) >= s.waiters[other].need as real
      {
        var wakeAt := s.waiters[other].wakeAt;
        if wakeAt <= s.clock {
          ProjectionGrowth(s.bucket, wakeAt, s.clock);
        } else {
          RefillComposes(s.bucket, s.clock, wakeAt);
        }
      }
    }
  }

  lemma StepKeepsInv(s: System, step: Step)
    requires Inv(s) && Enabled(s, step)
    ensures Inv(Apply(s, step))
  {
    if step.Pass? {
      PassKeepsInv(s, step.id);
    }
  }

  /** A caller fails a pass only if it never passed before, or something disturbed the bucket since it last failed. */
  lemma FailureNeedsDisturbance(s: System, id: CallerId)
    requires Inv(s) && Enabled(s, Pass(id)) && !Succeeds(s, Pass(id))
    ensures s.waiters[id].seen.Some? ==> s.waiters[id].seen.value < s.disturbances
  {
    var w := s.waiters[id];
    ProjectionGrowth(s.bucket, w.wakeAt, s.clock);
  }

  // ---------------------------------------------------------------- runs

  /** The states a run goes through; `steps[k]` leads from `states[k]` to `states[k + 1]`. */
  datatype Run = Run(states: seq<System>, steps: seq<Step>)

  predicate IsRun(run: Run) {
    && |run.states| == |run.steps| + 1
    && Inv(run.states[0])
    && forall k | 0 <= k < |run.steps| :: Follows(run, k)
  }

  predicate Follows(run: Run, k: nat)
    requires |run.states| == |run.steps| + 1 && k < |run.steps|
  {
    Enabled(run.states[k], run.steps[k]) && run.states[k + 1] == Apply(run.states[k], run.steps[k])
  }

  /** Every reachable state has 0 <= tokens <= capacity, the same capacity, and honest waiters. */
  lemma {:induction false} InvAlways(run: Run, k: nat)
    requires IsRun(run) && k <= |run.steps|
    ensures Inv(run.states[k]) && run.states[k].bucket.capacity == run.states[0].bucket.capacity
  {
    if k > 0 {
      InvAlways(run, k - 1);
      assert Follows(run, k - 1);
      StepKeepsInv(run.states[k - 1], run.steps[k - 1]);
    }
  }

  /** The step out of state `k`, together with the invariant there. */
  lemma StepOf(run: Run, k: nat)
    requires IsRun(run) && k < |run.steps|
    ensures Inv(run.states[k]) && Enabled(run.states[k], run.steps[k])
    ensures run.states[k + 1] == Apply(run.states[k], run.steps[k])
  {
    assert Follows(run, k);
    InvAlways(run, k);
  }

  predicate FailsAt(run: Run, k: nat)
    requires IsRun(run) && k < |run.steps|
  {
    StepOf(run, k);
    run.steps[k].Pass? && !Succeeds(run.states[k], run.steps[k])
  }

  predicate DisturbsAt(run: Run, k: nat)
    requires IsRun(run) && k < |run.steps|
  {
    StepOf(run, k);
    Disturbs(run.states[k], run.steps[k])
  }

  /** A failed pass after a full sleep has a culprit: a disturbance since the previous pass of that caller. */
  lemma {:induction false} UndisturbedWaiterIsServed(run: Run, i: nat, j: nat)
    requires IsRun(run) && i < j < |run.steps|
    requires run.steps[i].Pass? && run.steps[j] == run.steps[i]
    requires FailsAt(run, i)
    requires forall k | i < k < j :: run.steps[k] != run.steps[i]
    requires forall k | i < k < j :: !DisturbsAt(run, k)
    ensures !FailsAt(run, j)
  {
    var id := run.steps[i].id;
    StepOf(run, i);
    var k := i + 1;
    while k < j
      invariant i < k <= j
      invariant run.states[k].disturbances == run.states[i].disturbances
      invariant id in run.states[k].waiters && run.states[k].waiters[id].seen == Some(run.states[i].disturbances)
    {
      StepOf(run, k);
      assert !DisturbsAt(run, k);
      k := k + 1;
    }
    StepOf(run, j);
    if FailsAt(run, j) {
      FailureNeedsDisturbance(run.states[j], id);
    }
  }
}
