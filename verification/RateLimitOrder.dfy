/** Who is served before whom: exactly which callers can be served before which others, asleep or due. */
module RateLimitOrder {
  import opened Wrappers
  import opened RateLimit
  import opened RateLimitRuns
  import opened RateLimitGrants

  // ---------------------------------------------------------------- sleepers

  /** Asleep, and nothing has disturbed the bucket since the pass that sent it to sleep. */
  predicate Asleep(s: System, id: CallerId) {
    && id in s.waiters
    && s.waiters[id].seen == Some(s.disturbances)
    && s.clock < s.waiters[id].wakeAt
  }

  /** Until it wakes, an undisturbed sleeper's request is not covered: its sleep is no longer than necessary. */
  ghost predicate ShortUntilAwake(s: System, w: Waiter) {
    w.seen == Some(s.disturbances)
    ==> forall t | s.clock <= t < w.wakeAt :: Projected(s.bucket, t) < w.need as real
  }

  ghost predicate AllShort(s: System) {
    forall id | id in s.waiters :: ShortUntilAwake(s, s.waiters[id])
  }

  lemma FailureIsShort(s: System, id: CallerId)
    requires Inv(s) && Enabled(s, Pass(id)) && !Succeeds(s, Pass(id))
    ensures ShortUntilAwake(Apply(s, Pass(id)), Apply(s, Pass(id)).waiters[id])
  {
    var n, r := s.waiters[id].need, Refilled(s.bucket, s.clock);
    var w := Apply(s, Pass(id)).waiters[id];
    RefillComposes(s.bucket, s.clock, s.clock);
    forall t | s.clock <= t < w.wakeAt
      ensures Projected(r, t) < n as real
    {
      WaitIsLeastWhenShort(r, n, s.clock, t);
    }
  }

  lemma OthersStayShort(s: System, id: CallerId, w: Waiter)
    requires Inv(s) && Enabled(s, Pass(id)) && !Succeeds(s, Pass(id)) && ShortUntilAwake(s, w)
    ensures ShortUntilAwake(Apply(s, Pass(id)), w)
  {
    var r := Refilled(s.bucket, s.clock);
    if w.seen == Some(s.disturbances) {
      forall t | s.clock <= t < w.wakeAt
        ensures Projected(r, t) < w.need as real
      {
        RefillComposes(s.bucket, s.clock, t);
      }
    }
  }

  lemma PassKeepsShort(s: System, id: CallerId)
    requires Inv(s) && AllShort(s) && Enabled(s, Pass(id)) && !Succeeds(s, Pass(id))
    ensures AllShort(Apply(s, Pass(id)))
  {
    var s' := Apply(s, Pass(id));
    FailureIsShort(s, id);
    forall other | other in s'.waiters && other != id
      ensures ShortUntilAwake(s', s'.waiters[other])
    {
      OthersStayShort(s, id, s.waiters[other]);
    }
  }

  /** After a disturbance nobody is undisturbed. */
  lemma DisturbanceKeepsShort(s: System, step: Step)
    requires Inv(s) && Enabled(s, step) && Disturbs(s, step)
    ensures AllShort(Apply(s, step))
  {
    var s' := Apply(s, step);
    forall id | id in s'.waiters
      ensures ShortUntilAwake(s', s'.waiters[id])
    {
      assert WaiterOk(s, s.waiters[id]);
    }
  }

  lemma QuietKeepsShort(s: System, step: Step)
    requires Inv(s) && AllShort(s) && Enabled(s, step) && !step.Pass? && !Disturbs(s, step)
    ensures AllShort(Apply(s, step))
  {
    var s' := Apply(s, step);
    forall id | id in s'.waiters
      ensures ShortUntilAwake(s', s'.waiters[id])
    {
      if id in s.waiters {
        assert ShortUntilAwake(s, s.waiters[id]);
      }
    }
  }

  lemma {:induction false} ShortAlways(run: Run, k: nat)
    requires IsRun(run) && run.states[0].waiters == map[] && k <= |run.steps|
    ensures AllShort(run.states[k])
  {
    if k > 0 {
      ShortAlways(run, k - 1);
      StepOf(run, k - 1);
      var s, step := run.states[k - 1], run.steps[k - 1];
      if Disturbs(s, step) {
        DisturbanceKeepsShort(s, step);
      } else if step.Pass? {
        PassKeepsShort(s, step.id);
      } else {
        QuietKeepsShort(s, step);
      }
    }
  }

  // ---------------------------------------------------------------- when a caller is served

  /** A caller is served right now exactly when its sleep is over and the bucket covers it. */
  lemma ServedNowIff(s: System, j: CallerId)
    requires Inv(s) && j in s.waiters
    ensures Enabled(s, Pass(j)) && Succeeds(s, Pass(j)) <==>
              s.clock >= s.waiters[j].wakeAt && WaitFor(s.bucket, s.waiters[j].need, s.clock) == 0.0
  {
    assert WaiterOk(s, s.waiters[j]);
    WaitIsLeast(s.bucket, s.waiters[j].need, s.clock, s.clock);
  }

  /** If nothing but time passes for `d` seconds, a pass of `j` is then granted. */
  predicate ServedAfter(s: System, j: CallerId, d: real) {
    && d >= 0.0
    && Enabled(Apply(s, Tick(d)), Pass(j)) && Succeeds(Apply(s, Tick(d)), Pass(j))
  }

  lemma ServedAfterIff(s: System, j: CallerId, d: real)
    requires Inv(s) && j in s.waiters && d >= 0.0
    ensures ServedAfter(s, j, d) <==>
              s.clock + d >= s.waiters[j].wakeAt && d >= WaitFor(s.bucket, s.waiters[j].need, s.clock)
  {
    assert WaiterOk(s, s.waiters[j]);
    WaitIsLeast(s.bucket, s.waiters[j].need, s.clock, s.clock + d);
  }

  function Later(x: real, y: real): real {
    if x < y then y else x
  }

  /** The first instant at which `j` is served if nothing but time passes. */
  function EarliestService(s: System, j: CallerId): real
    requires j in s.waiters
  {
    Later(s.waiters[j].wakeAt, s.clock + WaitFor(s.bucket, s.waiters[j].need, s.clock))
  }

  lemma EarliestIsService(s: System, j: CallerId)
    requires Inv(s) && j in s.waiters
    ensures EarliestService(s, j) >= s.clock && ServedAfter(s, j, EarliestService(s, j) - s.clock)
    ensures forall d :: ServedAfter(s, j, d) ==> s.clock + d >= EarliestService(s, j)
  {
    assert WaiterOk(s, s.waiters[j]);
    WaitIsLeast(s.bucket, s.waiters[j].need, s.clock, s.clock);
    ServedAfterIff(s, j, EarliestService(s, j) - s.clock);
    forall d | ServedAfter(s, j, d)
      ensures s.clock + d >= EarliestService(s, j)
    {
      ServedAfterIff(s, j, d);
    }
  }

  // ---------------------------------------------------------------- who can be served first

  /** `j` is granted its tokens while `i` is still asleep. */
  ghost predicate ServedDuringSleep(s: System, i: CallerId, j: CallerId)
    requires i in s.waiters
  {
    exists d :: ServedAfter(s, j, d) && s.clock + d < s.waiters[i].wakeAt
  }

  /** While `i` sleeps, `j` can be served exactly when it wakes and is covered before `i` wakes. */
  lemma ServedDuringSleepIff(s: System, i: CallerId, j: CallerId)
    requires Inv(s) && i in s.waiters && j in s.waiters
    ensures ServedDuringSleep(s, i, j) <==> EarliestService(s, j) < s.waiters[i].wakeAt
  {
    EarliestIsService(s, j);
    if EarliestService(s, j) < s.waiters[i].wakeAt {
      assert ServedAfter(s, j, EarliestService(s, j) - s.clock);
    }
  }

  /** When the next pass of `i` is due. */
  function DueAt(s: System, i: CallerId): real
    requires i in s.waiters
  {
    Later(s.clock, s.waiters[i].wakeAt)
  }

  /** `j` is granted its tokens before `i` passes, although `i` passes at most `late` seconds after it is due. */
  ghost predicate ServedFirst(s: System, i: CallerId, j: CallerId, late: real)
    requires i in s.waiters
  {
    exists d :: ServedAfter(s, j, d) && s.clock + d <= DueAt(s, i) + late
  }

  /** For every two callers, asleep or due, and every promptness: exactly whom `j` can be served before. */
  lemma ServedFirstIff(s: System, i: CallerId, j: CallerId, late: real)
    requires Inv(s) && i in s.waiters && j in s.waiters
    ensures ServedFirst(s, i, j, late) <==> EarliestService(s, j) <= DueAt(s, i) + late
  {
    EarliestIsService(s, j);
    if EarliestService(s, j) <= DueAt(s, i) + late {
      assert ServedAfter(s, j, EarliestService(s, j) - s.clock);
    }
  }

  /** Without a bound on how late a due caller passes, every caller can be served before every other. */
  lemma AnyoneCanBeFirst(s: System, i: CallerId, j: CallerId) returns (late: real)
    requires Inv(s) && i in s.waiters && j in s.waiters
    ensures late >= 0.0 && ServedFirst(s, i, j, late)
  {
    late := Later(0.0, EarliestService(s, j) - DueAt(s, i));
    ServedFirstIff(s, i, j, late);
  }

  // ---------------------------------------------------------------- against an undisturbed sleeper

  /** At the end of the estimated wait the balance is exactly what was asked for. */
  lemma ExactlyEnough(b: Bucket, n: int, now: real)
    requires b.Valid() && b.last <= now && Projected(b, now) < n as real <= b.capacity
    ensures Projected(b, now + WaitFor(b, n, now)) == n as real
  {
    var r, t := Refilled(b, now), now + WaitFor(b, n, now);
    WaitIsLeast(b, n, now, now);
    RefillComposes(b, now, t);
    QuotientTimes(n as real - r.tokens, b.rate);
    ProjectedLater(r, t);
    assert t - now == WaitFor(b, n, now);
  }

  /** A request is covered before an undisturbed sleeper wakes exactly when it asks for less. */
  lemma CoveredEarlierIff(s: System, i: CallerId, n: int)
    requires Inv(s) && AllShort(s) && Asleep(s, i) && n as real <= s.bucket.capacity
    ensures s.clock + WaitFor(s.bucket, n, s.clock) < s.waiters[i].wakeAt <==> n < s.waiters[i].need
  {
    var w, t := s.waiters[i], s.clock + WaitFor(s.bucket, n, s.clock);
    assert WaiterOk(s, w) && ShortUntilAwake(s, w);
    WaitIsLeast(s.bucket, n, s.clock, w.wakeAt);
    WaitIsLeast(s.bucket, n, s.clock, t);
    if n < w.need && t == w.wakeAt {
      ExactlyEnough(s.bucket, n, s.clock);
    }
  }

  /** A request is covered by the time an undisturbed sleeper wakes exactly when it asks for no more. */
  lemma CoveredInTimeIff(s: System, i: CallerId, n: int)
    requires Inv(s) && AllShort(s) && Asleep(s, i) && n as real <= s.bucket.capacity
    ensures s.clock + WaitFor(s.bucket, n, s.clock) <= s.waiters[i].wakeAt <==> n <= s.waiters[i].need
  {
    var w := s.waiters[i];
    assert WaiterOk(s, w) && ShortUntilAwake(s, w);
    WaitIsLeast(s.bucket, n, s.clock, w.wakeAt);
    if n > w.need {
      SleepEndsExactly(s, i);
    }
  }

  /** When an undisturbed sleeper wakes, the balance is exactly what it asked for. */
  lemma SleepEndsExactly(s: System, i: CallerId)
    requires Inv(s) && AllShort(s) && Asleep(s, i)
    ensures Projected(s.bucket, s.waiters[i].wakeAt) == s.waiters[i].need as real
  {
    var w := s.waiters[i];
    assert WaiterOk(s, w) && ShortUntilAwake(s, w);
    CoveredEarlierIff(s, i, w.need);
    WaitIsLeast(s.bucket, w.need, s.clock, w.wakeAt);
    ExactlyEnough(s.bucket, w.need, s.clock);
  }

  /**
   * An undisturbed sleeper: during its sleep exactly those callers can be served that ask for less and wake earlier;
   * and if it passes the moment it wakes, exactly those before it that ask for no more and wake no later.
   */
  lemma UndisturbedServedFirstIff(run: Run, k: nat, i: CallerId, j: CallerId)
    requires IsRun(run) && run.states[0].waiters == map[] && k <= |run.steps|
    requires Asleep(run.states[k], i) && j in run.states[k].waiters
    ensures var s := run.states[k];
            && (ServedDuringSleep(s, i, j) <==>
                  s.waiters[j].need < s.waiters[i].need && s.waiters[j].wakeAt < s.waiters[i].wakeAt)
            && (ServedFirst(s, i, j, 0.0) <==>
                  s.waiters[j].need <= s.waiters[i].need && s.waiters[j].wakeAt <= s.waiters[i].wakeAt)
  {
    var s := run.states[k];
    InvAlways(run, k);
    ShortAlways(run, k);
    assert WaiterOk(s, s.waiters[j]);
    ServedDuringSleepIff(s, i, j);
    ServedFirstIff(s, i, j, 0.0);
    CoveredEarlierIff(s, i, s.waiters[j].need);
    CoveredInTimeIff(s, i, s.waiters[j].need);
  }

  /** In particular, whoever is granted tokens while an undisturbed caller sleeps asked for less than that caller. */
  lemma OvertakerAsksForLess(run: Run, k: nat, i: CallerId)
    requires IsRun(run) && run.states[0].waiters == map[] && k < |run.steps|
    requires Asleep(run.states[k], i) && run.steps[k].Pass? && !FailsAt(run, k)
    ensures run.steps[k].id in run.states[k].waiters
    ensures run.states[k].waiters[run.steps[k].id].need < run.states[k].waiters[i].need
  {
    StepOf(run, k);
    ShortAlways(run, k);
    assert ShortUntilAwake(run.states[k], run.states[k].waiters[i]);
  }

  /** A request for eight tokens comes first; a request for one comes second and is served first. */
  lemma LatecomerGoesFirst() returns (run: Run)
    ensures IsRun(run) && run.states[0].waiters == map[]
    ensures run.steps == [Arrive(0, 8), Pass(0), Arrive(1, 1), Pass(1), Tick(3.0), Pass(0)]
    ensures Asleep(run.states[3], 0) && !FailsAt(run, 3) && FailsAt(run, 5)
    ensures 0 in run.states[6].waiters
  {
    var s0 := System(Bucket(10.0, 5.0, 1.0, 0.0), 0.0, map[], 0);
    var s1 := Apply(s0, Arrive(0, 8));
    var s2 := Apply(s1, Pass(0));
    assert s2 == System(Bucket(10.0, 5.0, 1.0, 0.0), 0.0, map[0 := Waiter(8, 3.0, Some(0))], 0);
    var s3 := Apply(s2, Arrive(1, 1));
    var s4 := Apply(s3, Pass(1));
    assert s4 == System(Bucket(10.0, 4.0, 1.0, 0.0), 0.0, map[0 := Waiter(8, 3.0, Some(0))], 1);
    var s5 := Apply(s4, Tick(3.0));
    var s6 := Apply(s5, Pass(0));
    run := Run([s0, s1, s2, s3, s4, s5, s6], [Arrive(0, 8), Pass(0), Arrive(1, 1), Pass(1), Tick(3.0), Pass(0)]);
    assert Follows(run, 0) && Follows(run, 1) && Follows(run, 2);
    assert Follows(run, 3) && Follows(run, 4) && Follows(run, 5);
  }

  const ONE_TOKEN: Bucket := Bucket(10.0, 1.0, 1.0, 0.0)

  /** An equal request, made in the very instant in which the sleeper is due, is served first. */
  lemma LatecomerWinsTheTie() returns (run: Run)
    ensures IsRun(run) && run.states[0].waiters == map[]
    ensures run.steps == [Arrive(0, 2), Pass(0), Tick(1.0), Arrive(1, 2), Pass(1), Pass(0)]
    ensures Asleep(run.states[2], 0)
    ensures 0 in run.states[4].waiters && run.states[4].clock == run.states[4].waiters[0].wakeAt
    ensures !FailsAt(run, 4) && FailsAt(run, 5)
  {
    var s0 := System(ONE_TOKEN, 0.0, map[], 0);
    var s1 := Apply(s0, Arrive(0, 2));
    var s2 := Apply(s1, Pass(0));
    assert s2 == System(ONE_TOKEN, 0.0, map[0 := Waiter(2, 1.0, Some(0))], 0);
    var s3 := Apply(s2, Tick(1.0));
    var s4 := Apply(s3, Arrive(1, 2));
    var s5 := Apply(s4, Pass(1));
    assert s5 == System(Bucket(10.0, 0.0, 1.0, 1.0), 1.0, map[0 := Waiter(2, 1.0, Some(0))], 1);
    var s6 := Apply(s5, Pass(0));
    run := Run([s0, s1, s2, s3, s4, s5, s6], [Arrive(0, 2), Pass(0), Tick(1.0), Arrive(1, 2), Pass(1), Pass(0)]);
    assert Follows(run, 0) && Follows(run, 1) && Follows(run, 2);
    assert Follows(run, 3) && Follows(run, 4) && Follows(run, 5);
  }

  /** A caller that is long due but has not passed yet loses to a latecomer that asks for more. */
  lemma LatecomerOutbidsTheDue() returns (run: Run)
    ensures IsRun(run) && run.states[0].waiters == map[]
    ensures run.steps == [Arrive(0, 2), Pass(0), Tick(20.0), Arrive(1, 9), Pass(1), Pass(0)]
    ensures 0 in run.states[4].waiters && run.states[4].waiters[0].seen == Some(run.states[4].disturbances)
    ensures !FailsAt(run, 4) && FailsAt(run, 5)
  {
    var s0 := System(ONE_TOKEN, 0.0, map[], 0);
    var s1 := Apply(s0, Arrive(0, 2));
    var s2 := Apply(s1, Pass(0));
    assert s2 == System(ONE_TOKEN, 0.0, map[0 := Waiter(2, 1.0, Some(0))], 0);
    var s3 := Apply(s2, Tick(20.0));
    var s4 := Apply(s3, Arrive(1, 9));
    var s5 := Apply(s4, Pass(1));
    assert s5 == System(Bucket(10.0, 1.0, 1.0, 20.0), 20.0, map[0 := Waiter(2, 1.0, Some(0))], 1);
    var s6 := Apply(s5, Pass(0));
    run := Run([s0, s1, s2, s3, s4, s5, s6], [Arrive(0, 2), Pass(0), Tick(20.0), Arrive(1, 9), Pass(1), Pass(0)]);
    assert Follows(run, 0) && Follows(run, 1) && Follows(run, 2);
    assert Follows(run, 3) && Follows(run, 4) && Follows(run, 5);
  }

  // ---------------------------------------------------------------- what `acquire` returns

  /** The sleep that step `k` imposes on `id`. */
  function SleepAt(run: Run, k: nat, id: CallerId): real
    requires IsRun(run) && k < |run.steps|
  {
    StepOf(run, k);
    if run.steps[k] == Pass(id) && FailsAt(run, k) then run.states[k + 1].waiters[id].wakeAt - run.states[k].clock
    else 0.0
  }

  function SleptBetween(run: Run, i: nat, j: nat, id: CallerId): real
    requires IsRun(run) && i <= j <= |run.steps|
  {
    if i == j then 0.0 else SleptBetween(run, i, j - 1, id) + SleepAt(run, j - 1, id)
  }

  /** `id` enters `acquire` in step `i` and has not been served up to step `j`. */
  predicate InAcquire(run: Run, i: nat, j: nat, id: CallerId)
    requires IsRun(run) && i < j <= |run.steps|
  {
    && run.steps[i].Arrive? && run.steps[i].id == id && MustWait(run.states[i], run.steps[i].n)
    && forall k | i < k < j && run.steps[k] == Pass(id) :: FailsAt(run, k)
  }

  lemma {:induction false} SleepsFit(run: Run, i: nat, j: nat, id: CallerId)
    requires IsRun(run) && i < j <= |run.steps| && InAcquire(run, i, j, id)
    ensures id in run.states[j].waiters && run.states[j].waiters[id].need == run.steps[i].n
    ensures SleptBetween(run, i + 1, j, id) <= run.states[j].waiters[id].wakeAt - run.states[i].clock
    decreases j
  {
    StepOf(run, j - 1);
    if i + 1 < j {
      SleepsFit(run, i, j - 1, id);
    }
  }

  /**
   * Whatever happens in between, a caller that is served gets exactly what it asked for, and the time it reports to
   * have slept is no more than the time that passed since it came.
   */
  lemma AcquireReturns(run: Run, i: nat, j: nat, id: CallerId)
    requires IsRun(run) && i < j < |run.steps| && InAcquire(run, i, j, id)
    requires run.steps[j] == Pass(id) && !FailsAt(run, j)
    ensures Enabled(run.states[j], run.steps[j]) && GrantedBy(run.states[j], run.steps[j]) == run.steps[i].n
    ensures SleptBetween(run, i + 1, j, id) <= run.states[j].clock - run.states[i].clock
  {
    StepOf(run, j);
    SleepsFit(run, i, j, id);
  }
}
