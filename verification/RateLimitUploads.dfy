/** Upload windows: what the bucket earns between a grant and the report of the RPC it paid for. */
module RateLimitUploads {
  import opened RateLimit
  import opened RateLimitRuns
  import opened RateLimitGrants

  /** A pass, granted or not, that finds time to credit and room for it. */
  predicate EarnsAt(run: Run, k: nat)
    requires IsRun(run) && k < |run.steps|
  {
    && run.steps[k].Pass?
    && run.states[k].bucket.last < run.states[k].clock
    && run.states[k].bucket.tokens < run.states[k].bucket.capacity
  }

  /** No 429 empties the bucket in one of the steps from `i` up to `j`. */
  predicate NoFeedback(run: Run, i: nat, j: nat)
    requires i <= j <= |run.steps|
  {
    forall k | i <= k < j :: !run.steps[k].Feedback?
  }

  predicate NothingEarned(run: Run, i: nat, j: nat)
    requires IsRun(run) && i <= j <= |run.steps|
  {
    forall k | i <= k < j :: !EarnsAt(run, k)
  }

  /** A refill leaves the balance alone exactly when there is no time to credit or no room for it. */
  lemma RefillEarns(b: Bucket, now: real)
    requires b.Valid() && b.last <= now
    ensures Projected(b, now) >= b.tokens
    ensures Projected(b, now) == b.tokens <==> !(b.last < now && b.tokens < b.capacity)
  {
    ProjectedLater(b, now);
    if b.last < now {
      ProductPositive(now - b.last, b.rate);
    }
  }

  /** A pass splits the refilled balance into what it grants and what it leaves. */
  lemma PassSplits(s: System, id: CallerId)
    requires Inv(s) && Enabled(s, Pass(id))
    ensures GrantedBy(s, Pass(id)) as real + Apply(s, Pass(id)).bucket.tokens == Projected(s.bucket, s.clock)
  {
  }

  lemma OthersKeepTokens(s: System, step: Step)
    requires Inv(s) && Enabled(s, step) && !step.Pass? && !step.Feedback?
    ensures GrantedBy(s, step) == 0 && Apply(s, step).bucket.tokens == s.bucket.tokens
  {
  }

  /** Only a pass changes what balance and grants add up to, and it never lowers it. */
  lemma StepEarns(run: Run, k: nat)
    requires IsRun(run) && k < |run.steps| && !run.steps[k].Feedback?
    ensures Enabled(run.states[k], run.steps[k])
    ensures var more := GrantedBy(run.states[k], run.steps[k]) as real + run.states[k + 1].bucket.tokens;
            && more >= run.states[k].bucket.tokens
            && (more == run.states[k].bucket.tokens <==> !EarnsAt(run, k))
  {
    StepOf(run, k);
    if run.steps[k].Pass? {
      RefillEarns(run.states[k].bucket, run.states[k].clock);
      PassSplits(run.states[k], run.steps[k].id);
    } else {
      OthersKeepTokens(run.states[k], run.steps[k]);
    }
  }

  lemma {:induction false} WindowEarns(run: Run, i: nat, j: nat)
    requires IsRun(run) && i <= j <= |run.steps| && NoFeedback(run, i, j)
    ensures var more := GrantedBetween(run, i, j) as real + run.states[j].bucket.tokens;
            && more >= run.states[i].bucket.tokens
            && (more == run.states[i].bucket.tokens <==> NothingEarned(run, i, j))
    decreases j
  {
    if i < j {
      WindowEarns(run, i, j - 1);
      StepEarns(run, j - 1);
    }
  }

  /**
   * A report in step `j` closes the window that opened after step `i`.  Balance and grants then add up to at least
   * the opening balance, and to just that if and only if no pass in between credited any time to the bucket.
   */
  lemma UploadWindow(run: Run, i: nat, j: nat)
    requires IsRun(run) && i < j < |run.steps|
    requires run.steps[j].Report? && run.steps[j].n > 0 && NoFeedback(run, i + 1, j)
    ensures var closing := Projected(run.states[j + 1].bucket, run.states[j + 1].clock);
            var opening := run.states[i + 1].bucket.tokens;
            && closing + GrantedBetween(run, i + 1, j + 1) as real >= opening
            && (closing + GrantedBetween(run, i + 1, j + 1) as real == opening <==> NothingEarned(run, i + 1, j))
  {
    WindowEarns(run, i + 1, j);
    StepOf(run, j);
  }

  // ---------------------------------------------------------------- uploads that are not reported

  /** No report moves the refill clock in one of the steps from `i` up to `j`. */
  predicate NoReport(run: Run, i: nat, j: nat)
    requires i <= j <= |run.steps|
  {
    forall k | i <= k < j && run.steps[k].Report? :: run.steps[k].n <= 0
  }

  /** Right after a grant the bucket is refilled up to now and has room. */
  lemma AfterGrant(run: Run, i: nat)
    requires IsRun(run) && i < |run.steps| && run.steps[i].Pass? && !FailsAt(run, i)
    ensures run.states[i + 1].bucket.last == run.states[i + 1].clock
    ensures run.states[i + 1].bucket.tokens < run.states[i + 1].bucket.capacity
  {
    StepOf(run, i);
    var s := run.states[i];
    assert WaiterOk(s, s.waiters[run.steps[i].id]);
    ProjectionGrowth(s.bucket, s.clock, s.clock);
  }

  /** As long as nothing is earned, the bucket keeps room and its refill clock stays where the grant left it. */
  lemma {:induction false} IdleWindow(run: Run, i: nat, j: nat)
    requires IsRun(run) && i < j <= |run.steps| && run.steps[i].Pass? && !FailsAt(run, i)
    requires NoFeedback(run, i + 1, j) && NoReport(run, i + 1, j) && NothingEarned(run, i + 1, j)
    ensures run.states[j].bucket.last == run.states[i + 1].clock <= run.states[j].clock
    ensures run.states[j].bucket.tokens < run.states[j].bucket.capacity
    decreases j
  {
    if j == i + 1 {
      AfterGrant(run, i);
    } else {
      IdleWindow(run, i, j - 1);
      assert !EarnsAt(run, j - 1);
      StepOf(run, j - 1);
      IdleStep(run.states[j - 1], run.steps[j - 1]);
    }
  }

  lemma IdleStep(s: System, step: Step)
    requires Inv(s) && Enabled(s, step) && !step.Feedback? && (step.Report? ==> step.n <= 0)
    requires s.bucket.tokens < s.bucket.capacity && (step.Pass? ==> s.bucket.last == s.clock)
    ensures Apply(s, step).bucket.last == s.bucket.last && s.clock <= Apply(s, step).clock
    ensures Apply(s, step).bucket.tokens < Apply(s, step).bucket.capacity
  {
    if step.Pass? {
      RefillEarns(s.bucket, s.clock);
      assert WaiterOk(s, s.waiters[step.id]);
    }
  }

  /**
   * An upload that ends without a report is closed by the next pass of anybody.  From the grant in step `i` to such a
   * pass in step `j`, balance and grants add up to the opening balance if and only if no time went by at all.
   */
  lemma UnreportedWindow(run: Run, i: nat, j: nat)
    requires IsRun(run) && i < j < |run.steps|
    requires run.steps[i].Pass? && !FailsAt(run, i) && run.steps[j].Pass?
    requires NoFeedback(run, i + 1, j) && NoReport(run, i + 1, j)
    ensures var closing := run.states[j + 1].bucket.tokens + GrantedBetween(run, i + 1, j + 1) as real;
            && closing >= run.states[i + 1].bucket.tokens
            && (closing == run.states[i + 1].bucket.tokens <==> run.states[j].clock == run.states[i + 1].clock)
  {
    WindowEarns(run, i + 1, j + 1);
    if NothingEarned(run, i + 1, j + 1) {
      IdleWindow(run, i, j);
      assert !EarnsAt(run, j);
    } else {
      SomeTimePassed(run, i, j);
    }
  }

  /** The clock never runs backwards. */
  lemma {:induction false} ClockAscends(run: Run, i: nat, j: nat)
    requires IsRun(run) && i <= j <= |run.steps|
    ensures run.states[i].clock <= run.states[j].clock
    decreases j
  {
    if i < j {
      ClockAscends(run, i, j - 1);
      StepOf(run, j - 1);
    }
  }

  /** The refill clock never runs backwards either. */
  lemma {:induction false} RefillClockAscends(run: Run, i: nat, j: nat)
    requires IsRun(run) && i <= j <= |run.steps|
    ensures run.states[i].bucket.last <= run.states[j].bucket.last
    decreases j
  {
    if i < j {
      RefillClockAscends(run, i, j - 1);
      StepOf(run, j - 1);
    }
  }

  lemma SomeTimePassed(run: Run, i: nat, j: nat)
    requires IsRun(run) && i < j < |run.steps| && run.steps[i].Pass? && !FailsAt(run, i)
    requires !NothingEarned(run, i + 1, j + 1)
    ensures run.states[i + 1].clock < run.states[j].clock
  {
    var k :| i + 1 <= k < j + 1 && EarnsAt(run, k);
    AfterGrant(run, i);
    RefillClockAscends(run, i + 1, k);
    ClockAscends(run, k, j);
  }

  // ---------------------------------------------------------------- a window that does earn

  const FULL: Bucket := Bucket(10.0, 10.0, 1.0, 0.0)

  /** Two seconds into the upload of caller 0, a pass of caller 1 credits two tokens. */
  lemma UploadThatEarns() returns (run: Run)
    ensures IsRun(run)
    ensures run.steps == [Arrive(0, 5), Pass(0), Arrive(1, 1), Tick(2.0), Pass(1), Report(5)]
    ensures run.states[2].bucket.tokens == 5.0
    ensures GrantedBetween(run, 2, 6) == 1 && Projected(run.states[6].bucket, run.states[6].clock) == 6.0
  {
    var s0 := System(FULL, 0.0, map[], 0);
    var s1 := Apply(s0, Arrive(0, 5));
    var s2 := Apply(s1, Pass(0));
    assert s2 == System(Bucket(10.0, 5.0, 1.0, 0.0), 0.0, map[], 1);
    var s3 := Apply(s2, Arrive(1, 1));
    var s4 := Apply(s3, Tick(2.0));
    var s5 := Apply(s4, Pass(1));
    assert s5 == System(Bucket(10.0, 6.0, 1.0, 2.0), 2.0, map[], 2);
    var s6 := Apply(s5, Report(5));
    run := Run([s0, s1, s2, s3, s4, s5, s6], [Arrive(0, 5), Pass(0), Arrive(1, 1), Tick(2.0), Pass(1), Report(5)]);
    assert Follows(run, 0) && Follows(run, 1) && Follows(run, 2);
    assert Follows(run, 3) && Follows(run, 4) && Follows(run, 5);
    assert GrantedBetween(run, 2, 3) == 0;
    assert GrantedBetween(run, 2, 4) == 0;
    assert GrantedBetween(run, 2, 5) == 1;
  }

  /** The RPC ends without a result after four seconds, nothing is reported, and the retry credits six seconds. */
  lemma UnreportedUploadEarns() returns (run: Run)
    ensures IsRun(run)
    ensures run.steps == [Arrive(0, 5), Pass(0), Tick(4.0), Tick(2.0), Arrive(0, 5), Pass(0)]
    ensures run.states[2].bucket.tokens == 5.0 && NothingEarned(run, 2, 5)
    ensures GrantedBetween(run, 2, 6) == 5 && run.states[6].bucket.tokens == 5.0
  {
    var s0 := System(FULL, 0.0, map[], 0);
    var s1 := Apply(s0, Arrive(0, 5));
    var s2 := Apply(s1, Pass(0));
    assert s2 == System(Bucket(10.0, 5.0, 1.0, 0.0), 0.0, map[], 1);
    var s3 := Apply(s2, Tick(4.0));
    var s4 := Apply(s3, Tick(2.0));
    var s5 := Apply(s4, Arrive(0, 5));
    var s6 := Apply(s5, Pass(0));
    assert s6 == System(Bucket(10.0, 5.0, 1.0, 6.0), 6.0, map[], 2);
    run := Run([s0, s1, s2, s3, s4, s5, s6], [Arrive(0, 5), Pass(0), Tick(4.0), Tick(2.0), Arrive(0, 5), Pass(0)]);
    assert Follows(run, 0) && Follows(run, 1) && Follows(run, 2);
    assert Follows(run, 3) && Follows(run, 4) && Follows(run, 5);
    assert GrantedBetween(run, 2, 3) == 0;
    assert GrantedBetween(run, 2, 4) == 0;
    assert GrantedBetween(run, 2, 5) == 0;
  }
}
