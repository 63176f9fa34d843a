/**
 * The token bucket that paces attachment sends.
 *
 * `Bucket` is the value of the scheduler's four fields and carries the specification; `Scheduler`
 * is the object whose methods update them in place.  Times and balances are exact reals.
 */
module RateLimit {
  import opened Wrappers

  const MAX_ATTACHMENTS_PER_MSG: nat := 32
  const BUCKET_CAPACITY: real := 50.0
  const DEFAULT_RETRY_AFTER: real := 4.0

  // ---------------------------------------------------------------- bucket values

  /** Tokens per second; never zero, so the waits computed from it are finite. */
  type Rate = r: real | r > 0.0 witness 1.0

  datatype Bucket = Bucket(capacity: real, tokens: real, rate: Rate, last: real) {
    predicate Valid() {
      0.0 <= tokens <= capacity
    }
  }

  datatype PassOutcome = Granted | MustSleep(wait: real)

  function Least(x: real, y: real): real {
    if y < x then y else x
  }

  /** The balance the bucket would show at `now`, computed without touching it. */
  function Projected(b: Bucket, now: real): real {
    var elapsed := now - b.last;
    if elapsed > 0.0 && b.tokens < b.capacity then
      Least(b.capacity, b.tokens + elapsed * b.rate)
    else
      b.tokens
  }

  function Refilled(b: Bucket, now: real): Bucket {
    b.(tokens := Projected(b, now), last := now)
  }

  /** Seconds until `n` tokens are projected to be available. */
  function WaitFor(b: Bucket, n: int, now: real): real {
    var deficit := n as real - Projected(b, now);
    if deficit <= 0.0 then 0.0 else deficit / b.rate
  }

  /** One critical section of `acquire`: refill, then reserve or compute the next sleep. */
  function TryReserve(b: Bucket, n: int, now: real): (Bucket, PassOutcome) {
    var r := Refilled(b, now);
    if r.tokens >= n as real then
      (r.(tokens := r.tokens - n as real), Granted)
    else
      (r, MustSleep((n as real - r.tokens) / r.rate))
  }

  /** The rate that refills one token every `seconds`. */
  function PerToken(seconds: real): (rate: Rate)
    requires seconds > 0.0
    ensures rate * seconds == 1.0
  {
    QuotientTimes(1.0, seconds);
    1.0 / seconds
  }

  function Reported(b: Bucket, n: int, now: real): Bucket {
    if n <= 0 then b else b.(last := now)
  }

  /** A hint that names how long one token takes. */
  predicate Names(retryAfter: Option<real>) {
    retryAfter.Some? && retryAfter.value > 0.0
  }

  function FedBack(b: Bucket, retryAfter: Option<real>, now: real): Bucket {
    var rate := if Names(retryAfter) then PerToken(retryAfter.value) else b.rate;
    Bucket(b.capacity, 0.0, rate, now)
  }

  // ---------------------------------------------------------------- arithmetic of refilling

  lemma Distribute(x: real, y: real, r: real)
    ensures (x + y) * r == x * r + y * r
  {
  }

  lemma ProductNonNegative(x: real, r: real)
    requires x >= 0.0 && r >= 0.0
    ensures x * r >= 0.0
  {
  }

  lemma ProductMonotone(x: real, y: real, r: real)
    requires x <= y && r >= 0.0
    ensures x * r <= y * r
  {
    ProductNonNegative(y - x, r);
    Distribute(x, y - x, r);
    assert x + (y - x) == y;
  }

  lemma ProductPositive(x: real, r: real)
    requires x > 0.0 && r > 0.0
    ensures x * r > 0.0
  {
  }

  /** The gains of adjacent intervals add up, and none of them is negative. */
  lemma GainsAdd(x: real, y: real, z: real, rate: Rate)
    requires x <= y <= z
    ensures 0.0 <= (y - x) * rate && 0.0 <= (z - y) * rate
    ensures (z - x) * rate == (y - x) * rate + (z - y) * rate
  {
    ProductNonNegative(y - x, rate);
    ProductNonNegative(z - y, rate);
    Distribute(y - x, z - y, rate);
    assert (y - x) + (z - y) == z - x;
  }

  lemma LeastGrows(most: real, tokens: real, x: real, y: real)
    requires 0.0 <= tokens <= most && x >= 0.0 && y >= 0.0
    ensures 0.0 <= tokens <= Least(most, tokens + x) <= Least(most, tokens + (x + y)) <= Least(most, tokens + x) + y
  {
  }

  lemma NoTimeNoGain(b: Bucket)
    ensures (b.last - b.last) * b.rate == 0.0
  {
  }

  lemma FullStaysFull(b: Bucket, elapsed: real)
    requires b.Valid() && elapsed > 0.0
    ensures b.tokens >= b.capacity ==> Least(b.capacity, b.tokens + elapsed * b.rate) == b.tokens
  {
    ProductPositive(elapsed, b.rate);
  }

  lemma ProjectedLater(b: Bucket, now: real)
    requires b.Valid()
    ensures now >= b.last ==> Projected(b, now) == Least(b.capacity, b.tokens + (now - b.last) * b.rate)
    ensures now <= b.last ==> Projected(b, now) == b.tokens
  {
    if now > b.last {
      FullStaysFull(b, now - b.last);
    } else if now == b.last {
      NoTimeNoGain(b);
    }
  }

  lemma GrowthAfterRefill(b: Bucket, t1: real, t2: real)
    requires b.Valid() && b.last <= t1 <= t2
    ensures 0.0 <= Projected(b, t1) <= Projected(b, t2) <= b.capacity
    ensures Projected(b, t2) <= Projected(b, t1) + (t2 - t1) * b.rate
  {
    ProjectedLater(b, t1);
    ProjectedLater(b, t2);
    GainsAdd(b.last, t1, t2, b.rate);
    LeastGrows(b.capacity, b.tokens, (t1 - b.last) * b.rate, (t2 - t1) * b.rate);
  }

  /** The balance never shrinks with time, never leaves [0, capacity], and grows at most at the refill rate. */
  lemma ProjectionGrowth(b: Bucket, t1: real, t2: real)
    requires b.Valid() && t1 <= t2
    ensures 0.0 <= Projected(b, t1) <= Projected(b, t2) <= b.capacity
    ensures Projected(b, t2) <= Projected(b, t1) + (t2 - t1) * b.rate
  {
    ProjectedLater(b, t1);
    ProjectedLater(b, t2);
    if t1 >= b.last {
      GrowthAfterRefill(b, t1, t2);
    } else if t2 >= b.last {
      ProjectedLater(b, b.last);
      GrowthAfterRefill(b, b.last, t2);
      ProductMonotone(t2 - b.last, t2 - t1, b.rate);
    } else {
      ProductNonNegative(t2 - t1, b.rate);
    }
  }

  /** Refilling at an intermediate instant does not change the balance seen later: lazy refill is eager refill. */
  lemma RefillComposes(b: Bucket, t1: real, t2: real)
    requires b.Valid() && b.last <= t1 <= t2
    ensures Refilled(b, t1).Valid()
    ensures Projected(Refilled(b, t1), t2) == Projected(b, t2)
    ensures Refilled(Refilled(b, t1), t2) == Refilled(b, t2)
  {
    ProjectionGrowth(b, t1, t2);
    GainsAdd(b.last, t1, t2, b.rate);
    ProjectedLater(b, t1);
    ProjectedLater(b, t2);
    ProjectedLater(Refilled(b, t1), t2);
    LeastTwice(b.capacity, b.tokens + (t1 - b.last) * b.rate, (t2 - t1) * b.rate);
  }

  lemma LeastTwice(most: real, x: real, y: real)
    requires y >= 0.0
    ensures Least(most, Least(most, x) + y) == Least(most, x + y)
  {
  }

  predicate Ascending(times: seq<real>) {
    forall i, j | 0 <= i < j < |times| :: times[i] <= times[j]
  }

  /** Refill at every instant of `times`, in order. */
  function RefilledAtAll(b: Bucket, times: seq<real>): Bucket {
    if times == [] then b else Refilled(RefilledAtAll(b, times[..|times| - 1]), times[|times| - 1])
  }

  /** Any number of intermediate refills gives the balance of one refill at the end. */
  lemma {:induction false} LazyRefillIsEagerRefill(b: Bucket, times: seq<real>)
    requires b.Valid() && times != [] && Ascending(times) && b.last <= times[0]
    ensures RefilledAtAll(b, times) == Refilled(b, times[|times| - 1])
  {
    var n := |times| - 1;
    if n > 0 {
      LazyRefillIsEagerRefill(b, times[..n]);
      RefillComposes(b, times[n - 1], times[n]);
    } else {
      assert times[..0] == [];
    }
  }

  /** `WaitFor` is the least delay after which the projected balance covers `n`. */
  lemma WaitIsLeast(b: Bucket, n: int, now: real, t: real)
    requires b.Valid() && b.last <= now <= t && n as real <= b.capacity
    ensures WaitFor(b, n, now) >= 0.0
    ensures Projected(b, t) >= n as real <==> t >= now + WaitFor(b, n, now)
  {
    var p := Projected(b, now);
    if p >= n as real {
      ProjectionGrowth(b, now, t);
    } else {
      RefillComposes(b, now, t);
      WaitIsLeastWhenShort(Refilled(b, now), n, now, t);
      RefillComposes(b, now, now);
    }
  }

  lemma LeastAlways(b: Bucket, n: int, now: real)
    requires b.Valid() && b.last <= now
    ensures n as real <= b.capacity ==>
              forall t :: t >= now ==> (Projected(b, t) >= n as real <==> t >= now + WaitFor(b, n, now))
  {
    if n as real <= b.capacity {
      forall t | t >= now
        ensures Projected(b, t) >= n as real <==> t >= now + WaitFor(b, n, now)
      {
        WaitIsLeast(b, n, now, t);
      }
    }
  }

  lemma WaitIsLeastWhenShort(r: Bucket, n: int, now: real, t: real)
    requires r.Valid() && r.last == now <= t && r.tokens < n as real <= r.capacity
    ensures WaitFor(r, n, now) == (n as real - r.tokens) / r.rate > 0.0
    ensures Projected(r, t) >= n as real <==> t >= now + WaitFor(r, n, now)
  {
    var deficit := n as real - r.tokens;
    QuotientTimes(deficit, r.rate);
    QuotientCompare(deficit, r.rate, t - now);
    QuotientCompare(deficit, r.rate, 0.0);
  }

  /** Dividing by a positive rate: `d` is at least the quotient exactly when `d * r` is at least the dividend. */
  lemma QuotientCompare(x: real, r: real, d: real)
    requires r > 0.0
    ensures d * r >= x <==> d >= x / r
  {
    QuotientTimes(x, r);
    if d >= x / r {
      ProductMonotone(x / r, d, r);
    } else {
      ProductStrict(d, x / r, r);
    }
  }

  lemma QuotientTimes(x: real, r: real)
    requires r > 0.0
    ensures (x / r) * r == x
    ensures x > 0.0 ==> x / r > 0.0
  {
    if x > 0.0 && x / r <= 0.0 {
      ProductMonotone(x / r, 0.0, r);
    }
  }

  lemma ProductStrict(x: real, y: real, r: real)
    requires x < y && r > 0.0
    ensures x * r < y * r
  {
    ProductPositive(y - x, r);
    Distribute(x, y - x, r);
    assert x + (y - x) == y;
  }

  lemma Cancel(x: real, y: real, r: real)
    requires r > 0.0 && x * r == y * r
    ensures x == y
  {
    if x < y {
      ProductStrict(x, y, r);
    } else if y < x {
      ProductStrict(y, x, r);
    }
  }

  lemma Regroup(x: real, y: real, z: real)
    ensures (x * y) * z == x * (y * z)
  {
  }

  /** Right after a 429 that names a wait per token, `n` tokens are `n` such waits away. */
  lemma FeedbackWait(b: Bucket, seconds: real, n: nat, now: real)
    requires seconds > 0.0
    ensures WaitFor(FedBack(b, Some(seconds), now), n, now) == n as real * seconds
  {
    var rate := PerToken(seconds);
    var wait := n as real / rate;
    QuotientTimes(n as real, rate);
    Regroup(n as real, seconds, rate);
    Cancel(wait, n as real * seconds, rate);
  }

  /**
   * After a 429, with a hint or without, the bucket holds what has been refilled since then, up to the capacity: one
   * token per named wait, or else at the rate that was in force.
   */
  lemma AfterFeedback(b: Bucket, retryAfter: Option<real>, now: real, t: real)
    requires b.Valid() && now <= t
    ensures var after := FedBack(b, retryAfter, now);
            && after.Valid()
            && Projected(after, t) == Least(b.capacity, (t - now) * after.rate)
            && if Names(retryAfter) then after.rate * retryAfter.value == 1.0 else after.rate == b.rate
  {
    ProjectedLater(FedBack(b, retryAfter, now), t);
  }

  /** The first pass is granted or sleeps the estimate; a pass after that sleep is granted. */
  lemma FirstOrSecondPass(b: Bucket, n: int, start: real, now: real)
    requires b.Valid() && b.last <= start <= now && n as real <= b.capacity
    ensures Refilled(Refilled(b, start), now) == Refilled(b, now)
    ensures WaitFor(b, n, start) >= 0.0
    ensures Projected(b, start) >= n as real <==> WaitFor(b, n, start) == 0.0
    ensures Projected(b, start) < n as real ==> TryReserve(b, n, start).1 == MustSleep(WaitFor(b, n, start))
    ensures now >= start + WaitFor(b, n, start) ==> Projected(b, now) >= n as real
  {
    RefillComposes(b, start, now);
    WaitIsLeast(b, n, start, start);
    WaitIsLeast(b, n, start, now);
  }

  // ---------------------------------------------------------------- the scheduler object

  datatype SchedulerError = RequestExceedsCapacity(n: int)

  /** A monotonic clock; a sleep lasts at least as long as was asked for. */
  class Clock {
    var now: real

    constructor (start: real)
      ensures now == start
    {
      now := start;
    }

    method Sleep(seconds: real)
      requires seconds >= 0.0
      modifies this
      ensures now >= old(now) + seconds
    {
      var late: real := *;
      now := now + seconds + (if late > 0.0 then late else 0.0);
    }
  }

  class Scheduler {
    const capacity: real
    var tokens: real
    var refillRate: Rate
    var lastRefill: real

    ghost function View(): Bucket
      reads this
    {
      Bucket(capacity, tokens, refillRate, lastRefill)
    }

    /** The bucket is well formed and every recorded instant comes from `clock`'s past. */
    ghost predicate Valid(clock: Clock)
      reads this, clock
    {
      View().Valid() && lastRefill <= clock.now
    }

    constructor (capacity: real, defaultRetryAfter: real, clock: Clock)
      requires capacity >= 0.0 && defaultRetryAfter > 0.0
      ensures Valid(clock)
      ensures View() == Bucket(capacity, capacity, PerToken(defaultRetryAfter), clock.now)
    {
      this.capacity := capacity;
      tokens := capacity;
      refillRate := PerToken(defaultRetryAfter);
      lastRefill := clock.now;
    }

    method Refill(clock: Clock)
      requires Valid(clock)
      modifies this
      ensures Valid(clock) && View() == Refilled(old(View()), clock.now)
    {
      ProjectionGrowth(View(), lastRefill, clock.now);
      var elapsed := clock.now - lastRefill;
      if elapsed > 0.0 && tokens < capacity {
        tokens := Least(capacity, tokens + elapsed * refillRate);
      }
      lastRefill := clock.now;
    }

    /** Reports the least delay after which the projected balance covers `n`, for every `n` the bucket can hold. */
    method EstimateWait(n: int, clock: Clock) returns (wait: real)
      requires Valid(clock)
      ensures wait == WaitFor(View(), n, clock.now)
      ensures n as real <= capacity ==>
                forall t :: t >= clock.now ==> (Projected(View(), t) >= n as real <==> t >= clock.now + wait)
    {
      var elapsed := clock.now - lastRefill;
      var projected := tokens;
      if elapsed > 0.0 && projected < capacity {
        projected := Least(capacity, projected + elapsed * refillRate);
      }
      var deficit := n as real - projected;
      wait := if deficit <= 0.0 then 0.0 else deficit / refillRate;
      LeastAlways(View(), n, clock.now);
    }

    /** One turn of the loop in `acquire`, up to the sleep: the critical section that concurrent callers interleave. */
    method Pass(n: int, clock: Clock) returns (outcome: PassOutcome)
      requires Valid(clock) && n > 0
      modifies this
      ensures Valid(clock) && (View(), outcome) == TryReserve(old(View()), n, clock.now)
    {
      Refill(clock);
      if tokens >= n as real {
        tokens := tokens - n as real;
        return Granted;
      }
      var deficit := n as real - tokens;
      return MustSleep(deficit / refillRate);
    }

    /**
     * `acquire` with no other caller in between: at most two passes, the time slept is the estimate, and the
     * bucket ends as one refill at the end less the `n` reserved tokens.
     */
    method Acquire(n: int, clock: Clock) returns (r: Result<real, SchedulerError>, ghost passes: nat)
      requires Valid(clock)
      modifies this, clock
      ensures Valid(clock) && clock.now >= old(clock.now)
      ensures n <= 0 ==> r == Success(0.0) && passes == 0 && View() == old(View()) && clock.now == old(clock.now)
      ensures n > 0 && n as real > capacity ==>
                r == Failure(RequestExceedsCapacity(n)) && View() == old(View()) && clock.now == old(clock.now)
      ensures n > 0 && n as real <= capacity ==>
                && 1 <= passes <= 2
                && r == Success(WaitFor(old(View()), n, old(clock.now)))
                && clock.now >= old(clock.now) + r.value
                && View() == Refilled(old(View()), clock.now).(tokens := Projected(old(View()), clock.now) - n as real)
    {
      passes := 0;
      if n <= 0 {
        return Success(0.0), passes;
      }
      if n as real > capacity {
        return Failure(RequestExceedsCapacity(n)), passes;
      }
      ghost var b0, t0 := View(), clock.now;
      ghost var estimate := WaitFor(b0, n, t0);
      var totalSlept := 0.0;
      while true
        invariant Valid(clock) && 0 <= passes <= 1
        invariant passes == 0 ==> totalSlept == 0.0 && View() == b0 && clock.now == t0
        invariant passes == 1 ==>
                    && totalSlept == estimate
                    && clock.now >= t0 + estimate
                    && View() == Refilled(b0, t0)
        decreases 1 - passes
      {
        FirstOrSecondPass(b0, n, t0, clock.now);
        var outcome := Pass(n, clock);
        passes := passes + 1;
        match outcome {
          case Granted =>
            return Success(totalSlept), passes;
          case MustSleep(wait) =>
            clock.Sleep(wait);
            totalSlept := totalSlept + wait;
        }
      }
    }

    method ReportRpcDuration(nAttachments: int, clock: Clock)
      requires Valid(clock)
      modifies this
      ensures Valid(clock) && View() == Reported(old(View()), nAttachments, clock.now)
      ensures tokens == old(tokens) && refillRate == old(refillRate)
      ensures lastRefill == if nAttachments > 0 then clock.now else old(lastRefill)
    {
      if nAttachments <= 0 {
        return;
      }
      lastRefill := clock.now;
    }

    method Feedback(retryAfter: Option<real>, clock: Clock)
      requires Valid(clock)
      modifies this
      ensures Valid(clock) && View() == FedBack(old(View()), retryAfter, clock.now)
    {
      if retryAfter.Some? && retryAfter.value > 0.0 {
        var newRate := PerToken(retryAfter.value);
        if newRate != refillRate {
          refillRate := newRate;
        }
      }
      tokens := 0.0;
      lastRefill := clock.now;
    }
  }
}
