/**
 * Deliveries and bucket as one system.
 *
 * A delivery reserves by calling `acquire`, is suspended until it is served, and its log then shows the reservation;
 * anything else it does follows the discipline that every delivery is proved to keep.
 */
module PacedFleet {
  import opened RateLimit
  import opened RateLimitRuns
  import opened RateLimitGrants
  import opened SignalLog
  import opened PacedSending
  import opened Text

  /** Delivery `d` calls `acquire` as caller `d`; callers beyond the deliveries belong to somebody else. */
  datatype Fleet = Fleet(system: System, logs: seq<Log>)

  datatype Move = Pace(step: Step) | Act(delivery: nat, event: Event)

  ghost predicate Allowed(f: Fleet, move: Move) {
    match move
    case Pace(step) =>
      Enabled(f.system, step) && (step.Arrive? && step.id < |f.logs| ==> Disciplined(f.logs[step.id]))
    case Act(d, e) =>
      d < |f.logs| && d !in f.system.waiters && !e.Reserved? && InProgress(f.logs[d] + [e])
  }

  function Natural(n: int): nat {
    if n < 0 then 0 else n
  }

  /** A granted pass of a delivery is a reservation in its log. */
  function Logged(f: Fleet, step: Step): seq<Log>
    requires Enabled(f.system, step)
  {
    if Succeeds(f.system, step) && step.id < |f.logs| then
      f.logs[step.id := f.logs[step.id] + [Reserved(Natural(f.system.waiters[step.id].need))]]
    else f.logs
  }

  ghost function Moved(f: Fleet, move: Move): Fleet
    requires Allowed(f, move)
  {
    match move
    case Pace(step) => Fleet(Apply(f.system, step), Logged(f, step))
    case Act(d, e) => f.(logs := f.logs[d := f.logs[d] + [e]])
  }

  // ---------------------------------------------------------------- the invariant of the fleet

  /** Every log is in progress, and nobody waits for tokens in the middle of something else. */
  ghost predicate FleetInv(f: Fleet) {
    && Inv(f.system)
    && forall d: nat | d < |f.logs| :: InProgress(f.logs[d]) && (d in f.system.waiters ==> Disciplined(f.logs[d]))
  }

  /** A reservation can still be followed by its RPC. */
  lemma ReservationInProgress(t: Log, n: nat)
    requires Disciplined(t)
    ensures InProgress(t + [Reserved(n)])
  {
    var rpc := Rpc("", seq(n, _ => ""), false, NoResult);
    ReservedThenSent(rpc, n);
    DisciplineAppends(t, [Reserved(n), rpc]);
    assert t + [Reserved(n)] + [rpc] == t + [Reserved(n), rpc];
  }

  lemma ReservedThenSent(rpc: Event, n: nat)
    requires rpc.Rpc? && |rpc.paths| == n && rpc.outcome.NoResult?
    ensures Disciplined([Reserved(n), rpc])
  {
    var t := [Reserved(n), rpc];
    assert t[0] == Reserved(n) && t[1] == rpc;
  }

  lemma PaceKeepsInv(f: Fleet, step: Step)
    requires FleetInv(f) && Allowed(f, Pace(step))
    ensures FleetInv(Moved(f, Pace(step)))
  {
    var g := Moved(f, Pace(step));
    StepKeepsInv(f.system, step);
    forall d: nat | d < |g.logs|
      ensures InProgress(g.logs[d]) && (d in g.system.waiters ==> Disciplined(g.logs[d]))
    {
      if Succeeds(f.system, step) && step.id == d {
        ReservationInProgress(f.logs[d], Natural(f.system.waiters[d].need));
      } else {
        assert g.logs[d] == f.logs[d];
      }
    }
  }

  lemma ActKeepsInv(f: Fleet, d: nat, e: Event)
    requires FleetInv(f) && Allowed(f, Act(d, e))
    ensures FleetInv(Moved(f, Act(d, e)))
  {
  }

  lemma MoveKeepsInv(f: Fleet, move: Move)
    requires FleetInv(f) && Allowed(f, move)
    ensures FleetInv(Moved(f, move))
  {
    match move
    case Pace(step) => PaceKeepsInv(f, step);
    case Act(d, e) => ActKeepsInv(f, d, e);
  }

  // ---------------------------------------------------------------- runs of the fleet

  datatype FleetRun = FleetRun(states: seq<Fleet>, moves: seq<Move>)

  ghost predicate Advances(fr: FleetRun, k: nat)
    requires |fr.states| == |fr.moves| + 1 && k < |fr.moves|
  {
    Allowed(fr.states[k], fr.moves[k]) && fr.states[k + 1] == Moved(fr.states[k], fr.moves[k])
  }

  /** Runs start before anybody has done anything. */
  predicate Started(f: Fleet) {
    && Inv(f.system) && f.system.waiters == map[]
    && forall d: nat | d < |f.logs| :: f.logs[d] == []
  }

  ghost predicate IsFleetRun(fr: FleetRun) {
    && |fr.states| == |fr.moves| + 1
    && Started(fr.states[0])
    && forall k: nat | k < |fr.moves| :: Advances(fr, k)
  }

  lemma NothingDoneYet(f: Fleet)
    requires Started(f)
    ensures FleetInv(f)
  {
    forall d: nat | d < |f.logs|
      ensures InProgress(f.logs[d])
    {
      assert f.logs[d] + [] == [];
      assert Disciplined([]);
    }
  }

  lemma {:induction false} FleetInvAlways(fr: FleetRun, k: nat)
    requires IsFleetRun(fr) && k <= |fr.moves|
    ensures FleetInv(fr.states[k])
  {
    if k == 0 {
      NothingDoneYet(fr.states[0]);
    } else {
      FleetInvAlways(fr, k - 1);
      assert Advances(fr, k - 1);
      MoveKeepsInv(fr.states[k - 1], fr.moves[k - 1]);
    }
  }

  // ---------------------------------------------------------------- the bucket's part of a run

  predicate Continues(run: Run, longer: Run, step: Step)
    requires IsRun(run)
  {
    && IsRun(longer) && Enabled(run.states[|run.steps|], step)
    && longer.steps == run.steps + [step]
    && longer.states == run.states + [Apply(run.states[|run.steps|], step)]
  }

  lemma Continue(run: Run, step: Step) returns (longer: Run)
    requires IsRun(run) && Enabled(run.states[|run.steps|], step)
    ensures Continues(run, longer, step)
  {
    longer := Run(run.states + [Apply(run.states[|run.steps|], step)], run.steps + [step]);
    forall k: nat | k < |longer.steps|
      ensures Follows(longer, k)
    {
      if k < |run.steps| {
        assert Follows(run, k);
      }
    }
  }

  lemma {:induction false} SameGrants(run: Run, longer: Run, step: Step, k: nat)
    requires IsRun(run) && Continues(run, longer, step) && k <= |run.steps|
    ensures Grants(longer, k) == Grants(run, k)
  {
    if k > 0 {
      SameGrants(run, longer, step, k - 1);
    }
  }

  lemma GrantsContinue(run: Run, longer: Run, step: Step)
    requires IsRun(run) && Continues(run, longer, step)
    ensures Grants(longer, |longer.steps|) == Grants(run, |run.steps|) + GrantAt(longer, |run.steps|)
  {
    SameGrants(run, longer, step, |run.steps|);
  }

  lemma {:induction false} ToAppend(a: seq<Grant>, b: seq<Grant>, id: CallerId)
    ensures To(a + b, id) == To(a, id) + To(b, id)
  {
    AppendTail(a, b);
    if a != [] {
      ToAppend(a[1..], b, id);
    }
  }

  lemma ToOne(g: Grant, id: CallerId)
    ensures To([g], id) == if g.0 == id then [g.1] else []
  {
    assert [g][1..] == [];
  }

  lemma ReservationsSnoc(t: Log, e: Event)
    ensures Reservations(t + [e]) == Reservations(t) + ReservationOf(e)
  {
    CollectAppend(t, [e], ReservationOf);
    OneOf(e, ReservationOf);
  }

  // ---------------------------------------------------------------- logs and grants agree

  /** What the bucket granted to each delivery is what its log reserved. */
  predicate LogsMatch(run: Run, logs: seq<Log>)
    requires IsRun(run)
  {
    forall d: nat | d < |logs| :: Backed(run, |run.steps|, d, logs[d])
  }

  lemma GrantMatches(run: Run, longer: Run, step: Step, d: nat, before: Log, after: Log)
    requires IsRun(run) && Continues(run, longer, step) && Backed(run, |run.steps|, d, before)
    requires after == if Succeeds(run.states[|run.steps|], step) && step.id == d
                      then before + [Reserved(Natural(run.states[|run.steps|].waiters[d].need))] else before
    ensures Backed(longer, |longer.steps|, d, after)
  {
    var n := |run.steps|;
    GrantsContinue(run, longer, step);
    ToAppend(Grants(run, n), GrantAt(longer, n), d);
    StepOf(longer, n);
    if Succeeds(longer.states[n], step) {
      assert WaiterOk(longer.states[n], longer.states[n].waiters[step.id]);
      ToOne((step.id, GrantedBy(longer.states[n], step)), d);
      ReservationsSnoc(before, Reserved(Natural(longer.states[n].waiters[step.id].need)));
    }
  }

  lemma PaceMatches(run: Run, f: Fleet, step: Step) returns (longer: Run)
    requires IsRun(run) && run.states[|run.steps|] == f.system && LogsMatch(run, f.logs) && Enabled(f.system, step)
    ensures Continues(run, longer, step) && LogsMatch(longer, Logged(f, step))
  {
    longer := Continue(run, step);
    forall d: nat | d < |f.logs|
      ensures Backed(longer, |longer.steps|, d, Logged(f, step)[d])
    {
      assert Backed(run, |run.steps|, d, f.logs[d]);
      GrantMatches(run, longer, step, d, f.logs[d], Logged(f, step)[d]);
    }
  }

  lemma ActMatches(run: Run, logs: seq<Log>, d: nat, e: Event)
    requires IsRun(run) && LogsMatch(run, logs) && d < |logs| && !e.Reserved?
    ensures LogsMatch(run, logs[d := logs[d] + [e]])
  {
    ReservationsSnoc(logs[d], e);
    var after := logs[d := logs[d] + [e]];
    forall i: nat | i < |after|
      ensures Backed(run, |run.steps|, i, after[i])
    {
      assert Backed(run, |run.steps|, i, logs[i]);
    }
  }

  // ---------------------------------------------------------------- the theorem

  /** No 429 calibrates a rate above `rate`. */
  predicate Calibrates(step: Step, rate: Rate) {
    step.Feedback? && step.retryAfter.Some? && step.retryAfter.value > 0.0 ==> PerToken(step.retryAfter.value) <= rate
  }

  predicate FleetRatesAtMost(fr: FleetRun, rate: Rate)
    requires |fr.states| > 0
  {
    && fr.states[0].system.bucket.rate <= rate
    && forall k | 0 <= k < |fr.moves| && fr.moves[k].Pace? :: Calibrates(fr.moves[k].step, rate)
  }

  /** What the bucket went through during the first `k` moves. */
  predicate Projects(fr: FleetRun, k: nat, rate: Rate, run: Run)
    requires k < |fr.states|
  {
    && IsRun(run) && RatesAtMost(run, rate)
    && run.states[0] == fr.states[0].system && run.states[|run.steps|] == fr.states[k].system
    && LogsMatch(run, fr.states[k].logs)
  }

  lemma ContinueRates(run: Run, longer: Run, step: Step, rate: Rate)
    requires IsRun(run) && Continues(run, longer, step) && RatesAtMost(run, rate) && Calibrates(step, rate)
    ensures RatesAtMost(longer, rate)
  {
    forall k | 0 <= k < |longer.steps|
      ensures Calibrates(longer.steps[k], rate)
    {
      assert k < |run.steps| ==> longer.steps[k] == run.steps[k];
    }
  }

  lemma StartProjects(fr: FleetRun, rate: Rate)
    requires |fr.states| > 0 && Started(fr.states[0]) && fr.states[0].system.bucket.rate <= rate
    ensures Projects(fr, 0, rate, Run([fr.states[0].system], []))
  {
  }

  lemma {:induction false} Project(fr: FleetRun, k: nat, rate: Rate) returns (run: Run)
    requires IsFleetRun(fr) && FleetRatesAtMost(fr, rate) && k <= |fr.moves|
    ensures Projects(fr, k, rate, run)
  {
    if k == 0 {
      run := Run([fr.states[0].system], []);
      StartProjects(fr, rate);
    } else {
      var before := Project(fr, k - 1, rate);
      assert Advances(fr, k - 1);
      match fr.moves[k - 1] {
        case Pace(step) =>
          run := PaceMatches(before, fr.states[k - 1], step);
          assert Calibrates(step, rate);
          ContinueRates(before, run, step, rate);
        case Act(d, e) =>
          run := before;
          ActMatches(before, fr.states[k - 1].logs, d, e);
      }
    }
  }

  lemma ProjectionBacked(fr: FleetRun, k: nat, rate: Rate, run: Run)
    requires IsFleetRun(fr) && k <= |fr.moves| && Projects(fr, k, rate, run)
    ensures AllBacked(run, |run.steps|, fr.states[k].logs)
  {
    FleetInvAlways(fr, k);
    forall d: nat | d < |fr.states[k].logs|
      ensures InProgress(fr.states[k].logs[d]) && Backed(run, |run.steps|, d, fr.states[k].logs[d])
    {
    }
  }

  /**
   * Whatever the deliveries do and however they interleave: at any moment the attachments carried by all their RPCs,
   * retries included, are at most the capacity plus the highest rate in force times the time that has passed.
   */
  lemma FleetIsPaced(fr: FleetRun, rate: Rate, k: nat)
    requires IsFleetRun(fr) && FleetRatesAtMost(fr, rate) && k <= |fr.moves|
    ensures var start, now := fr.states[0].system, fr.states[k].system;
            AllCarried(fr.states[k].logs) as real <= Allowance(start.bucket.capacity, now.clock - start.clock, rate)
  {
    var run := Project(fr, k, rate);
    ProjectionBacked(fr, k, rate, run);
    WireIsPaced(run, rate, |run.steps|, fr.states[k].logs);
  }

  /** For the process-wide scheduler, unless a 429 calibrates a faster rate: fifty, and one more every four seconds. */
  lemma FleetIsPacedByDefault(fr: FleetRun, k: nat)
    requires IsFleetRun(fr) && FleetRatesAtMost(fr, PerToken(DEFAULT_RETRY_AFTER)) && k <= |fr.moves|
    requires fr.states[0].system.bucket.capacity == BUCKET_CAPACITY
    ensures AllCarried(fr.states[k].logs) as real
            <= 50.0 + (fr.states[k].system.clock - fr.states[0].system.clock) / 4.0
  {
    FleetIsPaced(fr, PerToken(DEFAULT_RETRY_AFTER), k);
    assert PerToken(DEFAULT_RETRY_AFTER) == 0.25;
  }
}
