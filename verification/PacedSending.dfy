/**
 * Pacing and sending together: deliveries that share one bucket, each of them doing what its log says so far.
 *
 * A delivery is a caller of the scheduler under its own number, and may call `acquire` any number of times.
 */
module PacedSending {
  import opened RateLimit
  import opened RateLimitRuns
  import opened RateLimitGrants
  import opened SignalLog
  import opened Text

  // ---------------------------------------------------------------- one log

  /** The log of a delivery that may still be going on: more events can complete it to a disciplined one. */
  ghost predicate InProgress(t: Log) {
    exists rest: Log :: Disciplined(t + rest)
  }

  /** A delivery whose log will be disciplined in the end is in progress at every moment before. */
  lemma PrefixInProgress(t: Log, n: nat)
    requires Disciplined(t) && n <= |t|
    ensures InProgress(t[..n])
  {
    assert t[..n] + t[n..] == t;
  }

  predicate RpcsReserved(t: Log) {
    forall i: nat | i < |t| && t[i].Rpc? :: i > 0 && t[i - 1] == Reserved(|t[i].paths|)
  }

  lemma InProgressReserved(t: Log)
    requires InProgress(t)
    ensures RpcsReserved(t)
  {
    var rest: Log :| Disciplined(t + rest);
    forall i: nat | i < |t| && t[i].Rpc?
      ensures i > 0 && t[i - 1] == Reserved(|t[i].paths|)
    {
      assert ReservedAt(t + rest, i);
    }
  }

  lemma ReservedLater(t: Log, skip: nat)
    requires RpcsReserved(t) && skip <= |t| && (skip < |t| ==> !t[skip].Rpc?)
    ensures RpcsReserved(t[skip..])
  {
    forall i: nat | i < |t[skip..]| && t[skip..][i].Rpc?
      ensures i > 0 && t[skip..][i - 1] == Reserved(|t[skip..][i].paths|)
    {
      assert t[skip..][i] == t[skip + i];
    }
  }

  /** At any moment, no more attachments have gone out than tokens have been reserved. */
  lemma {:induction false} CarriedIsReserved(t: Log)
    requires RpcsReserved(t)
    ensures Carried(t) <= TokensReserved(t)
    decreases |t|
  {
    if t != [] {
      if |t| > 1 && t[1].Rpc? {
        ReservedLater(t, 2);
        CarriedIsReserved(t[2..]);
        assert t[1..][1..] == t[2..];
      } else {
        ReservedLater(t, 1);
        CarriedIsReserved(t[1..]);
      }
    }
  }

  function ReservationOf(e: Event): seq<int> {
    if e.Reserved? then [e.tokens] else []
  }

  /** The reservations of a delivery, in order. */
  function Reservations(t: Log): seq<int> {
    Collect(t, ReservationOf)
  }

  function Sum(xs: seq<int>): int {
    if xs == [] then 0 else xs[0] + Sum(xs[1..])
  }

  lemma {:induction false} ReservationsAddUp(t: Log)
    ensures Sum(Reservations(t)) == TokensReserved(t)
  {
    if t != [] {
      ReservationsAddUp(t[1..]);
      if t[0].Reserved? {
        assert Reservations(t)[1..] == Reservations(t[1..]);
      } else {
        assert Reservations(t) == Reservations(t[1..]);
      }
    }
  }

  // ---------------------------------------------------------------- the grants behind the logs

  /** To whom tokens were granted, and how many. */
  type Grant = (CallerId, int)

  function GrantAt(run: Run, k: nat): seq<Grant>
    requires IsRun(run) && k < |run.steps|
  {
    StepOf(run, k);
    if Succeeds(run.states[k], run.steps[k]) then [(run.steps[k].id, GrantedBy(run.states[k], run.steps[k]))] else []
  }

  /** The grants of the first `k` steps, in order. */
  function Grants(run: Run, k: nat): seq<Grant>
    requires IsRun(run) && k <= |run.steps|
  {
    if k == 0 then [] else Grants(run, k - 1) + GrantAt(run, k - 1)
  }

  /** The amounts granted to one caller, in order. */
  function To(grants: seq<Grant>, id: CallerId): seq<int> {
    if grants == [] then []
    else (if grants[0].0 == id then [grants[0].1] else []) + To(grants[1..], id)
  }

  /** Every reservation in the log is a granted pass of that delivery, and every granted pass is a reservation. */
  predicate Backed(run: Run, k: nat, id: CallerId, t: Log)
    requires IsRun(run) && k <= |run.steps|
  {
    Reservations(t) == To(Grants(run, k), id)
  }

  function Total(grants: seq<Grant>): int {
    if grants == [] then 0 else grants[0].1 + Total(grants[1..])
  }

  lemma {:induction false} TotalAppend(a: seq<Grant>, b: seq<Grant>)
    ensures Total(a + b) == Total(a) + Total(b)
  {
    AppendTail(a, b);
    if a != [] {
      TotalAppend(a[1..], b);
    }
  }

  predicate Positive(grants: seq<Grant>) {
    forall i | 0 <= i < |grants| :: grants[i].1 > 0
  }

  lemma GrantAtPositive(run: Run, k: nat)
    requires IsRun(run) && k < |run.steps|
    ensures Positive(GrantAt(run, k))
    ensures Enabled(run.states[k], run.steps[k]) && Total(GrantAt(run, k)) == GrantedBy(run.states[k], run.steps[k])
  {
    StepOf(run, k);
    if Succeeds(run.states[k], run.steps[k]) {
      assert WaiterOk(run.states[k], run.states[k].waiters[run.steps[k].id]);
    }
  }

  lemma {:induction false} GrantsAreTotal(run: Run, k: nat)
    requires IsRun(run) && k <= |run.steps|
    ensures Positive(Grants(run, k)) && Total(Grants(run, k)) == GrantedBetween(run, 0, k)
  {
    if k > 0 {
      GrantsAreTotal(run, k - 1);
      GrantAtPositive(run, k - 1);
      TotalAppend(Grants(run, k - 1), GrantAt(run, k - 1));
    }
  }

  /** The tokens granted to one caller. */
  function TotalTo(grants: seq<Grant>, id: CallerId): int {
    if grants == [] then 0 else (if grants[0].0 == id then grants[0].1 else 0) + TotalTo(grants[1..], id)
  }

  lemma {:induction false} TotalToIsSum(grants: seq<Grant>, id: CallerId)
    ensures TotalTo(grants, id) == Sum(To(grants, id))
  {
    if grants != [] {
      TotalToIsSum(grants[1..], id);
      if grants[0].0 == id {
        SumCons(grants[0].1, To(grants[1..], id));
      } else {
        assert [] + To(grants[1..], id) == To(grants[1..], id);
      }
    }
  }

  lemma SumCons(n: int, xs: seq<int>)
    ensures Sum([n] + xs) == n + Sum(xs)
  {
    assert ([n] + xs)[1..] == xs;
  }

  /** The tokens granted to the callers below `fleet`. */
  function FleetTotal(grants: seq<Grant>, fleet: nat): int {
    if fleet == 0 then 0 else FleetTotal(grants, fleet - 1) + TotalTo(grants, fleet - 1)
  }

  /** The tokens granted to the others. */
  function TotalBeyond(grants: seq<Grant>, fleet: nat): int {
    if grants == [] then 0 else (if grants[0].0 >= fleet then grants[0].1 else 0) + TotalBeyond(grants[1..], fleet)
  }

  /** Taking one more caller into the fleet moves exactly its grants inside. */
  lemma {:induction false} OneMoreCaller(grants: seq<Grant>, fleet: nat)
    ensures TotalBeyond(grants, fleet) == TotalTo(grants, fleet) + TotalBeyond(grants, fleet + 1)
  {
    if grants != [] {
      OneMoreCaller(grants[1..], fleet);
    }
  }

  lemma {:induction false} NobodyInside(grants: seq<Grant>)
    ensures TotalBeyond(grants, 0) == Total(grants)
  {
    if grants != [] {
      NobodyInside(grants[1..]);
    }
  }

  /** Every token granted went to the fleet or beyond it. */
  lemma {:induction false} FleetAndBeyond(grants: seq<Grant>, fleet: nat)
    ensures FleetTotal(grants, fleet) + TotalBeyond(grants, fleet) == Total(grants)
    decreases fleet
  {
    if fleet == 0 {
      NobodyInside(grants);
    } else {
      FleetAndBeyond(grants, fleet - 1);
      OneMoreCaller(grants, fleet - 1);
    }
  }

  lemma {:induction false} BeyondIsNoDebt(grants: seq<Grant>, fleet: nat)
    requires Positive(grants)
    ensures TotalBeyond(grants, fleet) >= 0
  {
    if grants != [] {
      BeyondIsNoDebt(grants[1..], fleet);
    }
  }

  lemma FleetWithinTotal(grants: seq<Grant>, fleet: nat)
    requires Positive(grants)
    ensures FleetTotal(grants, fleet) <= Total(grants)
  {
    FleetAndBeyond(grants, fleet);
    BeyondIsNoDebt(grants, fleet);
  }

  // ---------------------------------------------------------------- all deliveries together

  /** The attachments that all deliveries have put on the wire, retries included. */
  function AllCarried(logs: seq<Log>): nat {
    if logs == [] then 0 else AllCarried(logs[..|logs| - 1]) + Carried(logs[|logs| - 1])
  }

  ghost predicate AllBacked(run: Run, k: nat, logs: seq<Log>)
    requires IsRun(run) && k <= |run.steps|
  {
    forall d: nat | d < |logs| :: InProgress(logs[d]) && Backed(run, k, d, logs[d])
  }

  lemma OneWithinGrants(run: Run, k: nat, d: nat, t: Log)
    requires IsRun(run) && k <= |run.steps| && InProgress(t) && Backed(run, k, d, t)
    ensures Carried(t) <= TotalTo(Grants(run, k), d)
  {
    TotalToIsSum(Grants(run, k), d);
    InProgressReserved(t);
    CarriedIsReserved(t);
    ReservationsAddUp(t);
  }

  lemma InitBacked(run: Run, k: nat, logs: seq<Log>)
    requires IsRun(run) && k <= |run.steps| && AllBacked(run, k, logs) && logs != []
    ensures AllBacked(run, k, logs[..|logs| - 1])
  {
    var init := logs[..|logs| - 1];
    forall d: nat | d < |init|
      ensures InProgress(init[d]) && Backed(run, k, d, init[d])
    {
      assert init[d] == logs[d];
    }
  }

  lemma {:induction false} CarriedWithinFleet(run: Run, k: nat, logs: seq<Log>)
    requires IsRun(run) && k <= |run.steps| && AllBacked(run, k, logs)
    ensures AllCarried(logs) <= FleetTotal(Grants(run, k), |logs|)
  {
    if logs != [] {
      var d := |logs| - 1;
      InitBacked(run, k, logs);
      CarriedWithinFleet(run, k, logs[..d]);
      OneWithinGrants(run, k, d, logs[d]);
    }
  }

  lemma CarriedWithinGrants(run: Run, k: nat, logs: seq<Log>)
    requires IsRun(run) && k <= |run.steps| && AllBacked(run, k, logs)
    ensures AllCarried(logs) <= GrantedBetween(run, 0, k)
  {
    CarriedWithinFleet(run, k, logs);
    GrantsAreTotal(run, k);
    FleetWithinTotal(Grants(run, k), |logs|);
  }

  /**
   * However many deliveries share the bucket and however they interleave: the attachments carried by all their RPCs
   * never exceed the capacity plus the highest rate in force times the time that has passed.
   */
  lemma WireIsPaced(run: Run, rate: Rate, k: nat, logs: seq<Log>)
    requires IsRun(run) && RatesAtMost(run, rate) && k <= |run.steps| && AllBacked(run, k, logs)
    ensures AllCarried(logs) as real
            <= Allowance(run.states[0].bucket.capacity, run.states[k].clock - run.states[0].clock, rate)
  {
    CarriedWithinGrants(run, k, logs);
    GrantsWithinAllowance(run, rate, 0, k);
    AtMost(AllCarried(logs), GrantedBetween(run, 0, k),
           Allowance(run.states[0].bucket.capacity, run.states[k].clock - run.states[0].clock, rate));
  }

  lemma AtMost(x: int, y: int, bound: real)
    requires x <= y && y as real <= bound
    ensures x as real <= bound
  {
  }
}
