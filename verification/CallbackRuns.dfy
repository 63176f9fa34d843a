/** Whole runs of the callback server: any interleaving of callbacks and ends of deliveries on a monotonic clock. */
module CallbackRuns {
  import opened Wrappers
  import opened Dedup
  import opened SignalLog
  import opened Delivery
  import opened DeliveryPlan
  import opened CallbackServer
  import SignalClient

  /** A request arrives, or a delivery ends with some result, having done what its log says. */
  datatype Step =
    | Receive(request: Request, now: real)
    | Finish(id: TaskId, result: Result<bool, SignalClient.Error>, log: Log, now: real)

  datatype System = System(server: Server, clock: real)

  /** What a delivery leaves behind; exactly what `App.DeliverAndMark` promises. */
  predicate PossibleDelivery(c: Config, p: Payload, t: Log, r: Result<bool, SignalClient.Error>) {
    Disciplined(t) && SentTo(Recipient(p), t) && Accounted(p, c.chunkSize, t, r)
  }

  predicate Enabled(c: Config, s: System, step: Step) {
    && s.clock <= step.now
    && (step.Finish? ==>
          step.id in s.server.tasks && PossibleDelivery(c, s.server.tasks[step.id], step.log, step.result))
  }

  function Apply(c: Config, s: System, step: Step): System
    requires Enabled(c, s, step)
  {
    match step
    case Receive(request, now) => System(Received(c, s.server, request, now), now)
    case Finish(id, result, _, now) => System(Settled(c, s.server, id, result == Success(true), now), now)
  }

  // ---------------------------------------------------------------- the invariant of every run

  /** The task at work on a key, if any, is the only one, and the key is reserved for it. */
  predicate OneDeliveryPerKey(s: Server) {
    && (forall i, j | i in s.tasks && j in s.tasks && s.tasks[i].messageKey == s.tasks[j].messageKey :: i == j)
    && s.inFlight == set i | i in s.tasks :: s.tasks[i].messageKey
  }

  predicate TasksAreOurs(c: Config, s: Server) {
    forall i | i in s.tasks :: i < s.nextTask && s.tasks[i].kind.Complete? && c.hasClient
  }

  /** Deliveries are neither lost nor counted twice. */
  predicate AllAccountedFor(s: Server) {
    s.accepted == s.successes + s.failures + |s.tasks|
  }

  predicate NoneInFlightIsCompleted(s: Server, clock: real) {
    forall k | k in s.inFlight :: !Unexpired(s.dedup.entries, k, clock)
  }

  predicate Inv(c: Config, s: System) {
    && OneDeliveryPerKey(s.server) && TasksAreOurs(c, s.server) && AllAccountedFor(s.server)
    && NoneInFlightIsCompleted(s.server, s.clock)
  }

  lemma SweepingForgetsOnlyExpired(c: Cache, interval: real, now: real, key: string, later: real)
    requires now <= later
    ensures Unexpired(Swept(c, interval, now).entries, key, later) <==> Unexpired(c.entries, key, later)
  {
  }

  lemma AdmissionKeepsKeys(c: Config, s: Server, request: Request, now: real)
    requires OneDeliveryPerKey(s) && TasksAreOurs(c, s) && Admits(c, s, request, now)
    ensures OneDeliveryPerKey(Received(c, s, request, now))
  {
    var s' := Received(c, s, request, now);
    var key := request.payload.messageKey;
    forall i | i in s.tasks
      ensures s.tasks[i].messageKey in s.inFlight && i != s.nextTask
    {
    }
    forall k
      ensures k in s'.inFlight <==> exists i :: i in s'.tasks && s'.tasks[i].messageKey == k
    {
      if k == key {
        assert s.nextTask in s'.tasks && s'.tasks[s.nextTask].messageKey == k;
      } else if k in s.inFlight {
        var i :| i in s.tasks && s.tasks[i].messageKey == k;
        assert i in s'.tasks && s'.tasks[i].messageKey == k;
      }
    }
  }

  lemma AdmissionCounts(c: Config, s: Server, request: Request, now: real)
    requires TasksAreOurs(c, s) && AllAccountedFor(s) && Admits(c, s, request, now)
    ensures AllAccountedFor(Received(c, s, request, now))
  {
    var s' := Received(c, s, request, now);
    assert s.nextTask !in s.tasks;
    assert s'.tasks.Keys == s.tasks.Keys + {s.nextTask};
    assert |s'.tasks| == |s'.tasks.Keys| == |s.tasks| + 1;
  }

  lemma ReceiveKeepsInv(c: Config, s: System, request: Request, now: real)
    requires Inv(c, s) && s.clock <= now
    ensures Inv(c, System(Received(c, s.server, request, now), now))
  {
    var s' := Received(c, s.server, request, now);
    if Admits(c, s.server, request, now) {
      AdmissionKeepsKeys(c, s.server, request, now);
      AdmissionCounts(c, s.server, request, now);
    }
    forall k | k in s'.inFlight
      ensures !Unexpired(s'.dedup.entries, k, now)
    {
      SweepingForgetsOnlyExpired(s.server.dedup, c.interval, now, k, now);
    }
  }

  lemma SettlingKeepsKeys(c: Config, s: Server, id: TaskId, delivered: bool, now: real)
    requires OneDeliveryPerKey(s) && id in s.tasks
    ensures OneDeliveryPerKey(Settled(c, s, id, delivered, now))
  {
    var s' := Settled(c, s, id, delivered, now);
    var key := s.tasks[id].messageKey;
    forall k
      ensures k in s'.inFlight <==> exists i :: i in s'.tasks && s'.tasks[i].messageKey == k
    {
      if k in s.inFlight && k != key {
        var i :| i in s.tasks && s.tasks[i].messageKey == k;
        assert i in s'.tasks && s'.tasks[i].messageKey == k;
      }
    }
  }

  lemma SettlingCounts(c: Config, s: Server, id: TaskId, delivered: bool, now: real)
    requires AllAccountedFor(s) && id in s.tasks
    ensures AllAccountedFor(Settled(c, s, id, delivered, now))
  {
    var s' := Settled(c, s, id, delivered, now);
    assert s'.tasks.Keys == s.tasks.Keys - {id};
    assert |s'.tasks| == |s'.tasks.Keys| == |s.tasks| - 1;
  }

  lemma FinishKeepsInv(c: Config, s: System, id: TaskId, delivered: bool, now: real)
    requires Inv(c, s) && s.clock <= now && id in s.server.tasks
    ensures Inv(c, System(Settled(c, s.server, id, delivered, now), now))
  {
    var s' := Settled(c, s.server, id, delivered, now);
    SettlingKeepsKeys(c, s.server, id, delivered, now);
    SettlingCounts(c, s.server, id, delivered, now);
    forall k | k in s'.inFlight
      ensures !Unexpired(s'.dedup.entries, k, now)
    {
      SweepingForgetsOnlyExpired(s.server.dedup, c.interval, now, k, now);
    }
  }

  lemma StepKeepsInv(c: Config, s: System, step: Step)
    requires Inv(c, s) && Enabled(c, s, step)
    ensures Inv(c, Apply(c, s, step))
  {
    match step
    case Receive(request, now) => ReceiveKeepsInv(c, s, request, now);
    case Finish(id, result, _, now) => FinishKeepsInv(c, s, id, result == Success(true), now);
  }

  // ---------------------------------------------------------------- runs

  /** The states a run goes through; `steps[k]` leads from `states[k]` to `states[k + 1]`. */
  datatype Run = Run(config: Config, states: seq<System>, steps: seq<Step>)

  predicate Follows(run: Run, k: nat)
    requires |run.states| == |run.steps| + 1 && k < |run.steps|
  {
    && Enabled(run.config, run.states[k], run.steps[k])
    && run.states[k + 1] == Apply(run.config, run.states[k], run.steps[k])
  }

  /** Runs start with an empty cache and nothing under way. */
  predicate IsRun(run: Run) {
    && |run.states| == |run.steps| + 1
    && run.states[0] == System(Fresh(Cache(map[], run.states[0].clock)), run.states[0].clock)
    && forall k | 0 <= k < |run.steps| :: Follows(run, k)
  }

  lemma FreshInv(c: Config, clock: real)
    ensures Inv(c, System(Fresh(Cache(map[], clock)), clock))
  {
  }

  /**
   * Every reachable state: the in-flight set is exactly the keys with an unfinished delivery, one each; no such key
   * is completed; and accepted == successes + failures + outstanding.
   */
  lemma {:induction false} InvAlways(run: Run, k: nat)
    requires IsRun(run) && k <= |run.steps|
    ensures Inv(run.config, run.states[k])
  {
    if k == 0 {
      FreshInv(run.config, run.states[0].clock);
    } else {
      InvAlways(run, k - 1);
      assert Follows(run, k - 1);
      StepKeepsInv(run.config, run.states[k - 1], run.steps[k - 1]);
    }
  }

  lemma StepOf(run: Run, k: nat)
    requires IsRun(run) && k < |run.steps|
    ensures Inv(run.config, run.states[k]) && Enabled(run.config, run.states[k], run.steps[k])
    ensures run.states[k + 1] == Apply(run.config, run.states[k], run.steps[k])
    ensures run.states[k].clock <= run.steps[k].now == run.states[k + 1].clock
  {
    InvAlways(run, k);
    assert Follows(run, k);
  }

  lemma ClockOf(run: Run, k: nat)
    requires IsRun(run) && k < |run.steps|
    ensures run.states[k].clock <= run.steps[k].now == run.states[k + 1].clock
  {
    assert Follows(run, k);
  }

  /** Step `k` is the successful end of a delivery of `key`. */
  predicate SucceedsAt(run: Run, k: nat, key: string)
    requires |run.states| == |run.steps| + 1 && k < |run.steps|
  {
    && run.steps[k].Finish? && run.steps[k].result == Success(true)
    && run.steps[k].id in run.states[k].server.tasks
    && run.states[k].server.tasks[run.steps[k].id].messageKey == key
  }

  /** Step `k` is the end of a delivery of `key` that failed, in part or altogether, or raised. */
  predicate FailsAt(run: Run, k: nat, key: string)
    requires |run.states| == |run.steps| + 1 && k < |run.steps|
  {
    && run.steps[k].Finish? && run.steps[k].result != Success(true)
    && run.steps[k].id in run.states[k].server.tasks
    && run.states[k].server.tasks[run.steps[k].id].messageKey == key
  }

  /** Step `k` is a complete callback for `key` that reaches the deduplication. */
  predicate AsksAt(run: Run, k: nat, key: string)
    requires |run.states| == |run.steps| + 1 && k < |run.steps|
  {
    && run.config.hasClient
    && run.steps[k].Receive? && run.steps[k].request.Callback? && run.steps[k].request.payload.kind.Complete?
    && run.steps[k].request.payload.messageKey == key
  }

  /** Step `k` is a complete callback for `key` that starts a delivery. */
  predicate AcceptsAt(run: Run, k: nat, key: string)
    requires |run.states| == |run.steps| + 1 && k < |run.steps|
  {
    && AsksAt(run, k, key)
    && Admits(run.config, run.states[k].server, run.steps[k].request, run.steps[k].now)
  }

  predicate OutstandingAt(run: Run, k: nat, key: string)
    requires k < |run.states|
  {
    exists id :: id in run.states[k].server.tasks && run.states[k].server.tasks[id].messageKey == key
  }

  // ---------------------------------------------------------------- what the cache remembers

  /** Some success of `key` before step `k` lies less than the TTL before `now`. */
  predicate RecentlyDelivered(run: Run, k: nat, key: string, now: real)
    requires |run.states| == |run.steps| + 1 && k <= |run.steps|
  {
    exists i: nat :: i < k && SucceedsAt(run, i, key) && now < run.steps[i].now + run.config.ttl
  }

  lemma OneStepMemory(c: Config, s: System, step: Step, key: string, now: real)
    requires Enabled(c, s, step) && step.now <= now
    ensures Unexpired(Apply(c, s, step).server.dedup.entries, key, now) <==>
              if step.Finish? && step.result == Success(true) && s.server.tasks[step.id].messageKey == key
              then now < step.now + c.ttl
              else Unexpired(s.server.dedup.entries, key, now)
  {
    SweepingForgetsOnlyExpired(s.server.dedup, c.interval, step.now, key, now);
  }

  lemma {:induction false} StepsInTimeOrder(run: Run, i: nat, k: nat)
    requires IsRun(run) && i <= k < |run.steps|
    ensures run.steps[i].now <= run.steps[k].now
    decreases k
  {
    if i < k {
      StepsInTimeOrder(run, i, k - 1);
      ClockOf(run, k);
      ClockOf(run, k - 1);
    }
  }

  lemma MemoryOf(run: Run, k: nat, key: string, now: real)
    requires IsRun(run) && k < |run.steps| && run.states[k + 1].clock <= now
    ensures run.states[k].clock <= now
    ensures Unexpired(run.states[k + 1].server.dedup.entries, key, now) <==>
              if SucceedsAt(run, k, key) then now < run.steps[k].now + run.config.ttl
              else Unexpired(run.states[k].server.dedup.entries, key, now)
  {
    assert Follows(run, k);
    OneStepMemory(run.config, run.states[k], run.steps[k], key, now);
  }

  /** The lazily swept cache remembers exactly the keys delivered within the TTL. */
  lemma {:induction false} CacheRemembersRecentDeliveries(run: Run, k: nat, key: string, now: real)
    requires IsRun(run) && k <= |run.steps| && run.states[k].clock <= now
    ensures Unexpired(run.states[k].server.dedup.entries, key, now) <==> RecentlyDelivered(run, k, key, now)
  {
    if k > 0 {
      MemoryOf(run, k - 1, key, now);
      CacheRemembersRecentDeliveries(run, k - 1, key, now);
      RecentGrows(run, k, key, now);
    }
  }

  lemma RecentGrows(run: Run, k: nat, key: string, now: real)
    requires IsRun(run) && 0 < k <= |run.steps|
    ensures RecentlyDelivered(run, k, key, now) <==>
              if SucceedsAt(run, k - 1, key) then now < run.steps[k - 1].now + run.config.ttl
              else RecentlyDelivered(run, k - 1, key, now)
  {
    if SucceedsAt(run, k - 1, key) {
      if i: nat :| i < k && SucceedsAt(run, i, key) && now < run.steps[i].now + run.config.ttl {
        StepsInTimeOrder(run, i, k - 1);
      }
    }
  }

  // ---------------------------------------------------------------- main results

  lemma InFlightIsOutstanding(run: Run, k: nat, key: string)
    requires IsRun(run) && k <= |run.steps|
    ensures key in run.states[k].server.inFlight <==> OutstandingAt(run, k, key)
  {
    InvAlways(run, k);
  }

  /**
   * A complete callback starts a delivery if and only if no delivery of its key is under way and none succeeded
   * less than the TTL ago.
   */
  lemma AcceptedIff(run: Run, k: nat, key: string)
    requires IsRun(run) && k < |run.steps| && AsksAt(run, k, key)
    ensures AcceptsAt(run, k, key) <==>
              !OutstandingAt(run, k, key) && !RecentlyDelivered(run, k, key, run.steps[k].now)
  {
    StepOf(run, k);
    InFlightIsOutstanding(run, k, key);
    CacheRemembersRecentDeliveries(run, k, key, run.steps[k].now);
  }

  /** After a success at time t no delivery of that key starts before t + TTL. */
  lemma NoRedeliveryWithinTtl(run: Run, i: nat, j: nat, key: string)
    requires IsRun(run) && i < j < |run.steps| && SucceedsAt(run, i, key) && AcceptsAt(run, j, key)
    ensures run.steps[j].now >= run.steps[i].now + run.config.ttl
  {
    AcceptedIff(run, j, key);
  }

  /** The end of a delivery releases its key. */
  lemma FinishReleases(run: Run, i: nat, key: string)
    requires IsRun(run) && i < |run.steps| && (SucceedsAt(run, i, key) || FailsAt(run, i, key))
    ensures !OutstandingAt(run, i + 1, key)
  {
    StepOf(run, i);
  }

  /** A key becomes outstanding only through an accepted callback. */
  lemma OnlyAcceptanceStarts(run: Run, k: nat, key: string)
    requires IsRun(run) && k < |run.steps| && !OutstandingAt(run, k, key) && !AcceptsAt(run, k, key)
    ensures !OutstandingAt(run, k + 1, key)
  {
    StepOf(run, k);
    InFlightIsOutstanding(run, k, key);
    InFlightIsOutstanding(run, k + 1, key);
  }

  /** Until the TTL after a success has passed, its key is not outstanding. */
  lemma {:induction false} IdleUntilTtl(run: Run, i: nat, k: nat, key: string)
    requires IsRun(run) && i < k <= |run.steps| && SucceedsAt(run, i, key)
    ensures OutstandingAt(run, k, key) ==> run.states[k].clock >= run.steps[i].now + run.config.ttl
    decreases k
  {
    if k == i + 1 {
      FinishReleases(run, i, key);
    } else {
      IdleUntilTtl(run, i, k - 1, key);
      IdleStep(run, i, k - 1, key);
    }
  }

  lemma IdleStep(run: Run, i: nat, k: nat, key: string)
    requires IsRun(run) && i < k < |run.steps| && SucceedsAt(run, i, key)
    requires OutstandingAt(run, k, key) ==> run.states[k].clock >= run.steps[i].now + run.config.ttl
    ensures OutstandingAt(run, k + 1, key) ==> run.states[k + 1].clock >= run.steps[i].now + run.config.ttl
  {
    StepOf(run, k);
    if AcceptsAt(run, k, key) {
      NoRedeliveryWithinTtl(run, i, k, key);
    } else if !OutstandingAt(run, k, key) {
      OnlyAcceptanceStarts(run, k, key);
    }
  }

  /** Two full deliveries of one key are at least the TTL apart. */
  lemma SuccessesAreApart(run: Run, i: nat, j: nat, key: string)
    requires IsRun(run) && i < j < |run.steps| && SucceedsAt(run, i, key) && SucceedsAt(run, j, key)
    ensures run.steps[j].now >= run.steps[i].now + run.config.ttl
  {
    IdleUntilTtl(run, i, j, key);
    StepOf(run, j);
  }

  /** After a failed or raising attempt, the next complete callback for the key is accepted, however soon it comes. */
  lemma FailureLeavesRedeliverable(run: Run, i: nat, j: nat, key: string)
    requires IsRun(run) && i < j < |run.steps| && FailsAt(run, i, key)
    requires AsksAt(run, j, key) && forall k | i < k < j :: !AcceptsAt(run, k, key)
    ensures AcceptsAt(run, j, key)
  {
    FinishReleases(run, i, key);
    var k := i + 1;
    while k < j
      invariant i < k <= j
      invariant !OutstandingAt(run, k, key)
      invariant forall m | i <= m < k :: !SucceedsAt(run, m, key)
    {
      assert !AcceptsAt(run, k, key);
      OnlyAcceptanceStarts(run, k, key);
      k := k + 1;
    }
    NotRecentWhileInFlight(run, i, j, key);
    AcceptedIff(run, j, key);
  }

  /** While a key is in flight, none of its earlier successes is recent. */
  lemma NotRecentWhileInFlight(run: Run, i: nat, j: nat, key: string)
    requires IsRun(run) && i < j < |run.steps| && FailsAt(run, i, key)
    requires forall m | i <= m < j :: !SucceedsAt(run, m, key)
    ensures !RecentlyDelivered(run, j, key, run.steps[j].now)
  {
    StepOf(run, i);
    InFlightIsOutstanding(run, i, key);
    CacheRemembersRecentDeliveries(run, i, key, run.states[i].clock);
    StepsInTimeOrder(run, i, j);
    forall m: nat | m < j && SucceedsAt(run, m, key)
      ensures run.steps[j].now >= run.steps[m].now + run.config.ttl
    {
      assert m < i;
    }
  }

  /** A task that one step finds under way was already there, or is started by just that step. */
  lemma OneStepOrigin(run: Run, k: nat, id: TaskId)
    requires IsRun(run) && k < |run.steps| && id in run.states[k + 1].server.tasks
    ensures var before, payload := run.states[k].server, run.states[k + 1].server.tasks[id];
            if id in before.tasks then before.tasks[id] == payload
            else
              && AcceptsAt(run, k, payload.messageKey)
              && run.steps[k].request.payload == payload && before.nextTask == id
  {
    InvAlways(run, k);
    assert Follows(run, k);
  }

  /** A task under way comes from one accepted callback, whose payload it still carries. */
  lemma {:induction false} TaskOrigin(run: Run, k: nat, id: TaskId) returns (i: nat)
    requires IsRun(run) && k <= |run.steps| && id in run.states[k].server.tasks
    ensures i < k && AcceptsAt(run, i, run.states[k].server.tasks[id].messageKey)
    ensures run.steps[i].request.payload == run.states[k].server.tasks[id]
    ensures run.states[i].server.nextTask == id
  {
    assert k > 0;
    OneStepOrigin(run, k - 1, id);
    if id in run.states[k - 1].server.tasks {
      i := TaskOrigin(run, k - 1, id);
    } else {
      i := k - 1;
    }
  }

  /** Step `k` ends the only attempt at the payload accepted in step `i`, and that attempt delivered everything. */
  predicate DeliveredInFull(run: Run, i: nat, k: nat, key: string)
    requires |run.states| == |run.steps| + 1 && i < k < |run.steps|
  {
    && AcceptsAt(run, i, key) && SucceedsAt(run, k, key)
    && FullyDelivered(run.steps[i].request.payload, run.config.chunkSize, run.steps[k].log)
    && SentTo(Recipient(run.steps[i].request.payload), run.steps[k].log)
    && Disciplined(run.steps[k].log)
  }

  lemma SuccessDeliversInFull(run: Run, k: nat, key: string) returns (i: nat)
    requires IsRun(run) && k < |run.steps| && SucceedsAt(run, k, key)
    ensures i < k && DeliveredInFull(run, i, k, key)
  {
    StepOf(run, k);
    i := TaskOrigin(run, k, run.steps[k].id);
  }

  /** A key found completed was delivered in full, by one attempt at one accepted callback for it, within the TTL. */
  lemma CompletedMeansDelivered(run: Run, k: nat, key: string, now: real) returns (i: nat, j: nat)
    requires IsRun(run) && k <= |run.steps| && run.states[k].clock <= now
    requires Unexpired(run.states[k].server.dedup.entries, key, now)
    ensures i < j < k && DeliveredInFull(run, i, j, key) && now < run.steps[j].now + run.config.ttl
  {
    CacheRemembersRecentDeliveries(run, k, key, now);
    j :| j < k && SucceedsAt(run, j, key) && now < run.steps[j].now + run.config.ttl;
    i := SuccessDeliversInFull(run, j, key);
  }

  // ---------------------------------------------------------------- what a delivery attempts

  lemma AttemptOf(run: Run, k: nat)
    requires IsRun(run) && k < |run.steps| && run.steps[k].Finish?
    ensures run.steps[k].id in run.states[k].server.tasks
    ensures var step, p := run.steps[k], run.states[k].server.tasks[run.steps[k].id];
            && Conducted(p, run.config.chunkSize, step.log)
            && (step.result.Failure? <==> Broke(run.config.chunkSize, step.log))
            && (step.result == Success(true) <==> FullyDelivered(p, run.config.chunkSize, step.log))
  {
    StepOf(run, k);
    var p := run.states[k].server.tasks[run.steps[k].id];
    assert p.kind.Complete?;
    assert Accounted(p, run.config.chunkSize, run.steps[k].log, run.steps[k].result);
  }

  /** A delivery raises only because a leaf did, or because text was due and the chunk size is no size. */
  lemma RaisesIff(run: Run, k: nat)
    requires IsRun(run) && k < |run.steps| && run.steps[k].Finish?
    ensures var t := run.steps[k].log;
            run.steps[k].result.Failure? <==> SomethingRaised(t) || (TextDue(t) && run.config.chunkSize <= 0)
  {
    AttemptOf(run, k);
    BrokeIff(run.states[k].server.tasks[run.steps[k].id], run.config.chunkSize, run.steps[k].log);
  }

  /** A delivery in which nothing failed completes its key, for as long as the TTL. */
  lemma FlawlessDeliveryCompletes(run: Run, k: nat, now: real)
    requires IsRun(run) && k < |run.steps| && run.steps[k].Finish? && run.config.chunkSize > 0
    requires NothingFails(run.steps[k].log)
    requires run.steps[k].now <= now < run.steps[k].now + run.config.ttl
    ensures run.steps[k].id in run.states[k].server.tasks
    ensures var key := run.states[k].server.tasks[run.steps[k].id].messageKey;
            SucceedsAt(run, k, key) && Unexpired(run.states[k + 1].server.dedup.entries, key, now)
  {
    AttemptOf(run, k);
    var p := run.states[k].server.tasks[run.steps[k].id];
    NothingFailedDelivers(p, run.config.chunkSize, run.steps[k].log);
    ClockOf(run, k);
    assert SucceedsAt(run, k, p.messageKey);
    CacheRemembersRecentDeliveries(run, k + 1, p.messageKey, now);
  }
}
