/**
 * The callback endpoint and the background deliveries it starts.
 *
 * A complete callback is accepted unless its key was delivered within the TTL or is being delivered; the key is
 * marked only once its delivery has succeeded.  Callbacks and the ends of deliveries interleave freely.
 */
module CallbackServer {
  import opened Wrappers
  import opened Dedup
  import opened SignalLog
  import opened Delivery
  import opened DeliveryPlan
  import SignalClient

  const DEDUP_TTL_MS := 600000.0
  const SWEEP_INTERVAL_MS := 60000.0

  const OK: nat := 200
  const BAD_REQUEST: nat := 400
  const UNAUTHORIZED: nat := 401
  const UNAVAILABLE: nat := 503

  /** A request with a wrong token, one whose body is malformed or unrecognized, or a callback. */
  datatype Request = BadToken | BadBody | Callback(payload: Payload)

  datatype Config = Config(ttl: real, interval: real, hasClient: bool, chunkSize: int)

  type TaskId = nat

  /** `tasks` holds the accepted complete callbacks whose delivery has not ended yet. */
  datatype Server = Server(dedup: Cache, inFlight: set<string>, tasks: map<TaskId, Payload>, nextTask: TaskId,
                           accepted: nat, successes: nat, failures: nat)

  function Fresh(dedup: Cache): Server {
    Server(dedup, {}, map[], 0, 0, 0, 0)
  }

  /** Complete callbacks that start a delivery. */
  predicate Admits(c: Config, s: Server, request: Request, now: real) {
    && request.Callback? && request.payload.kind.Complete? && c.hasClient
    && !Unexpired(s.dedup.entries, request.payload.messageKey, now)
    && request.payload.messageKey !in s.inFlight
  }

  function Received(c: Config, s: Server, request: Request, now: real): Server {
    if !(request.Callback? && request.payload.kind.Complete? && c.hasClient) then s
    else
      var swept := s.(dedup := Swept(s.dedup, c.interval, now));
      if Admits(c, s, request, now) then
        swept.(inFlight := s.inFlight + {request.payload.messageKey},
               tasks := s.tasks[s.nextTask := request.payload],
               nextTask := s.nextTask + 1,
               accepted := s.accepted + 1)
      else swept
  }

  function StatusCode(c: Config, request: Request): nat {
    match request
    case BadToken => UNAUTHORIZED
    case BadBody => BAD_REQUEST
    case Callback(p) => if p.kind.Status? || c.hasClient then OK else UNAVAILABLE
  }

  /** The end of a delivery: mark on success, and release the reservation in any case. */
  function Settled(c: Config, s: Server, id: TaskId, delivered: bool, now: real): Server
    requires id in s.tasks
  {
    var key := s.tasks[id].messageKey;
    s.(dedup := if delivered then Marked(s.dedup, c.ttl, c.interval, key, now) else s.dedup,
       inFlight := s.inFlight - {key},
       tasks := s.tasks - {id},
       successes := s.successes + (if delivered then 1 else 0),
       failures := s.failures + (if delivered then 0 else 1))
  }

  class App {
    const dedup: CompletedKeys
    const hasClient: bool
    const chunkSize: int
    var inFlight: set<string>
    var tasks: map<TaskId, Payload>
    var nextTask: TaskId
    ghost var accepted: nat
    ghost var successes: nat
    ghost var failures: nat

    ghost function Settings(): Config {
      Config(dedup.ttlMs, dedup.sweepIntervalMs, hasClient, chunkSize)
    }

    ghost function View(): Server
      reads this, dedup
    {
      Server(dedup.View(), inFlight, tasks, nextTask, accepted, successes, failures)
    }

    constructor (dedup: CompletedKeys, hasClient: bool, chunkSize: int)
      ensures this.dedup == dedup && this.hasClient == hasClient && this.chunkSize == chunkSize
      ensures View() == Fresh(dedup.View())
    {
      this.dedup := dedup;
      this.hasClient := hasClient;
      this.chunkSize := chunkSize;
      inFlight := {};
      tasks := map[];
      nextTask := 0;
      accepted, successes, failures := 0, 0, 0;
    }

    /** `POST /progress-callback`; progress and error callbacks start a delivery the server keeps no track of. */
    method ProgressCallback(request: Request, now: real) returns (status: nat)
      modifies this, dedup
      ensures View() == Received(Settings(), old(View()), request, now)
      ensures status == StatusCode(Settings(), request)
      ensures status == 401 <==> request.BadToken?
      ensures status == 400 <==> request.BadBody?
      ensures status == 503 <==> request.Callback? && !request.payload.kind.Status? && !hasClient
      ensures status != 200 ==> status in {400, 401, 503} && View() == old(View())
    {
      match request {
        case BadToken => return UNAUTHORIZED;
        case BadBody => return BAD_REQUEST;
        case Callback(payload) =>
          if payload.kind.Status? {
            return OK;
          }
          if !hasClient {
            return UNAVAILABLE;
          }
          if !payload.kind.Complete? {
            return OK;
          }
          var key := payload.messageKey;
          var completed := dedup.IsCompleted(key, now);
          if completed || key in inFlight {
            return OK;
          }
          inFlight := inFlight + {key};
          tasks := tasks[nextTask := payload];
          nextTask := nextTask + 1;
          accepted := accepted + 1;
          return OK;
      }
    }

    /** What follows the delivery, without interruption. */
    method Settle(id: TaskId, delivered: bool, now: real)
      requires id in tasks
      modifies this, dedup
      ensures View() == Settled(Settings(), old(View()), id, delivered, now)
    {
      var key := tasks[id].messageKey;
      if delivered {
        dedup.MarkCompleted(key, now);
      }
      inFlight := inFlight - {key};
      tasks := tasks - {id};
      successes := successes + (if delivered then 1 else 0);
      failures := failures + (if delivered then 0 else 1);
    }

    /** One background delivery: an attempt that raises counts as a failed one. */
    method DeliverAndMark(id: TaskId, client: SignalClient.Client, now: real)
      returns (ghost result: Result<bool, SignalClient.Error>, ghost t: Log)
      requires id in tasks
      modifies this, dedup, client
      ensures client.log == old(client.log) + t
      ensures Disciplined(t) && SentTo(Recipient(old(tasks)[id]), t)
      ensures Accounted(old(tasks)[id], chunkSize, t, result)
      ensures View() == Settled(Settings(), old(View()), id, result == Success(true), now)
    {
      var attempt;
      attempt, t := DispatchCallback(client, tasks[id], chunkSize);
      var delivered := attempt.Success? && attempt.value;
      Settle(id, delivered, now);
      result := attempt;
    }
  }

  /** `create_app`: an injected cache is used as it is, and a fresh one with the default times otherwise. */
  method CreateApp(hasClient: bool, chunkSize: int, injected: CompletedKeys?, now: real) returns (app: App)
    ensures fresh(app) && app.hasClient == hasClient && app.chunkSize == chunkSize
    ensures injected != null ==> app.dedup == injected
    ensures injected == null ==>
              && fresh(app.dedup)
              && app.Settings() == Config(600000.0, 60000.0, hasClient, chunkSize)
              && app.dedup.View() == Cache(map[], now)
    ensures app.View() == Fresh(app.dedup.View())
  {
    var dedup: CompletedKeys;
    if injected != null {
      dedup := injected;
    } else {
      dedup := new CompletedKeys(DEDUP_TTL_MS, SWEEP_INTERVAL_MS, now);
    }
    app := new App(dedup, hasClient, chunkSize);
  }
}
