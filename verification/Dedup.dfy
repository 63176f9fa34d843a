/** The TTL map of delivered message keys, swept lazily on access. */
module Dedup {

  /** Expiry instants by key, and when expired entries were last swept out. */
  datatype Cache = Cache(entries: map<string, real>, lastSweep: real)

  function Live(entries: map<string, real>, now: real): map<string, real> {
    map k | k in entries && entries[k] > now :: entries[k]
  }

  function Swept(c: Cache, interval: real, now: real): Cache {
    if now - c.lastSweep < interval then c else Cache(Live(c.entries, now), now)
  }

  function Marked(c: Cache, ttl: real, interval: real, key: string, now: real): Cache {
    var s := Swept(c, interval, now);
    s.(entries := s.entries[key := now + ttl])
  }

  predicate Unexpired(entries: map<string, real>, key: string, now: real) {
    key in entries && entries[key] > now
  }

  class CompletedKeys {
    const ttlMs: real
    const sweepIntervalMs: real
    var entries: map<string, real>
    var lastSweep: real

    ghost function View(): Cache
      reads this
    {
      Cache(entries, lastSweep)
    }

    constructor (ttlMs: real, sweepIntervalMs: real, now: real)
      ensures this.ttlMs == ttlMs && this.sweepIntervalMs == sweepIntervalMs
      ensures View() == Cache(map[], now)
    {
      this.ttlMs := ttlMs;
      this.sweepIntervalMs := sweepIntervalMs;
      entries := map[];
      lastSweep := now;
    }

    method MaybeSweep(now: real)
      modifies this
      ensures View() == Swept(old(View()), sweepIntervalMs, now)
      ensures forall k :: k in entries <==>
                k in old(entries) && (old(entries)[k] > now || now < old(lastSweep) + sweepIntervalMs)
    {
      if now - lastSweep < sweepIntervalMs {
        return;
      }
      lastSweep := now;
      var expired := set k | k in entries && entries[k] <= now;
      while expired != {}
        invariant lastSweep == now
        invariant forall k :: k in entries <==> k in old(entries) && (old(entries)[k] > now || k in expired)
        invariant forall k | k in entries :: entries[k] == old(entries)[k]
        invariant forall k | k in expired :: k in old(entries) && old(entries)[k] <= now
        decreases |expired|
      {
        var key :| key in expired;
        entries := entries - {key};
        expired := expired - {key};
      }
    }

    /** Answers from the swept map, which is the answer the unswept one would give. */
    method IsCompleted(key: string, now: real) returns (completed: bool)
      modifies this
      ensures View() == Swept(old(View()), sweepIntervalMs, now)
      ensures completed == Unexpired(old(entries), key, now)
    {
      MaybeSweep(now);
      completed := key in entries && entries[key] > now;
    }

    method MarkCompleted(key: string, now: real)
      modifies this
      ensures View() == Marked(old(View()), ttlMs, sweepIntervalMs, key, now)
    {
      MaybeSweep(now);
      entries := entries[key := now + ttlMs];
    }
  }

  // ---------------------------------------------------------------- lazy sweeping is invisible

  datatype Access = Query(key: string, now: real) | Mark(key: string, now: real)

  /** The cache after a sequence of accesses, sweeping lazily. */
  function LazyRun(start: real, ttl: real, interval: real, accesses: seq<Access>): Cache {
    if accesses == [] then Cache(map[], start)
    else
      var c := LazyRun(start, ttl, interval, accesses[..|accesses| - 1]);
      match accesses[|accesses| - 1]
      case Query(_, now) => Swept(c, interval, now)
      case Mark(key, now) => Marked(c, ttl, interval, key, now)
  }

  /** The expiry of the latest mark of every key ever marked; nothing is ever removed. */
  function Marks(ttl: real, accesses: seq<Access>): map<string, real> {
    if accesses == [] then map[]
    else
      var m := Marks(ttl, accesses[..|accesses| - 1]);
      match accesses[|accesses| - 1]
      case Query(_, _) => m
      case Mark(key, now) => m[key := now + ttl]
  }

  /** The clock never runs backwards. */
  predicate Monotone(start: real, accesses: seq<Access>) {
    && (accesses != [] ==> start <= accesses[0].now)
    && forall i, j | 0 <= i < j < |accesses| :: accesses[i].now <= accesses[j].now
  }

  function LastInstant(start: real, accesses: seq<Access>): real {
    if accesses == [] then start else accesses[|accesses| - 1].now
  }

  lemma MonotoneInit(start: real, accesses: seq<Access>)
    requires Monotone(start, accesses) && accesses != []
    ensures Monotone(start, accesses[..|accesses| - 1])
    ensures LastInstant(start, accesses[..|accesses| - 1]) <= LastInstant(start, accesses)
  {
  }

  /** The lazy map holds latest marks only, and whatever it no longer holds had expired by `now`. */
  predicate Agrees(entries: map<string, real>, marks: map<string, real>, now: real) {
    && (forall k | k in entries :: k in marks && marks[k] == entries[k])
    && (forall k | k in marks && k !in entries :: marks[k] <= now)
  }

  lemma {:induction false} LazyAgrees(start: real, ttl: real, interval: real, accesses: seq<Access>)
    requires Monotone(start, accesses)
    ensures Agrees(LazyRun(start, ttl, interval, accesses).entries, Marks(ttl, accesses), LastInstant(start, accesses))
  {
    if accesses != [] {
      MonotoneInit(start, accesses);
      LazyAgrees(start, ttl, interval, accesses[..|accesses| - 1]);
    }
  }

  /** Over every monotone run, every later query is answered as by a map that is never swept. */
  lemma LazySweepIsInvisible(start: real, ttl: real, interval: real, accesses: seq<Access>, key: string, now: real)
    requires Monotone(start, accesses) && LastInstant(start, accesses) <= now
    ensures Unexpired(LazyRun(start, ttl, interval, accesses + [Query(key, now)]).entries, key, now)
            <==> Unexpired(Marks(ttl, accesses), key, now)
  {
    var all := accesses + [Query(key, now)];
    assert all[..|all| - 1] == accesses;
    LazyAgrees(start, ttl, interval, accesses);
  }

  /** No entry outlives its mark by more than the TTL and one sweep interval. */
  lemma {:induction false} EntriesAreRecent(start: real, ttl: real, interval: real, accesses: seq<Access>)
    requires Monotone(start, accesses) && accesses != [] && ttl > 0.0 && interval >= 0.0
    ensures var c, now := LazyRun(start, ttl, interval, accesses), LastInstant(start, accesses);
            && c.lastSweep <= now
            && (forall k | k in c.entries :: c.entries[k] > c.lastSweep)
            && (forall k | k in c.entries :: now - (c.entries[k] - ttl) < ttl + interval)
  {
    var init := accesses[..|accesses| - 1];
    MonotoneInit(start, accesses);
    if init != [] {
      EntriesAreRecent(start, ttl, interval, init);
    }
  }
}
