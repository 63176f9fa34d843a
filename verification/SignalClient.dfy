/**
 * Outbound sending: paced attachment batches, voice notes, and the leaves that reach the daemon.
 *
 * Each client object records what one delivery attempt does.  The leaves choose their outcome freely.
 */
module SignalClient {
  import opened Wrappers
  import opened SignalLog
  import RateLimit

  const RATE_LIMIT_MAX_ATTEMPTS := 2
  const BATCH_PACING_NOTICE_THRESHOLD := 10.0

  datatype Error = OverCapacity(n: int) | BadChunkSize | LeafRaised

  // ---------------------------------------------------------------- batches

  function Batches(paths: seq<string>): seq<seq<string>> {
    if |paths| == 0 then []
    else if |paths| <= RateLimit.MAX_ATTACHMENTS_PER_MSG then [paths]
    else [paths[..RateLimit.MAX_ATTACHMENTS_PER_MSG]] + Batches(paths[RateLimit.MAX_ATTACHMENTS_PER_MSG..])
  }

  function Concat(batches: seq<seq<string>>): seq<string> {
    if batches == [] then [] else Concat(batches[..|batches| - 1]) + batches[|batches| - 1]
  }

  lemma {:induction false} ConcatCons(head: seq<string>, rest: seq<seq<string>>)
    ensures Concat([head] + rest) == head + Concat(rest)
  {
    var all := [head] + rest;
    if rest == [] {
      assert all[..0] == [];
    } else {
      ConcatCons(head, rest[..|rest| - 1]);
      assert all[..|all| - 1] == [head] + rest[..|rest| - 1];
    }
  }

  /** Every batch holds 32 but the last, which is not empty. */
  predicate FullButLast(batches: seq<seq<string>>) {
    forall i | 0 <= i < |batches| :: 1 <= |batches[i]| <= 32 && (i + 1 < |batches| ==> |batches[i]| == 32)
  }

  /** The batches are the paths, in order, 32 at a time. */
  lemma {:induction false} BatchesPartition(paths: seq<string>)
    ensures Concat(Batches(paths)) == paths && FullButLast(Batches(paths))
    decreases |paths|
  {
    var n := RateLimit.MAX_ATTACHMENTS_PER_MSG;
    if |paths| > n {
      BatchesPartition(paths[n..]);
      ConcatCons(paths[..n], Batches(paths[n..]));
      assert paths == paths[..n] + paths[n..];
    } else if |paths| > 0 {
      ConcatCons(paths, []);
      assert [paths] + [] == [paths];
    }
  }

  /** The comprehension that cuts a path list into batches. */
  method CutBatches(paths: seq<string>) returns (batches: seq<seq<string>>)
    ensures batches == Batches(paths)
  {
    batches := [];
    var i := 0;
    while i < |paths|
      invariant 0 <= i
      invariant i < |paths| ==> batches + Batches(paths[i..]) == Batches(paths)
      invariant i >= |paths| ==> batches == Batches(paths)
      decreases |paths| - i
    {
      var next := i + RateLimit.MAX_ATTACHMENTS_PER_MSG;
      if next < |paths| {
        assert paths[i..][..RateLimit.MAX_ATTACHMENTS_PER_MSG] == paths[i..next];
        assert paths[i..][RateLimit.MAX_ATTACHMENTS_PER_MSG..] == paths[next..];
        batches := batches + [paths[i..next]];
      } else {
        batches := batches + [paths[i..]];
      }
      i := next;
    }
  }

  // ---------------------------------------------------------------- one batch

  predicate RpcFor(recipient: string, paths: seq<string>, voice: bool, e: Event) {
    e.Rpc? && e.recipient == recipient && e.paths == paths && e.voice == voice
  }

  predicate Accepts(e: Event) {
    e.Rpc? && e.outcome.Accepted?
  }

  /** A batch is sent once if that is accepted, and otherwise exactly twice. */
  predicate Tried(recipient: string, paths: seq<string>, voice: bool, rpcs: seq<Event>) {
    && (forall e | e in rpcs :: RpcFor(recipient, paths, voice, e))
    && ((|rpcs| == 1 && Accepts(rpcs[0])) || (|rpcs| == RATE_LIMIT_MAX_ATTEMPTS && !Accepts(rpcs[0])))
  }

  function StageOf(voice: bool): nat {
    if voice then SEND_VOICE else SEND_FILES
  }

  /** What sending one batch leaves in the log: at most two RPCs, all for this batch, only the last of them accepted. */
  predicate BatchSent(recipient: string, paths: seq<string>, voice: bool, t: Log, ok: bool) {
    && Texts(t) == [] && Files(t) == [] && Reactions(t) == [] && Sources(t) == []
    && Delivered(t) == (if ok && !voice then paths else [])
    && VoiceNotes(t) == (if ok && voice then paths else [])
    && VoiceRpcs(t) == (if voice then Rpcs(t) else [])
    && FileRpcs(t) == (if voice then [] else Rpcs(t))
    && |Rpcs(t)| <= RATE_LIMIT_MAX_ATTEMPTS
    && (forall e | e in Rpcs(t) :: RpcFor(recipient, paths, voice, e))
    && Staged(t, StageOf(voice), StageOf(voice))
    && (paths != [] ==> Disciplined(t))
  }

  predicate Quiet(t: Log) {
    && Texts(t) == [] && Files(t) == [] && Delivered(t) == [] && VoiceNotes(t) == [] && Rpcs(t) == []
    && VoiceRpcs(t) == [] && FileRpcs(t) == [] && Sources(t) == [] && Reactions(t) == []
    && Staged(t, FETCH_VOICE, FETCH_VOICE) && Staged(t, REACT, REACT)
  }

  // ---------------------------------------------------------------- the log of a batch

  function Power(base: nat, exponent: nat): nat {
    if exponent == 0 then 1 else base * Power(base, exponent - 1)
  }

  function Reservation(n: nat): Log {
    if n > 0 then [Reserved(n)] else []
  }

  /** What directly follows the RPC of attempt `number`: its report, the feedback, or a pause before the next one. */
  function Reaction(rpc: Event, number: nat): Log {
    if !rpc.Rpc? then []
    else
      match rpc.outcome
      case Accepted => [Reported(|rpc.paths|)]
      case NoResult => if number < RATE_LIMIT_MAX_ATTEMPTS then [Paused(Power(2, number))] else []
      case RateLimited(retryAfter) => [FedBack(retryAfter)]
  }

  /** An RPC without a result is followed by two seconds before the retry, and by nothing when there is no retry. */
  lemma PauseBetweenAttempts(rpc: Event)
    requires rpc.Rpc? && rpc.outcome.NoResult?
    ensures Reaction(rpc, 1) == [Paused(2)] && Reaction(rpc, 2) == []
  {
    assert Power(2, 1) == 2 * Power(2, 0);
  }

  function AttemptLog(rpc: Event, number: nat): Log {
    Reservation(if rpc.Rpc? then |rpc.paths| else 0) + [rpc] + Reaction(rpc, number)
  }

  /** The RPCs of a batch determine its whole log. */
  function BatchLog(rpcs: seq<Event>): Log {
    if rpcs == [] then [] else BatchLog(rpcs[..|rpcs| - 1]) + AttemptLog(rpcs[|rpcs| - 1], |rpcs|)
  }

  lemma BatchLogSnoc(rpcs: seq<Event>, rpc: Event)
    ensures BatchLog(rpcs + [rpc]) == BatchLog(rpcs) + AttemptLog(rpc, |rpcs| + 1)
  {
    assert (rpcs + [rpc])[..|rpcs|] == rpcs;
  }

  /** What one attempt leaves in the log. */
  predicate AttemptMade(recipient: string, paths: seq<string>, voice: bool, t: Log, number: nat, ok: bool) {
    && BatchSent(recipient, paths, voice, t, ok)
    && |Rpcs(t)| == 1 && Accepts(Rpcs(t)[0]) == ok && t == AttemptLog(Rpcs(t)[0], number)
  }

  /** Before attempt `number`: none of the earlier ones was accepted. */
  predicate Trying(recipient: string, paths: seq<string>, voice: bool, t: Log, number: nat) {
    && BatchSent(recipient, paths, voice, t, false)
    && |Rpcs(t)| + 1 == number && t == BatchLog(Rpcs(t))
    && forall e | e in Rpcs(t) :: !Accepts(e)
  }

  /** A batch that was dealt with: sent once or twice, its last RPC deciding, and logged as its RPCs call for. */
  predicate BatchDone(recipient: string, paths: seq<string>, voice: bool, t: Log, ok: bool) {
    && BatchSent(recipient, paths, voice, t, ok) && Tried(recipient, paths, voice, Rpcs(t))
    && Accepts(Rpcs(t)[|Rpcs(t)| - 1]) == ok && t == BatchLog(Rpcs(t))
  }

  class Client {
    var log: Log

    constructor ()
      ensures log == []
    {
      log := [];
    }

    // -------------------------------------------------------------- leaves

    method Note(e: Event)
      modifies this
      ensures log == old(log) + [e]
    {
      log := log + [e];
    }

    /** `acquire`, once it has been granted its tokens; requests beyond the capacity raise. */
    method Reserve(n: nat) returns (r: Result<(), Error>, ghost t: Log)
      modifies this
      ensures log == old(log) + t
      ensures r.Failure? <==> n as real > RateLimit.BUCKET_CAPACITY
      ensures t == if r.Success? && n > 0 then [Reserved(n)] else []
    {
      t := [];
      if n == 0 {
        return Success(()), t;
      }
      if n as real > RateLimit.BUCKET_CAPACITY {
        return Failure(OverCapacity(n)), t;
      }
      Note(Reserved(n));
      t := [Reserved(n)];
      return Success(()), t;
    }

    method CallRpc(recipient: string, paths: seq<string>, voice: bool) returns (outcome: RpcOutcome)
      modifies this
      ensures log == old(log) + [Rpc(recipient, paths, voice, outcome)]
    {
      outcome := *;
      Note(Rpc(recipient, paths, voice, outcome));
    }

    method SendText(recipient: string, text: string) returns (outcome: SendOutcome)
      modifies this
      ensures log == old(log) + [TextEvent(TextSend(recipient, text, outcome))]
    {
      outcome := *;
      Note(TextEvent(TextSend(recipient, text, outcome)));
    }

    method FetchFile(url: string) returns (fetch: Fetch)
      modifies this
      ensures log == old(log) + [FileEvent(FileFetch(url, fetch))]
    {
      fetch := *;
      Note(FileEvent(FileFetch(url, fetch)));
    }

    method FetchVoice(url: string) returns (fetch: Fetch)
      modifies this
      ensures log == old(log) + [VoiceFetched(url, fetch)]
    {
      fetch := *;
      Note(VoiceFetched(url, fetch));
    }

    method DecodeVoice(audio: string) returns (fetch: Fetch)
      modifies this
      ensures log == old(log) + [VoiceDecoded(audio, fetch)]
    {
      fetch := *;
      Note(VoiceDecoded(audio, fetch));
    }

    method EstimateWait() returns (wait: real)
    {
      wait := *;
    }

    // -------------------------------------------------------------- batches

    /** One pass of the retry loop: reserve, send, and react to the outcome. */
    method Attempt(recipient: string, paths: seq<string>, voice: bool, number: nat)
      returns (r: Result<bool, Error>, ghost t: Log)
      modifies this
      ensures log == old(log) + t
      ensures r.Failure? <==> |paths| as real > RateLimit.BUCKET_CAPACITY
      ensures r.Failure? ==> t == []
      ensures r.Success? ==> AttemptMade(recipient, paths, voice, t, number, r.value)
    {
      var n := |paths|;
      var reserved, t1 := Reserve(n);
      t := t1;
      if reserved.IsFailure() {
        return Failure(reserved.error), t;
      }
      var outcome := CallRpc(recipient, paths, voice);
      ghost var rpc := Rpc(recipient, paths, voice, outcome);
      ghost var after := Reaction(rpc, number);
      match outcome {
        case Accepted =>
          Note(Reported(n));
        case NoResult =>
          if number < RATE_LIMIT_MAX_ATTEMPTS {
            Note(Paused(Power(2, number)));
          }
        case RateLimited(retryAfter) =>
          Note(FedBack(retryAfter));
      }
      t := t1 + [rpc] + after;
      AttemptAlone(recipient, paths, voice, rpc, number);
      Associate(old(log), t1 + [rpc], after);
      Associate(old(log), t1, [rpc]);
      return Success(outcome.Accepted?), t;
    }

    /**
     * Up to two attempts at one batch; raises only when the batch exceeds the bucket, and then before any RPC.  The
     * outcomes of the RPCs determine everything else that is done.
     */
    method SendAttachmentBatch(recipient: string, paths: seq<string>, voice: bool)
      returns (r: Result<bool, Error>, ghost t: Log)
      modifies this
      ensures log == old(log) + t
      ensures r.Failure? <==> |paths| as real > RateLimit.BUCKET_CAPACITY
      ensures r.Failure? ==> t == []
      ensures r.Success? ==> BatchDone(recipient, paths, voice, t, r.value)
    {
      t := [];
      NothingSent(recipient, paths, voice);
      var attempt := 1;
      while attempt <= RATE_LIMIT_MAX_ATTEMPTS
        invariant 1 <= attempt <= RATE_LIMIT_MAX_ATTEMPTS + 1
        invariant log == old(log) + t
        invariant attempt > 1 ==> |paths| as real <= RateLimit.BUCKET_CAPACITY
        invariant attempt == 1 ==> t == []
        invariant if attempt <= RATE_LIMIT_MAX_ATTEMPTS then Trying(recipient, paths, voice, t, attempt)
                  else BatchDone(recipient, paths, voice, t, false)
      {
        var sent, t1 := Attempt(recipient, paths, voice, attempt);
        if sent.IsFailure() {
          return Failure(sent.error), t;
        }
        Associate(old(log), t, t1);
        if sent.value || attempt == RATE_LIMIT_MAX_ATTEMPTS {
          StopTrying(recipient, paths, voice, t, t1, attempt, sent.value);
        } else {
          KeepTrying(recipient, paths, voice, t, t1, attempt);
        }
        t := t + t1;
        if sent.value {
          return Success(true), t;
        }
        attempt := attempt + 1;
      }
      return Success(false), t;
    }
  }

  lemma ReservationQuiet(n: nat)
    ensures Quiet(Reservation(n))
  {
    if n > 0 {
      One(Reserved(n));
    }
  }

  lemma AttemptDisciplined(rpc: Event, number: nat)
    requires rpc.Rpc? && rpc.paths != []
    ensures Disciplined(AttemptLog(rpc, number))
  {
    var t := AttemptLog(rpc, number);
    assert t[0] == Reserved(|rpc.paths|) && t[1] == rpc;
  }

  lemma ReactionQuiet(rpc: Event, number: nat)
    requires rpc.Rpc?
    ensures Quiet(Reaction(rpc, number))
  {
    var after := Reaction(rpc, number);
    if after != [] {
      assert after == [after[0]];
      One(after[0]);
    }
  }

  /** One attempt: a reservation, its RPC, and what follows it. */
  lemma AttemptAlone(recipient: string, paths: seq<string>, voice: bool, rpc: Event, number: nat)
    requires RpcFor(recipient, paths, voice, rpc)
    ensures BatchSent(recipient, paths, voice, AttemptLog(rpc, number), rpc.outcome.Accepted?)
    ensures Rpcs(AttemptLog(rpc, number)) == [rpc]
  {
    ReservationQuiet(|paths|);
    ReactionQuiet(rpc, number);
    OnlyRpc(Reservation(|paths|), rpc, Reaction(rpc, number));
    OnlyStage(Reservation(|paths|), rpc, Reaction(rpc, number));
    if paths != [] {
      AttemptDisciplined(rpc, number);
    }
  }

  lemma OnlyRpc(t1: Log, rpc: Event, after: Log)
    requires Quiet(t1) && Quiet(after) && rpc.Rpc?
    ensures var t := t1 + [rpc] + after;
            && Texts(t) == [] && Files(t) == [] && Reactions(t) == [] && Sources(t) == []
            && Delivered(t) == DeliveredBy(rpc) && VoiceNotes(t) == VoiceBy(rpc)
            && Rpcs(t) == [rpc] && VoiceRpcs(t) == VoiceRpcOf(rpc) && FileRpcs(t) == FileRpcOf(rpc)
  {
    Then(t1, rpc);
    Append(t1 + [rpc], after);
    Alone(DeliveredBy(rpc));
    Alone(VoiceBy(rpc));
    Alone(VoiceRpcOf(rpc));
    Alone(FileRpcOf(rpc));
    Alone([rpc]);
  }

  predicate Stageless(t: Log) {
    forall i | 0 <= i < |t| :: Stage(t[i]).None?
  }

  lemma QuietIsStageless(t: Log)
    requires Quiet(t)
    ensures Stageless(t)
  {
    forall i | 0 <= i < |t|
      ensures Stage(t[i]).None?
    {
      assert During(t[i], FETCH_VOICE, FETCH_VOICE) && During(t[i], REACT, REACT);
    }
  }

  lemma StagelessAnytime(t: Log, from: nat, to: nat)
    requires Stageless(t)
    ensures Staged(t, from, to)
  {
  }

  lemma OnlyStage(t1: Log, rpc: Event, after: Log)
    requires Quiet(t1) && Quiet(after) && rpc.Rpc?
    ensures Staged(t1 + [rpc] + after, StageOf(rpc.voice), StageOf(rpc.voice))
  {
    var k := StageOf(rpc.voice);
    QuietIsStageless(t1);
    QuietIsStageless(after);
    StagelessAnytime(t1, k, k);
    StagelessAnytime(after, k, k);
    StageOfOne(rpc, k, k);
    StagesJoin(t1, [rpc], k, k, k);
    StagesJoin(t1 + [rpc], after, k, k, k);
  }

  lemma Alone<T>(xs: seq<T>)
    ensures [] + xs + [] == xs
  {
  }

  lemma NothingSent(recipient: string, paths: seq<string>, voice: bool)
    ensures Trying(recipient, paths, voice, [], 1)
  {
  }

  lemma AttemptsJoin(recipient: string, paths: seq<string>, voice: bool, before: Log, t1: Log, ok: bool)
    requires BatchSent(recipient, paths, voice, before, false) && BatchSent(recipient, paths, voice, t1, ok)
    requires |Rpcs(before)| + |Rpcs(t1)| <= RATE_LIMIT_MAX_ATTEMPTS
    ensures BatchSent(recipient, paths, voice, before + t1, ok)
    ensures |Rpcs(before + t1)| == |Rpcs(before)| + |Rpcs(t1)|
  {
    Append(before, t1);
    StagesJoin(before, t1, StageOf(voice), StageOf(voice), StageOf(voice));
    if paths != [] {
      DisciplineAppends(before, t1);
    }
  }

  /** One more attempt continues the log of a batch. */
  lemma LogsJoin(before: Log, t1: Log)
    requires before == BatchLog(Rpcs(before)) && |Rpcs(t1)| == 1
    requires t1 == AttemptLog(Rpcs(t1)[0], |Rpcs(before)| + 1)
    ensures before + t1 == BatchLog(Rpcs(before + t1))
  {
    Append(before, t1);
    assert Rpcs(t1) == [Rpcs(t1)[0]];
    BatchLogSnoc(Rpcs(before), Rpcs(t1)[0]);
  }

  /** An attempt after unsuccessful ones: the group is complete when it is accepted, or when it is the last one. */
  lemma TriedNext(recipient: string, paths: seq<string>, voice: bool, before: seq<Event>, more: seq<Event>)
    requires |before| < RATE_LIMIT_MAX_ATTEMPTS && |more| == 1
    requires forall e | e in before :: RpcFor(recipient, paths, voice, e) && !Accepts(e)
    requires RpcFor(recipient, paths, voice, more[0])
    requires Accepts(more[0]) || |before| + 1 == RATE_LIMIT_MAX_ATTEMPTS
    ensures Tried(recipient, paths, voice, before + more)
    ensures (before + more)[|before + more| - 1] == more[0]
  {
    assert before != [] ==> before[0] in before;
  }

  lemma NoneAccepted(before: seq<Event>, more: seq<Event>)
    requires |more| == 1 && !Accepts(more[0]) && forall e | e in before :: !Accepts(e)
    ensures forall e | e in before + more :: !Accepts(e)
  {
  }

  lemma OwnRpc(recipient: string, paths: seq<string>, voice: bool, t: Log, ok: bool)
    requires BatchSent(recipient, paths, voice, t, ok) && |Rpcs(t)| == 1
    ensures RpcFor(recipient, paths, voice, Rpcs(t)[0])
  {
    assert Rpcs(t)[0] in Rpcs(t);
  }

  lemma KeepTrying(recipient: string, paths: seq<string>, voice: bool, t: Log, t1: Log, number: nat)
    requires Trying(recipient, paths, voice, t, number) && AttemptMade(recipient, paths, voice, t1, number, false)
    requires number <= RATE_LIMIT_MAX_ATTEMPTS
    ensures Trying(recipient, paths, voice, t + t1, number + 1)
  {
    AttemptsJoin(recipient, paths, voice, t, t1, false);
    LogsJoin(t, t1);
    Append(t, t1);
    NoneAccepted(Rpcs(t), Rpcs(t1));
  }

  /** The RPCs of a batch that is done with. */
  lemma LastTry(recipient: string, paths: seq<string>, voice: bool, t: Log, t1: Log, number: nat, ok: bool)
    requires Trying(recipient, paths, voice, t, number) && AttemptMade(recipient, paths, voice, t1, number, ok)
    requires number <= RATE_LIMIT_MAX_ATTEMPTS && (ok || number == RATE_LIMIT_MAX_ATTEMPTS)
    ensures Tried(recipient, paths, voice, Rpcs(t + t1)) && Accepts(Rpcs(t + t1)[|Rpcs(t + t1)| - 1]) == ok
  {
    Append(t, t1);
    OwnRpc(recipient, paths, voice, t1, ok);
    TriedNext(recipient, paths, voice, Rpcs(t), Rpcs(t1));
  }

  lemma StopTrying(recipient: string, paths: seq<string>, voice: bool, t: Log, t1: Log, number: nat, ok: bool)
    requires Trying(recipient, paths, voice, t, number) && AttemptMade(recipient, paths, voice, t1, number, ok)
    requires number <= RATE_LIMIT_MAX_ATTEMPTS && (ok || number == RATE_LIMIT_MAX_ATTEMPTS)
    ensures BatchDone(recipient, paths, voice, t + t1, ok)
  {
    LastTry(recipient, paths, voice, t, t1, number, ok);
    AttemptsJoin(recipient, paths, voice, t, t1, ok);
    LogsJoin(t, t1);
  }

  // ---------------------------------------------------------------- many batches

  /** How many of the RPCs belong to the first batch. */
  function FirstTries(rpcs: seq<Event>): (n: nat)
    ensures n <= |rpcs|
  {
    if rpcs == [] then 0 else if Accepts(rpcs[0]) || |rpcs| == 1 then 1 else 2
  }

  /** The RPCs fall into one group for each batch, in order, whatever became of the batches before. */
  predicate AllTried(recipient: string, batches: seq<seq<string>>, rpcs: seq<Event>) {
    if batches == [] then rpcs == []
    else
      && Tried(recipient, batches[0], false, rpcs[..FirstTries(rpcs)])
      && AllTried(recipient, batches[1..], rpcs[FirstTries(rpcs)..])
  }

  /** The batches whose last RPC was accepted. */
  function AcceptedBatches(batches: seq<seq<string>>, rpcs: seq<Event>): seq<seq<string>> {
    if batches == [] || rpcs == [] then []
    else
      (if Accepts(rpcs[FirstTries(rpcs) - 1]) then [batches[0]] else [])
      + AcceptedBatches(batches[1..], rpcs[FirstTries(rpcs)..])
  }

  lemma FirstTriesOfTried(recipient: string, batch: seq<string>, group: seq<Event>, rest: seq<Event>)
    requires Tried(recipient, batch, false, group)
    ensures FirstTries(group + rest) == |group|
    ensures (group + rest)[..|group|] == group && (group + rest)[|group|..] == rest
  {
  }

  lemma Cons(recipient: string, batches: seq<seq<string>>, batch: seq<string>, group: seq<Event>, rpcs: seq<Event>)
    requires Tried(recipient, batch, false, group)
    ensures AllTried(recipient, [batch] + batches, group + rpcs) <==> AllTried(recipient, batches, rpcs)
    ensures AcceptedBatches([batch] + batches, group + rpcs)
         == (if Accepts(group[|group| - 1]) then [batch] else []) + AcceptedBatches(batches, rpcs)
  {
    FirstTriesOfTried(recipient, batch, group, rpcs);
    assert ([batch] + batches)[1..] == batches;
    assert (group + rpcs)[|group| - 1] == group[|group| - 1];
  }

  lemma {:induction false} AllTriedSnoc(recipient: string, batches: seq<seq<string>>, rpcs: seq<Event>,
                                        batch: seq<string>, group: seq<Event>)
    requires AllTried(recipient, batches, rpcs) && Tried(recipient, batch, false, group)
    ensures AllTried(recipient, batches + [batch], rpcs + group)
    ensures AcceptedBatches(batches + [batch], rpcs + group)
         == AcceptedBatches(batches, rpcs) + if Accepts(group[|group| - 1]) then [batch] else []
    decreases |batches|
  {
    if batches == [] {
      Cons(recipient, [], batch, group, []);
      SeqEnds(batch, group);
    } else {
      var first, rest := rpcs[..FirstTries(rpcs)], rpcs[FirstTries(rpcs)..];
      AllTriedSnoc(recipient, batches[1..], rest, batch, group);
      Cons(recipient, batches[1..], batches[0], first, rest);
      Cons(recipient, batches[1..] + [batch], batches[0], first, rest + group);
      Regrouped(batches, batch, rpcs, FirstTries(rpcs), group);
    }
  }

  lemma SeqEnds(batch: seq<string>, group: seq<Event>)
    ensures [batch] + [] == [batch] == [] + [batch] && group + [] == group == [] + group
  {
  }

  lemma Regrouped(batches: seq<seq<string>>, batch: seq<string>, rpcs: seq<Event>, n: nat, group: seq<Event>)
    requires batches != [] && n <= |rpcs|
    ensures [batches[0]] + batches[1..] == batches && rpcs[..n] + rpcs[n..] == rpcs
    ensures [batches[0]] + (batches[1..] + [batch]) == batches + [batch]
    ensures rpcs[..n] + (rpcs[n..] + group) == rpcs + group
  {
  }

  /** Every batch is sent at least once. */
  lemma {:induction false} EachIsTried(recipient: string, batches: seq<seq<string>>, rpcs: seq<Event>, i: nat)
    requires AllTried(recipient, batches, rpcs) && i < |batches|
    ensures exists e :: e in rpcs && RpcFor(recipient, batches[i], false, e)
    decreases i
  {
    var n := FirstTries(rpcs);
    if i == 0 {
      assert rpcs[0] in rpcs[..n];
    } else {
      EachIsTried(recipient, batches[1..], rpcs[n..], i - 1);
      var e :| e in rpcs[n..] && RpcFor(recipient, batches[i], false, e);
      assert e in rpcs;
    }
  }
}
