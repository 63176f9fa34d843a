/** What a delivery does to the outside world, as a log of events, and the questions asked of such a log. */
module SignalLog {
  import opened Wrappers
  import opened Text

  /** A `send` RPC that may be rate-limited: it has a result, it has none, or it is answered with a 429. */
  datatype RpcOutcome = Accepted | NoResult | RateLimited(retryAfter: Option<real>)

  datatype SendOutcome = Sent | NotSent | SendRaised

  datatype Fetch = Stored(path: string) | Unavailable | FetchRaised

  datatype TextSend = TextSend(recipient: string, text: string, outcome: SendOutcome)

  datatype FileFetch = FileFetch(url: string, fetch: Fetch)

  datatype Event =
    | Reserved(tokens: nat)
    | Rpc(recipient: string, paths: seq<string>, voice: bool, outcome: RpcOutcome)
    | Reported(tokens: nat)
    | FedBack(retryAfter: Option<real>)
    | Paused(seconds: nat)
    | Noticed
    | TextEvent(send: TextSend)
    | VoiceFetched(url: string, fetch: Fetch)
    | VoiceDecoded(audio: string, fetch: Fetch)
    | FileEvent(file: FileFetch)
    | Reacted(emoji: string)

  type Log = seq<Event>

  function Collect<T>(t: Log, f: Event -> seq<T>): seq<T> {
    if t == [] then [] else f(t[0]) + Collect(t[1..], f)
  }

  lemma {:induction false} CollectAppend<T>(a: Log, b: Log, f: Event -> seq<T>)
    ensures Collect(a + b, f) == Collect(a, f) + Collect(b, f)
  {
    AppendTail(a, b);
    if a != [] {
      CollectAppend(a[1..], b, f);
    }
  }

  function TextOf(e: Event): seq<TextSend> {
    if e.TextEvent? then [e.send] else []
  }

  function FileOf(e: Event): seq<FileFetch> {
    if e.FileEvent? then [e.file] else []
  }

  function DeliveredBy(e: Event): seq<string> {
    if e.Rpc? && !e.voice && e.outcome.Accepted? then e.paths else []
  }

  function VoiceBy(e: Event): seq<string> {
    if e.Rpc? && e.voice && e.outcome.Accepted? then e.paths else []
  }

  function RpcOf(e: Event): seq<Event> {
    if e.Rpc? then [e] else []
  }

  function VoiceRpcOf(e: Event): seq<Event> {
    if e.Rpc? && e.voice then [e] else []
  }

  function FileRpcOf(e: Event): seq<Event> {
    if e.Rpc? && !e.voice then [e] else []
  }

  function SourceOf(e: Event): seq<Event> {
    if e.VoiceFetched? || e.VoiceDecoded? then [e] else []
  }

  function ReactionOf(e: Event): seq<string> {
    if e.Reacted? then [e.emoji] else []
  }

  /** The text messages attempted, in order. */
  function Texts(t: Log): seq<TextSend> {
    Collect(t, TextOf)
  }

  /** The attachment downloads attempted, in order. */
  function Files(t: Log): seq<FileFetch> {
    Collect(t, FileOf)
  }

  /** The attachment paths of every accepted batch, in order. */
  function Delivered(t: Log): seq<string> {
    Collect(t, DeliveredBy)
  }

  /** The voice notes that were accepted. */
  function VoiceNotes(t: Log): seq<string> {
    Collect(t, VoiceBy)
  }

  function Rpcs(t: Log): seq<Event> {
    Collect(t, RpcOf)
  }

  function VoiceRpcs(t: Log): seq<Event> {
    Collect(t, VoiceRpcOf)
  }

  function FileRpcs(t: Log): seq<Event> {
    Collect(t, FileRpcOf)
  }

  /** Where audio for a voice note was looked for, in order. */
  function Sources(t: Log): seq<Event> {
    Collect(t, SourceOf)
  }

  /** The reactions attempted on the message that is answered. */
  function Reactions(t: Log): seq<string> {
    Collect(t, ReactionOf)
  }

  lemma Append(a: Log, b: Log)
    ensures Texts(a + b) == Texts(a) + Texts(b)
    ensures Files(a + b) == Files(a) + Files(b)
    ensures Delivered(a + b) == Delivered(a) + Delivered(b)
    ensures VoiceNotes(a + b) == VoiceNotes(a) + VoiceNotes(b)
    ensures Rpcs(a + b) == Rpcs(a) + Rpcs(b)
    ensures VoiceRpcs(a + b) == VoiceRpcs(a) + VoiceRpcs(b)
    ensures FileRpcs(a + b) == FileRpcs(a) + FileRpcs(b)
    ensures Sources(a + b) == Sources(a) + Sources(b)
    ensures Reactions(a + b) == Reactions(a) + Reactions(b)
  {
    CollectAppend(a, b, TextOf);
    CollectAppend(a, b, FileOf);
    CollectAppend(a, b, DeliveredBy);
    CollectAppend(a, b, VoiceBy);
    CollectAppend(a, b, RpcOf);
    CollectAppend(a, b, VoiceRpcOf);
    CollectAppend(a, b, FileRpcOf);
    CollectAppend(a, b, SourceOf);
    CollectAppend(a, b, ReactionOf);
  }

  lemma One(e: Event)
    ensures Texts([e]) == TextOf(e) && Files([e]) == FileOf(e) && Delivered([e]) == DeliveredBy(e)
    ensures Rpcs([e]) == RpcOf(e) && VoiceRpcs([e]) == VoiceRpcOf(e) && FileRpcs([e]) == FileRpcOf(e)
    ensures VoiceNotes([e]) == VoiceBy(e) && Sources([e]) == SourceOf(e) && Reactions([e]) == ReactionOf(e)
  {
    OneOf(e, TextOf);
    OneOf(e, FileOf);
    OneOf(e, DeliveredBy);
    OneOf(e, VoiceBy);
    OneOf(e, RpcOf);
    OneOf(e, VoiceRpcOf);
    OneOf(e, FileRpcOf);
    OneOf(e, SourceOf);
    OneOf(e, ReactionOf);
  }

  lemma OneOf<T>(e: Event, f: Event -> seq<T>)
    ensures Collect([e], f) == f(e)
  {
    assert Collect([e], f) == f(e) + Collect([], f);
  }

  lemma Associate(a: Log, b: Log, c: Log)
    ensures a + b + c == a + (b + c)
  {
  }

  /** One more event at the end. */
  lemma Then(t: Log, e: Event)
    ensures Texts(t + [e]) == Texts(t) + TextOf(e)
    ensures Files(t + [e]) == Files(t) + FileOf(e)
    ensures Delivered(t + [e]) == Delivered(t) + DeliveredBy(e)
    ensures VoiceNotes(t + [e]) == VoiceNotes(t) + VoiceBy(e)
    ensures Rpcs(t + [e]) == Rpcs(t) + RpcOf(e)
    ensures VoiceRpcs(t + [e]) == VoiceRpcs(t) + VoiceRpcOf(e)
    ensures FileRpcs(t + [e]) == FileRpcs(t) + FileRpcOf(e)
    ensures Sources(t + [e]) == Sources(t) + SourceOf(e)
    ensures Reactions(t + [e]) == Reactions(t) + ReactionOf(e)
  {
    Append(t, [e]);
    One(e);
  }

  /** Whatever was sent or attempted went to one recipient. */
  predicate SentTo(recipient: string, t: Log) {
    && (forall e | e in Rpcs(t) :: e.Rpc? && e.recipient == recipient)
    && (forall s | s in Texts(t) :: s.recipient == recipient)
  }

  lemma SentToAppends(recipient: string, a: Log, b: Log)
    requires SentTo(recipient, a) && SentTo(recipient, b)
    ensures SentTo(recipient, a + b)
  {
    Append(a, b);
  }

  // ---------------------------------------------------------------- the stages of a delivery

  const FETCH_VOICE: nat := 0
  const DECODE_VOICE: nat := 1
  const SEND_VOICE: nat := 2
  const SEND_TEXT: nat := 3
  const FETCH_FILES: nat := 4
  const SEND_FILES: nat := 5
  const REACT: nat := 6

  /** The stage an event belongs to; what comes with an RPC has none of its own. */
  function Stage(e: Event): Option<nat> {
    match e
    case VoiceFetched(_, _) => Some(FETCH_VOICE)
    case VoiceDecoded(_, _) => Some(DECODE_VOICE)
    case Rpc(_, _, voice, _) => Some(if voice then SEND_VOICE else SEND_FILES)
    case TextEvent(_) => Some(SEND_TEXT)
    case FileEvent(_) => Some(FETCH_FILES)
    case Reacted(_) => Some(REACT)
    case _ => None
  }

  predicate During(e: Event, from: nat, to: nat) {
    Stage(e).Some? ==> from <= Stage(e).value <= to
  }

  predicate NotAfter(a: Event, b: Event) {
    Stage(a).Some? && Stage(b).Some? ==> Stage(a).value <= Stage(b).value
  }

  /** The events belong to the stages `from` up to `to`, one stage after the other. */
  predicate Staged(t: Log, from: nat, to: nat) {
    && (forall i | 0 <= i < |t| :: During(t[i], from, to))
    && (forall i, j | 0 <= i < j < |t| :: NotAfter(t[i], t[j]))
  }

  lemma StagesJoin(a: Log, b: Log, from: nat, mid: nat, to: nat)
    requires Staged(a, from, mid) && Staged(b, mid, to) && from <= mid <= to
    ensures Staged(a + b, from, to)
  {
    var t := a + b;
    forall i | 0 <= i < |t|
      ensures During(t[i], from, to)
    {
      assert if i < |a| then During(a[i], from, mid) else During(b[i - |a|], mid, to);
    }
    forall i, j | 0 <= i < j < |t|
      ensures NotAfter(t[i], t[j])
    {
      if j < |a| {
        assert NotAfter(a[i], a[j]);
      } else if i >= |a| {
        assert NotAfter(b[i - |a|], b[j - |a|]);
      } else {
        assert During(a[i], from, mid) && During(b[j - |a|], mid, to);
      }
    }
  }

  lemma StagesWiden(t: Log, from: nat, to: nat, earlier: nat, later: nat)
    requires Staged(t, from, to) && earlier <= from && to <= later
    ensures Staged(t, earlier, later)
  {
    forall i | 0 <= i < |t|
      ensures During(t[i], earlier, later)
    {
      assert During(t[i], from, to);
    }
  }

  lemma StageOfOne(e: Event, from: nat, to: nat)
    requires During(e, from, to)
    ensures Staged([e], from, to)
  {
  }

  // ---------------------------------------------------------------- pacing discipline

  /** Each RPC directly follows a reservation of its own size, and each reservation is directly spent. */
  predicate ReservedAt(t: Log, i: nat)
    requires i < |t|
  {
    && (t[i].Rpc? ==> i > 0 && t[i - 1] == Reserved(|t[i].paths|))
    && (t[i].Reserved? ==> i + 1 < |t| && t[i + 1].Rpc? && |t[i + 1].paths| == t[i].tokens)
  }

  /** Each acceptance is reported, and each 429 fed back, at once. */
  predicate AnsweredAt(t: Log, i: nat)
    requires i < |t|
  {
    && (t[i].Rpc? && t[i].outcome.Accepted? ==> i + 1 < |t| && t[i + 1] == Reported(|t[i].paths|))
    && (t[i].Rpc? && t[i].outcome.RateLimited? ==> i + 1 < |t| && t[i + 1] == FedBack(t[i].outcome.retryAfter))
  }

  predicate Disciplined(t: Log) {
    forall i: nat | i < |t| :: ReservedAt(t, i) && AnsweredAt(t, i)
  }

  lemma DisciplineAppends(a: Log, b: Log)
    requires Disciplined(a) && Disciplined(b)
    ensures Disciplined(a + b)
  {
    var t := a + b;
    forall i: nat | i < |t|
      ensures ReservedAt(t, i) && AnsweredAt(t, i)
    {
      if i < |a| {
        assert ReservedAt(a, i) && AnsweredAt(a, i);
      } else {
        assert ReservedAt(b, i - |a|) && AnsweredAt(b, i - |a|);
      }
    }
  }

  lemma SendsAppend(recipient: string, a: Log, b: Log)
    requires Disciplined(a) && Disciplined(b) && SentTo(recipient, a) && SentTo(recipient, b)
    ensures Disciplined(a + b) && SentTo(recipient, a + b)
  {
    DisciplineAppends(a, b);
    SentToAppends(recipient, a, b);
  }

  /** Events that the pacing discipline does not speak about. */
  predicate Unpaced(e: Event) {
    !e.Rpc? && !e.Reserved?
  }

  lemma UnpacedIsDisciplined(e: Event)
    requires Unpaced(e)
    ensures Disciplined([e])
  {
  }

  /** One more event that needs no pacing, addressed like the rest. */
  lemma OneMore(recipient: string, t: Log, e: Event)
    requires Unpaced(e) && (e.TextEvent? ==> e.send.recipient == recipient)
    requires Disciplined(t) && SentTo(recipient, t)
    ensures Disciplined(t + [e]) && SentTo(recipient, t + [e])
  {
    UnpacedIsDisciplined(e);
    One(e);
    SendsAppend(recipient, t, [e]);
  }

  /** Tokens reserved in a log. */
  function TokensReserved(t: Log): nat {
    if t == [] then 0 else (if t[0].Reserved? then t[0].tokens else 0) + TokensReserved(t[1..])
  }

  /** Attachments carried by the RPCs of a log, accepted or not. */
  function Carried(t: Log): nat {
    if t == [] then 0 else (if t[0].Rpc? then |t[0].paths| else 0) + Carried(t[1..])
  }

  /** Under the discipline, tokens are neither lost nor spent twice: as many are reserved as attachments carried. */
  lemma {:induction false} TokensMatchAttachments(t: Log)
    requires Disciplined(t)
    ensures TokensReserved(t) == Carried(t)
    decreases |t|
  {
    if t != [] {
      assert ReservedAt(t, 0);
      var skip := if t[0].Reserved? then 2 else 1;
      var rest := t[skip..];
      forall i: nat | i < |rest|
        ensures ReservedAt(rest, i) && AnsweredAt(rest, i)
      {
        assert ReservedAt(t, skip + i) && AnsweredAt(t, skip + i);
        assert skip == 2 ==> t[1].Rpc?;
      }
      TokensMatchAttachments(rest);
      if skip == 2 {
        assert t[1..][1..] == rest;
      }
    }
  }
}
