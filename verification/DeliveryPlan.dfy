/**
 * What a delivery promises, stated on its log: what counts as delivered, what has to be attempted, and how the two
 * are related.
 */
module DeliveryPlan {
  import opened Wrappers
  import opened SignalLog
  import opened SignalClient
  import Chunking

  datatype CallbackType = Status | Progress | Complete | ErrorReply

  /**
   * Absent text, chat and voice fields are empty strings; `attachments` lists the URLs to fetch; `numericKey` says
   * whether the message key can be read as the timestamp of the message that is answered.
   */
  datatype Payload = Payload(kind: CallbackType, userId: string, messageKey: string, numericKey: bool, text: string,
                             chatId: string, voiceUrl: string, voiceBase64: string, attachments: seq<string>)

  function Recipient(p: Payload): string {
    if p.chatId != "" then p.chatId else p.userId
  }

  predicate HasVoice(p: Payload) {
    p.voiceUrl != "" || p.voiceBase64 != ""
  }

  // ---------------------------------------------------------------- what counts as delivered

  /** Every chunk of the text was sent, in order and once, and no other chunk was. */
  predicate AllSent(recipient: string, chunks: seq<string>, texts: seq<TextSend>) {
    && |texts| == |chunks|
    && forall i | 0 <= i < |chunks| :: texts[i] == TextSend(recipient, chunks[i], Sent)
  }

  predicate TextDelivered(p: Payload, chunkSize: int, t: Log) {
    chunkSize > 0 && AllSent(Recipient(p), Chunking.Chunks(p.text, chunkSize), Texts(t))
  }

  /** A voice note alone; or every chunk of the text; or nothing at all, when there was nothing to say. */
  predicate ReplyDelivered(p: Payload, chunkSize: int, t: Log) {
    if VoiceNotes(t) != [] then HasVoice(p) && |VoiceNotes(t)| == 1 && Texts(t) == []
    else TextDelivered(p, chunkSize, t) && (HasVoice(p) ==> Texts(t) != [])
  }

  function StoredPaths(files: seq<FileFetch>): seq<string> {
    if files == [] then []
    else
      var last := files[|files| - 1];
      StoredPaths(files[..|files| - 1]) + if last.fetch.Stored? then [last.fetch.path] else []
  }

  /** What was downloaded keeps its order. */
  lemma {:induction false} StoredInOrder(files: seq<FileFetch>)
    requires forall i | 0 <= i < |files| :: files[i].fetch.Stored?
    ensures |StoredPaths(files)| == |files|
    ensures forall i | 0 <= i < |files| :: StoredPaths(files)[i] == files[i].fetch.path
  {
    if files != [] {
      StoredInOrder(files[..|files| - 1]);
    }
  }

  predicate FetchedAll(urls: seq<string>, files: seq<FileFetch>) {
    && |files| == |urls|
    && forall i | 0 <= i < |urls| :: files[i].url == urls[i] && files[i].fetch.Stored?
  }

  /** Every attachment was downloaded, in order, and the accepted batches carry exactly the downloaded files. */
  predicate AttachmentsDelivered(urls: seq<string>, t: Log) {
    FetchedAll(urls, Files(t)) && Delivered(t) == StoredPaths(Files(t))
  }

  predicate FullyDelivered(p: Payload, chunkSize: int, t: Log) {
    ReplyDelivered(p, chunkSize, t) && AttachmentsDelivered(p.attachments, t)
  }

  // ---------------------------------------------------------------- what has to be attempted

  /** A send raised; nothing is sent after that. */
  predicate SendBroke(texts: seq<TextSend>) {
    texts != [] && texts[|texts| - 1].outcome.SendRaised?
  }

  /** The chunks are attempted one after the other, refused or not, up to the first that raises. */
  predicate TextsTried(recipient: string, chunks: seq<string>, texts: seq<TextSend>) {
    && |texts| <= |chunks|
    && (forall i | 0 <= i < |texts| :: texts[i].recipient == recipient && texts[i].text == chunks[i])
    && (forall i | 0 <= i < |texts| - 1 :: !texts[i].outcome.SendRaised?)
    && (|texts| < |chunks| ==> SendBroke(texts))
  }

  predicate FetchBroke(files: seq<FileFetch>) {
    files != [] && files[|files| - 1].fetch.FetchRaised?
  }

  /** The attachments are downloaded one after the other, with or without success, up to the first that raises. */
  predicate FilesFetched(urls: seq<string>, files: seq<FileFetch>) {
    && |files| <= |urls|
    && (forall i | 0 <= i < |files| :: files[i].url == urls[i])
    && (forall i | 0 <= i < |files| - 1 :: !files[i].fetch.FetchRaised?)
    && (|files| < |urls| ==> FetchBroke(files))
  }

  predicate InlineSought(p: Payload, needed: bool, sources: seq<Event>) {
    if needed && p.voiceBase64 != "" then
      |sources| == 1 && sources[0].VoiceDecoded? && sources[0].audio == p.voiceBase64
    else sources == []
  }

  /** The voice URL is fetched first; the inline audio is decoded only where that yields nothing. */
  predicate VoiceSought(p: Payload, sources: seq<Event>) {
    if p.voiceUrl != "" then
      && sources != [] && sources[0].VoiceFetched? && sources[0].url == p.voiceUrl
      && InlineSought(p, sources[0].fetch.Unavailable?, sources[1..])
    else InlineSought(p, true, sources)
  }

  /** What the search for audio came to. */
  function Audio(sources: seq<Event>): Fetch {
    if sources == [] then Unavailable
    else
      var last := sources[|sources| - 1];
      if last.VoiceFetched? || last.VoiceDecoded? then last.fetch else Unavailable
  }

  predicate VoiceBroke(t: Log) {
    Audio(Sources(t)).FetchRaised?
  }

  /** Audio that was found goes into one voice note. */
  predicate VoiceTried(p: Payload, t: Log) {
    && VoiceSought(p, Sources(t))
    && if Audio(Sources(t)).Stored? then Tried(Recipient(p), [Audio(Sources(t)).path], true, VoiceRpcs(t))
       else VoiceRpcs(t) == []
  }

  /** The text is due unless a voice note was accepted or the search for audio raised. */
  predicate TextDue(t: Log) {
    VoiceNotes(t) == [] && !VoiceBroke(t)
  }

  predicate ReplyTried(p: Payload, chunkSize: int, t: Log) {
    && VoiceTried(p, t)
    && if TextDue(t) && chunkSize > 0 then TextsTried(Recipient(p), Chunking.Chunks(p.text, chunkSize), Texts(t))
       else Texts(t) == []
  }

  predicate ReplyBroke(chunkSize: int, t: Log) {
    VoiceBroke(t) || (TextDue(t) && (chunkSize <= 0 || SendBroke(Texts(t))))
  }

  /** Each URL is fetched in turn, and whatever was stored is sent batch by batch. */
  predicate FilesTried(recipient: string, urls: seq<string>, t: Log) {
    && FilesFetched(urls, Files(t))
    && if FetchBroke(Files(t)) then FileRpcs(t) == []
       else AllTried(recipient, Batches(StoredPaths(Files(t))), FileRpcs(t))
  }

  /** Voice, text and files, in this order, each as far as it has to be attempted. */
  predicate Conducted(p: Payload, chunkSize: int, t: Log) {
    && Staged(t, FETCH_VOICE, REACT)
    && ReplyTried(p, chunkSize, t)
    && if ReplyBroke(chunkSize, t) then Files(t) == [] && FileRpcs(t) == []
       else FilesTried(Recipient(p), p.attachments, t)
  }

  /** The delivery ended with an exception. */
  predicate Broke(chunkSize: int, t: Log) {
    ReplyBroke(chunkSize, t) || FetchBroke(Files(t))
  }

  // ---------------------------------------------------------------- reading a log

  lemma {:induction false} CollectMember<T>(t: Log, f: Event -> seq<T>, x: T)
    ensures x in Collect(t, f) <==> exists e :: e in t && x in f(e)
  {
    if t != [] {
      CollectMember(t[1..], f, x);
      assert t == [t[0]] + t[1..];
    }
  }

  /** Collecting from the events that matter is collecting from all of them. */
  lemma {:induction false} CollectTwice<T>(t: Log, g: Event -> seq<Event>, f: Event -> seq<T>)
    requires forall e :: g(e) == [e] || (g(e) == [] && f(e) == [])
    ensures Collect(Collect(t, g), f) == Collect(t, f)
  {
    if t != [] {
      CollectTwice(t[1..], g, f);
      CollectAppend(g(t[0]), Collect(t[1..], g), f);
      OneOf(t[0], f);
    }
  }

  /** What is accepted as a voice note, or as a batch of files, can be read off the RPCs alone. */
  lemma AcceptedRpcs(t: Log)
    ensures VoiceNotes(VoiceRpcs(t)) == VoiceNotes(t) && Delivered(FileRpcs(t)) == Delivered(t)
  {
    CollectTwice(t, VoiceRpcOf, VoiceBy);
    CollectTwice(t, FileRpcOf, DeliveredBy);
  }

  lemma DeliveredGroup(recipient: string, batch: seq<string>, group: seq<Event>)
    requires Tried(recipient, batch, false, group)
    ensures Delivered(group) == if Accepts(group[|group| - 1]) then batch else []
  {
    var last := group[|group| - 1];
    assert last in group;
    if |group| == 1 {
      assert group == [last];
      One(last);
    } else {
      assert group[0] in group && group == [group[0]] + [last];
      Then([group[0]], last);
      One(group[0]);
    }
  }

  /** The files delivered are those of the accepted batches, in order. */
  lemma {:induction false} DeliveredBatches(recipient: string, batches: seq<seq<string>>, rpcs: seq<Event>)
    requires AllTried(recipient, batches, rpcs)
    ensures Delivered(rpcs) == Concat(AcceptedBatches(batches, rpcs))
    decreases |batches|
  {
    if batches != [] {
      var group, rest := rpcs[..FirstTries(rpcs)], rpcs[FirstTries(rpcs)..];
      assert rpcs == group + rest;
      DeliveredGroup(recipient, batches[0], group);
      DeliveredBatches(recipient, batches[1..], rest);
      Append(group, rest);
      var accepted := AcceptedBatches(batches[1..], rest);
      if Accepts(group[|group| - 1]) {
        ConcatCons(batches[0], accepted);
      } else {
        assert AcceptedBatches(batches, rpcs) == [] + accepted == accepted;
      }
    }
  }

  // ---------------------------------------------------------------- exceptions

  /** A leaf that raised. */
  predicate Raises(e: Event) {
    match e
    case TextEvent(send) => send.outcome.SendRaised?
    case VoiceFetched(_, fetch) => fetch.FetchRaised?
    case VoiceDecoded(_, fetch) => fetch.FetchRaised?
    case FileEvent(file) => file.fetch.FetchRaised?
    case _ => false
  }

  predicate SomethingRaised(t: Log) {
    exists e | e in t :: Raises(e)
  }

  predicate RaisedIn(t: Log) {
    || (exists send | send in Texts(t) :: send.outcome.SendRaised?)
    || (exists file | file in Files(t) :: file.fetch.FetchRaised?)
    || (exists e | e in Sources(t) :: Raises(e))
  }

  lemma RaisedInIff(t: Log)
    ensures SomethingRaised(t) <==> RaisedIn(t)
  {
    if e :| e in t && Raises(e) {
      RaisedMember(t, e);
    }
    if RaisedIn(t) {
      RaisedSource(t);
    }
  }

  lemma RaisedMember(t: Log, e: Event)
    requires e in t && Raises(e)
    ensures RaisedIn(t)
  {
    match e {
      case TextEvent(send) => CollectMember(t, TextOf, send);
      case FileEvent(file) => CollectMember(t, FileOf, file);
      case _ => CollectMember(t, SourceOf, e);
    }
  }

  lemma RaisedSource(t: Log)
    requires RaisedIn(t)
    ensures SomethingRaised(t)
  {
    if send :| send in Texts(t) && send.outcome.SendRaised? {
      CollectMember(t, TextOf, send);
      assert TextEvent(send) in t;
    } else if file :| file in Files(t) && file.fetch.FetchRaised? {
      CollectMember(t, FileOf, file);
      assert FileEvent(file) in t;
    } else {
      var e :| e in Sources(t) && Raises(e);
      CollectMember(t, SourceOf, e);
    }
  }

  lemma SendBrokeIff(recipient: string, chunks: seq<string>, texts: seq<TextSend>)
    requires TextsTried(recipient, chunks, texts)
    ensures SendBroke(texts) <==> exists send | send in texts :: send.outcome.SendRaised?
  {
    if SendBroke(texts) {
      assert texts[|texts| - 1] in texts;
    }
  }

  lemma FetchBrokeIff(urls: seq<string>, files: seq<FileFetch>)
    requires FilesFetched(urls, files)
    ensures FetchBroke(files) <==> exists file | file in files :: file.fetch.FetchRaised?
  {
    if FetchBroke(files) {
      assert files[|files| - 1] in files;
    }
  }

  lemma VoiceBrokeIff(p: Payload, sources: seq<Event>)
    requires VoiceSought(p, sources)
    ensures Audio(sources).FetchRaised? <==> exists e | e in sources :: Raises(e)
  {
    if sources != [] {
      assert sources[|sources| - 1] in sources;
    }
  }

  /** A delivery ends with an exception if and only if some leaf raised, or the text was due with a bad chunk size. */
  lemma BrokeIff(p: Payload, chunkSize: int, t: Log)
    requires Conducted(p, chunkSize, t)
    ensures Broke(chunkSize, t) <==> SomethingRaised(t) || (TextDue(t) && chunkSize <= 0)
  {
    RaisedInIff(t);
    VoiceBrokeIff(p, Sources(t));
    if TextDue(t) && chunkSize > 0 {
      SendBrokeIff(Recipient(p), Chunking.Chunks(p.text, chunkSize), Texts(t));
    }
    if !ReplyBroke(chunkSize, t) {
      FetchBrokeIff(p.attachments, Files(t));
    }
  }

  // ---------------------------------------------------------------- what is attempted in any case

  /** The chunks were attempted one after the other, whatever became of each. */
  predicate Attempted(recipient: string, chunks: seq<string>, texts: seq<TextSend>) {
    && |texts| == |chunks|
    && forall i | 0 <= i < |chunks| :: texts[i].recipient == recipient && texts[i].text == chunks[i]
  }

  /** No refused chunk, failed download or undeliverable batch keeps the rest from being attempted. */
  lemma FailuresStopNothing(p: Payload, chunkSize: int, t: Log)
    requires Conducted(p, chunkSize, t) && !Broke(chunkSize, t)
    ensures VoiceNotes(t) == [] ==> Attempted(Recipient(p), Chunking.Chunks(p.text, chunkSize), Texts(t))
    ensures |Files(t)| == |p.attachments| && forall i | 0 <= i < |Files(t)| :: Files(t)[i].url == p.attachments[i]
    ensures AllTried(Recipient(p), Batches(StoredPaths(Files(t))), FileRpcs(t))
  {
  }

  lemma {:induction false} InSomeBatch(batches: seq<seq<string>>, path: string) returns (i: nat)
    requires path in Concat(batches)
    ensures i < |batches| && path in batches[i]
  {
    var n := |batches| - 1;
    if path in batches[n] {
      i := n;
    } else {
      i := InSomeBatch(batches[..n], path);
    }
  }

  /** Every file that was downloaded is in some RPC. */
  lemma EveryFileIsSent(p: Payload, chunkSize: int, t: Log, path: string)
    requires Conducted(p, chunkSize, t) && !Broke(chunkSize, t) && path in StoredPaths(Files(t))
    ensures exists e :: e in t && e.Rpc? && !e.voice && path in e.paths
  {
    var batches := Batches(StoredPaths(Files(t)));
    BatchesPartition(StoredPaths(Files(t)));
    var i := InSomeBatch(batches, path);
    EachIsTried(Recipient(p), batches, FileRpcs(t), i);
    var e :| e in FileRpcs(t) && RpcFor(Recipient(p), batches[i], false, e);
    CollectMember(t, FileRpcOf, e);
  }

  /** The stages of a staged log come in order. */
  lemma StagesInOrder(t: Log, i: nat, j: nat)
    requires Staged(t, FETCH_VOICE, REACT) && i < |t| && j < |t|
    requires Stage(t[i]).Some? && Stage(t[j]).Some? && Stage(t[i]).value < Stage(t[j]).value
    ensures i < j
  {
    assert j < i ==> NotAfter(t[j], t[i]);
  }

  /** Texts are the fallback: there are none beside a voice note. */
  lemma TextsAreTheFallback(p: Payload, chunkSize: int, t: Log)
    requires Conducted(p, chunkSize, t) && Texts(t) != []
    ensures VoiceNotes(t) == []
  {
  }

  predicate AboutVoice(e: Event) {
    e.VoiceFetched? || e.VoiceDecoded? || (e.Rpc? && e.voice)
  }

  predicate AboutFiles(e: Event) {
    e.FileEvent? || (e.Rpc? && !e.voice)
  }

  /** Everything about the voice note comes before any text, and everything about the files after it. */
  lemma VoiceThenTextThenFiles(t: Log, i: nat, j: nat)
    requires Staged(t, FETCH_VOICE, REACT) && i < |t| && j < |t| && t[i].TextEvent?
    ensures AboutVoice(t[j]) ==> j < i
    ensures AboutFiles(t[j]) ==> i < j
  {
    if AboutVoice(t[j]) {
      StagesInOrder(t, j, i);
    } else if AboutFiles(t[j]) {
      StagesInOrder(t, i, j);
    }
  }

  // ---------------------------------------------------------------- when nothing fails

  /** A leaf that did not do what it was asked for. */
  predicate Fails(e: Event) {
    match e
    case TextEvent(send) => !send.outcome.Sent?
    case VoiceFetched(_, fetch) => !fetch.Stored?
    case VoiceDecoded(_, fetch) => !fetch.Stored?
    case FileEvent(file) => !file.fetch.Stored?
    case Rpc(_, _, _, outcome) => !outcome.Accepted?
    case _ => false
  }

  predicate NothingFails(t: Log) {
    forall e | e in t :: !Fails(e)
  }

  lemma NothingFailsIn(t: Log)
    requires NothingFails(t)
    ensures forall send | send in Texts(t) :: send.outcome.Sent?
    ensures forall file | file in Files(t) :: file.fetch.Stored?
    ensures forall e | e in Sources(t) :: !Fails(e)
    ensures forall e | e in VoiceRpcs(t) :: Accepts(e)
    ensures forall e | e in FileRpcs(t) :: Accepts(e)
  {
    forall send | send in Texts(t)
      ensures send.outcome.Sent?
    {
      CollectMember(t, TextOf, send);
      assert !Fails(TextEvent(send));
    }
    forall file | file in Files(t)
      ensures file.fetch.Stored?
    {
      CollectMember(t, FileOf, file);
      assert !Fails(FileEvent(file));
    }
    forall e
      ensures e in Sources(t) ==> !Fails(e)
      ensures e in VoiceRpcs(t) || e in FileRpcs(t) ==> Accepts(e)
    {
      CollectMember(t, SourceOf, e);
      CollectMember(t, VoiceRpcOf, e);
      CollectMember(t, FileRpcOf, e);
    }
  }

  /** Audio is always found if there is any and nothing fails, and then it is accepted. */
  lemma VoiceSucceeds(p: Payload, t: Log)
    requires VoiceTried(p, t) && NothingFails(t)
    ensures !VoiceBroke(t)
    ensures if HasVoice(p) then |VoiceNotes(t)| == 1 else VoiceNotes(t) == []
  {
    NothingFailsIn(t);
    AcceptedRpcs(t);
    if HasVoice(p) {
      assert Sources(t)[|Sources(t)| - 1] in Sources(t);
      var rpc := VoiceRpcs(t)[0];
      assert rpc in VoiceRpcs(t);
      assert VoiceRpcs(t) == [rpc];
      One(rpc);
    }
  }

  lemma {:induction false} AllBatchesAccepted(recipient: string, batches: seq<seq<string>>, rpcs: seq<Event>)
    requires AllTried(recipient, batches, rpcs) && forall e | e in rpcs :: Accepts(e)
    ensures AcceptedBatches(batches, rpcs) == batches
    decreases |batches|
  {
    if batches != [] {
      var n := FirstTries(rpcs);
      assert rpcs[n - 1] in rpcs;
      AllBatchesAccepted(recipient, batches[1..], rpcs[n..]);
      assert batches == [batches[0]] + batches[1..];
    }
  }

  lemma FilesSucceed(recipient: string, urls: seq<string>, t: Log)
    requires FilesTried(recipient, urls, t) && NothingFails(t)
    ensures AttachmentsDelivered(urls, t) && !FetchBroke(Files(t))
  {
    NothingFailsIn(t);
    AcceptedRpcs(t);
    var paths := StoredPaths(Files(t));
    assert !FetchBroke(Files(t)) by {
      FetchBrokeIff(urls, Files(t));
    }
    AllBatchesAccepted(recipient, Batches(paths), FileRpcs(t));
    DeliveredBatches(recipient, Batches(paths), FileRpcs(t));
    BatchesPartition(paths);
  }

  lemma TextSucceeds(recipient: string, chunks: seq<string>, texts: seq<TextSend>)
    requires TextsTried(recipient, chunks, texts) && forall send | send in texts :: send.outcome.Sent?
    ensures AllSent(recipient, chunks, texts) && !SendBroke(texts)
  {
    SendBrokeIff(recipient, chunks, texts);
  }

  /** If everything that a delivery attempts succeeds, then everything is delivered. */
  lemma NothingFailedDelivers(p: Payload, chunkSize: int, t: Log)
    requires Conducted(p, chunkSize, t) && NothingFails(t) && (chunkSize > 0 || HasVoice(p))
    ensures FullyDelivered(p, chunkSize, t) && !Broke(chunkSize, t)
  {
    NothingFailsIn(t);
    VoiceSucceeds(p, t);
    if !HasVoice(p) {
      TextSucceeds(Recipient(p), Chunking.Chunks(p.text, chunkSize), Texts(t));
    }
    FilesSucceed(Recipient(p), p.attachments, t);
  }
}
