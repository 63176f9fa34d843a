/** Delivering one worker callback: voice first, text as the fallback, files either way. */
module Delivery {
  import opened Wrappers
  import opened SignalLog
  import opened SignalClient
  import opened DeliveryPlan
  import Chunking
  import RateLimit

  const DEFAULT_FALLBACK_MESSAGE :=
    "Sorry — something went wrong while processing your message. Please try again."
  const COMPLETE_REACTION := "✅"
  const ERROR_REACTION := "❌"

  // ---------------------------------------------------------------- files

  predicate FilesOnly(recipient: string, t: Log) {
    && Texts(t) == [] && VoiceNotes(t) == [] && VoiceRpcs(t) == [] && Sources(t) == [] && Reactions(t) == []
    && Disciplined(t) && SentTo(recipient, t) && Staged(t, FETCH_FILES, SEND_FILES)
  }

  /** The pacing notice, when the estimated wait is long. */
  method NotifyPacing(client: Client) returns (ghost t: Log)
    modifies client
    ensures client.log == old(client.log) + t
    ensures Quiet(t) && Disciplined(t)
  {
    t := [];
    var wait := client.EstimateWait();
    if wait >= BATCH_PACING_NOTICE_THRESHOLD {
      client.Note(Noticed);
      t := [Noticed];
      One(Noticed);
      UnpacedIsDisciplined(Noticed);
    }
  }

  lemma FitsBucket(batch: seq<string>)
    requires |batch| <= RateLimit.MAX_ATTACHMENTS_PER_MSG
    ensures |batch| as real <= RateLimit.BUCKET_CAPACITY
  {
  }

  /** One batch was dealt with: sent once or twice, and delivered whole or not at all. */
  predicate OneBatch(recipient: string, batch: seq<string>, t: Log, ok: bool) {
    && FilesOnly(recipient, t) && Files(t) == [] && Delivered(t) == (if ok then batch else [])
    && |Rpcs(t)| <= RATE_LIMIT_MAX_ATTEMPTS
    && Tried(recipient, batch, false, FileRpcs(t)) && Accepts(FileRpcs(t)[|FileRpcs(t)| - 1]) == ok
  }

  /** One turn of the batch loop: perhaps a pacing notice, then the batch. */
  method SendOneBatch(client: Client, recipient: string, batch: seq<string>) returns (ok: bool, ghost t: Log)
    requires 1 <= |batch| <= RateLimit.MAX_ATTACHMENTS_PER_MSG
    modifies client
    ensures client.log == old(client.log) + t
    ensures OneBatch(recipient, batch, t, ok)
  {
    FitsBucket(batch);
    var notice := NotifyPacing(client);
    var sent, t1 := client.SendAttachmentBatch(recipient, batch, false);
    Associate(old(client.log), notice, t1);
    BatchNoticed(recipient, notice, batch, t1, sent.value);
    return sent.value, notice + t1;
  }

  /**
   * Sends the files in batches; cannot raise, because no batch exceeds the bucket.  Every batch is tried, whatever
   * became of those before it; exactly the accepted ones are delivered, and True means that these carry all the files.
   */
  method SendAttachments(client: Client, recipient: string, paths: seq<string>) returns (ok: bool, ghost t: Log)
    modifies client
    ensures client.log == old(client.log) + t
    ensures FilesOnly(recipient, t) && Files(t) == []
    ensures ok <==> Delivered(t) == paths
    ensures |Rpcs(t)| <= RATE_LIMIT_MAX_ATTEMPTS * |Batches(paths)|
    ensures AllTried(recipient, Batches(paths), FileRpcs(t))
    ensures Delivered(t) == Concat(AcceptedBatches(Batches(paths), FileRpcs(t)))
  {
    t := [];
    ok := true;
    if paths == [] {
      return;
    }
    var batches := CutBatches(paths);
    BatchesPartition(paths);
    for i := 0 to |batches|
      invariant client.log == old(client.log) + t
      invariant BatchesSent(recipient, batches[..i], t, ok)
    {
      ConcatNext(batches, i);
      var sent, t1 := SendOneBatch(client, recipient, batches[i]);
      Associate(old(client.log), t, t1);
      BatchesNext(recipient, batches, i, t, ok, t1, sent);
      t := t + t1;
      if !sent {
        ok := false;
      }
    }
    assert batches[..|batches|] == batches;
    AcceptedRpcs(t);
    DeliveredBatches(recipient, batches, FileRpcs(t));
  }

  /** Each of these batches was tried, and `ok` says whether all of them went out. */
  predicate BatchesSent(recipient: string, batches: seq<seq<string>>, t: Log, ok: bool) {
    && FilesOnly(recipient, t) && Files(t) == []
    && |Rpcs(t)| <= RATE_LIMIT_MAX_ATTEMPTS * |batches|
    && Progressed(ok, Delivered(t), Concat(batches))
    && AllTried(recipient, batches, FileRpcs(t))
  }

  lemma BatchesNext(recipient: string, batches: seq<seq<string>>, i: nat, t: Log, ok: bool, t1: Log, sent: bool)
    requires i < |batches| && FullButLast(batches)
    requires BatchesSent(recipient, batches[..i], t, ok) && OneBatch(recipient, batches[i], t1, sent)
    ensures BatchesSent(recipient, batches[..i + 1], t + t1, ok && sent)
  {
    ConcatNext(batches, i);
    BatchAdded(recipient, t, t1);
    ProgressedNext(ok, Delivered(t), Concat(batches[..i]), sent, batches[i]);
    AllTriedNext(recipient, batches, i, FileRpcs(t), FileRpcs(t1));
  }

  lemma AllTriedNext(recipient: string, batches: seq<seq<string>>, i: nat, rpcs: seq<Event>, group: seq<Event>)
    requires i < |batches| && AllTried(recipient, batches[..i], rpcs) && Tried(recipient, batches[i], false, group)
    ensures AllTried(recipient, batches[..i + 1], rpcs + group)
  {
    AllTriedSnoc(recipient, batches[..i], rpcs, batches[i], group);
    assert batches[..i + 1] == batches[..i] + [batches[i]];
  }

  /** So far everything was delivered, or strictly less than everything. */
  predicate Progressed(ok: bool, delivered: seq<string>, all: seq<string>) {
    if ok then delivered == all else |delivered| < |all|
  }

  lemma ProgressedNext(ok: bool, delivered: seq<string>, all: seq<string>, sent: bool, batch: seq<string>)
    requires Progressed(ok, delivered, all) && batch != []
    ensures Progressed(ok && sent, delivered + if sent then batch else [], all + batch)
  {
  }

  lemma ConcatNext(batches: seq<seq<string>>, i: nat)
    requires i < |batches| && FullButLast(batches)
    ensures Concat(batches[..i + 1]) == Concat(batches[..i]) + batches[i]
    ensures 1 <= |batches[i]| <= RateLimit.MAX_ATTACHMENTS_PER_MSG
  {
    assert batches[..i + 1][..i] == batches[..i];
  }

  lemma NoticeFirst(recipient: string, notice: Log, batch: seq<string>, t1: Log, ok: bool)
    requires batch != [] && Quiet(notice) && Disciplined(notice)
    requires BatchSent(recipient, batch, false, t1, ok)
    ensures FilesOnly(recipient, notice + t1) && Files(notice + t1) == []
    ensures Delivered(notice + t1) == if ok then batch else []
    ensures FileRpcs(notice + t1) == Rpcs(notice + t1) == Rpcs(t1)
  {
    Append(notice, t1);
    QuietIsStageless(notice);
    StagelessAnytime(notice, FETCH_FILES, SEND_FILES);
    StagesJoin(notice, t1, FETCH_FILES, SEND_FILES, SEND_FILES);
    SendsAppend(recipient, notice, t1);
  }

  lemma BatchNoticed(recipient: string, notice: Log, batch: seq<string>, t1: Log, ok: bool)
    requires batch != [] && Quiet(notice) && Disciplined(notice)
    requires BatchDone(recipient, batch, false, t1, ok)
    ensures OneBatch(recipient, batch, notice + t1, ok)
  {
    NoticeFirst(recipient, notice, batch, t1, ok);
  }

  lemma BatchAdded(recipient: string, t: Log, t1: Log)
    requires FilesOnly(recipient, t) && FilesOnly(recipient, t1) && Files(t1) == []
    ensures FilesOnly(recipient, t + t1)
    ensures FileRpcs(t + t1) == FileRpcs(t) + FileRpcs(t1)
    ensures Files(t + t1) == Files(t) + Files(t1)
    ensures Delivered(t + t1) == Delivered(t) + Delivered(t1)
    ensures |Rpcs(t + t1)| == |Rpcs(t)| + |Rpcs(t1)|
  {
    Append(t, t1);
    SendsAppend(recipient, t, t1);
    NoFetchIsSending(t1);
    StagesJoin(t, t1, FETCH_FILES, SEND_FILES, SEND_FILES);
  }

  /** Without downloads, all that is left of the file stages is sending. */
  lemma NoFetchIsSending(t: Log)
    requires Staged(t, FETCH_FILES, SEND_FILES) && Files(t) == []
    ensures Staged(t, SEND_FILES, SEND_FILES)
  {
    forall i | 0 <= i < |t|
      ensures During(t[i], SEND_FILES, SEND_FILES)
    {
      assert During(t[i], FETCH_FILES, SEND_FILES) && t[i] in t;
      if t[i].FileEvent? {
        CollectMember(t, FileOf, t[i].file);
      }
    }
  }

  /** A download that raises aborts the delivery; one that merely fails is skipped and remembered. */
  method DeliverAttachments(client: Client, recipient: string, urls: seq<string>)
    returns (r: Result<bool, Error>, ghost t: Log)
    modifies client
    ensures client.log == old(client.log) + t
    ensures FilesOnly(recipient, t)
    ensures r == Success(true) <==> AttachmentsDelivered(urls, t)
    ensures FilesTried(recipient, urls, t) && (r.Failure? <==> FetchBroke(Files(t)))
  {
    t := [];
    var paths: seq<string> := [];
    var downloadOk := true;
    for i := 0 to |urls|
      invariant client.log == old(client.log) + t
      invariant Fetching(recipient, urls[..i], t, paths, downloadOk)
    {
      var fetch := client.FetchFile(urls[i]);
      ghost var e := FileEvent(FileFetch(urls[i], fetch));
      Associate(old(client.log), t, [e]);
      FetchingNext(recipient, urls, i, t, paths, downloadOk, fetch);
      t := t + [e];
      match fetch {
        case FetchRaised =>
          return Failure(LeafRaised), t;
        case Unavailable =>
          downloadOk := false;
        case Stored(path) =>
          paths := paths + [path];
      }
    }
    assert urls[..|urls|] == urls;
    var sendOk := true;
    if paths != [] {
      ghost var t1;
      sendOk, t1 := SendAttachments(client, recipient, paths);
      Associate(old(client.log), t, t1);
      FetchedThenSent(recipient, t, t1);
      t := t + t1;
    }
    return Success(downloadOk && sendOk), t;
  }

  /** Nothing but downloads so far. */
  predicate Downloads(recipient: string, t: Log) {
    FilesOnly(recipient, t) && Delivered(t) == [] && FileRpcs(t) == [] && Staged(t, FETCH_FILES, FETCH_FILES)
  }

  /** One download for each URL, none of which raised; `paths` is what was stored, and `ok` that all were. */
  predicate Fetching(recipient: string, urls: seq<string>, t: Log, paths: seq<string>, ok: bool) {
    && Downloads(recipient, t) && FilesFetched(urls, Files(t)) && !FetchBroke(Files(t))
    && StoredPaths(Files(t)) == paths && (ok <==> FetchedAll(urls, Files(t)))
  }

  lemma FetchedThenSent(recipient: string, t: Log, t1: Log)
    requires FilesOnly(recipient, t) && FilesOnly(recipient, t1) && Delivered(t) == [] && FileRpcs(t) == []
    requires Files(t1) == []
    ensures FilesOnly(recipient, t + t1)
    ensures Files(t + t1) == Files(t) && Delivered(t + t1) == Delivered(t1) && FileRpcs(t + t1) == FileRpcs(t1)
  {
    BatchAdded(recipient, t, t1);
  }

  lemma StoredNext(files: seq<FileFetch>, f: FileFetch)
    ensures StoredPaths(files + [f]) == StoredPaths(files) + if f.fetch.Stored? then [f.fetch.path] else []
  {
    assert (files + [f])[..|files|] == files;
  }

  lemma AllFetchedNext(urls: seq<string>, i: nat, files: seq<FileFetch>, f: FileFetch)
    requires i < |urls| && |files| == i && f.url == urls[i]
    ensures FetchedAll(urls[..i + 1], files + [f]) <==> FetchedAll(urls[..i], files) && f.fetch.Stored?
  {
    var more := files + [f];
    assert more[i] == f;
    assert forall k | 0 <= k < i :: more[k] == files[k] && urls[..i + 1][k] == urls[..i][k];
  }

  lemma FetchedNext(urls: seq<string>, i: nat, files: seq<FileFetch>, f: FileFetch)
    requires i < |urls| && FilesFetched(urls[..i], files) && !FetchBroke(files) && f.url == urls[i]
    ensures FetchBroke(files + [f]) == f.fetch.FetchRaised?
    ensures FilesFetched(if f.fetch.FetchRaised? then urls else urls[..i + 1], files + [f])
  {
    var more := files + [f];
    assert more[i] == f;
    assert forall k | 0 <= k < i :: more[k] == files[k] && urls[..i + 1][k] == urls[..i][k];
    assert files != [] ==> !files[|files| - 1].fetch.FetchRaised?;
  }

  lemma NotFetched(urls: seq<string>, i: nat, files: seq<FileFetch>)
    requires i < |urls| && |files| == i + 1 && !files[i].fetch.Stored?
    ensures !FetchedAll(urls, files)
  {
  }

  lemma FileAdded(recipient: string, t: Log, e: Event)
    requires Downloads(recipient, t) && e.FileEvent?
    ensures Downloads(recipient, t + [e]) && Files(t + [e]) == Files(t) + [e.file]
  {
    Then(t, e);
    OneMore(recipient, t, e);
    StageOfOne(e, FETCH_FILES, FETCH_FILES);
    StagesJoin(t, [e], FETCH_FILES, FETCH_FILES, FETCH_FILES);
    StagesWiden(t + [e], FETCH_FILES, FETCH_FILES, FETCH_FILES, SEND_FILES);
  }

  /** One more download: the loop goes on, unless it raised. */
  lemma FetchingNext(recipient: string, urls: seq<string>, i: nat, t: Log, paths: seq<string>, ok: bool, fetch: Fetch)
    requires i < |urls| && Fetching(recipient, urls[..i], t, paths, ok)
    ensures var more := t + [FileEvent(FileFetch(urls[i], fetch))];
            match fetch
            case FetchRaised =>
              && Downloads(recipient, more) && FilesFetched(urls, Files(more)) && FetchBroke(Files(more))
              && !FetchedAll(urls, Files(more))
            case Unavailable => Fetching(recipient, urls[..i + 1], more, paths, false)
            case Stored(path) => Fetching(recipient, urls[..i + 1], more, paths + [path], ok)
  {
    var file := FileFetch(urls[i], fetch);
    FileAdded(recipient, t, FileEvent(file));
    FetchedNext(urls, i, Files(t), file);
    StoredNext(Files(t), file);
    AllFetchedNext(urls, i, Files(t), file);
    if fetch.FetchRaised? {
      NotFetched(urls, i, Files(t) + [file]);
    }
  }

  // ---------------------------------------------------------------- text

  predicate TextsOnly(recipient: string, t: Log) {
    && Files(t) == [] && Delivered(t) == [] && VoiceNotes(t) == [] && Rpcs(t) == [] && Reactions(t) == []
    && VoiceRpcs(t) == [] && FileRpcs(t) == [] && Sources(t) == []
    && Disciplined(t) && SentTo(recipient, t) && Staged(t, SEND_TEXT, SEND_TEXT)
  }

  function CountSent(texts: seq<TextSend>): nat {
    if texts == [] then 0
    else CountSent(texts[..|texts| - 1]) + if texts[|texts| - 1].outcome.Sent? then 1 else 0
  }

  lemma {:induction false} AllCounted(recipient: string, chunks: seq<string>, texts: seq<TextSend>)
    requires Attempted(recipient, chunks, texts)
    ensures CountSent(texts) <= |texts|
    ensures CountSent(texts) == |texts| <==> AllSent(recipient, chunks, texts)
  {
    if texts != [] {
      var n := |texts| - 1;
      AllCounted(recipient, chunks[..n], texts[..n]);
      assert forall i | 0 <= i < n :: texts[..n][i] == texts[i] && chunks[..n][i] == chunks[i];
    }
  }

  lemma TextAdded(recipient: string, t: Log, send: TextSend)
    requires TextsOnly(recipient, t) && send.recipient == recipient
    ensures TextsOnly(recipient, t + [TextEvent(send)]) && Texts(t + [TextEvent(send)]) == Texts(t) + [send]
  {
    var e := TextEvent(send);
    Then(t, e);
    OneMore(recipient, t, e);
    StageOfOne(e, SEND_TEXT, SEND_TEXT);
    StagesJoin(t, [e], SEND_TEXT, SEND_TEXT, SEND_TEXT);
  }

  /** One more attempt: the text goes on behind it, unless it raises. */
  lemma TriedNext(recipient: string, chunks: seq<string>, i: nat, texts: seq<TextSend>, send: TextSend)
    requires i < |chunks| && TextsTried(recipient, chunks[..i], texts) && !SendBroke(texts)
    requires send.recipient == recipient && send.text == chunks[i]
    ensures SendBroke(texts + [send]) == send.outcome.SendRaised?
    ensures TextsTried(recipient, if send.outcome.SendRaised? then chunks else chunks[..i + 1], texts + [send])
    ensures CountSent(texts + [send]) == CountSent(texts) + if send.outcome.Sent? then 1 else 0
  {
    var more := texts + [send];
    assert more[..i] == texts && more[i] == send;
    assert forall k | 0 <= k < i :: more[k] == texts[k] && chunks[..i + 1][k] == chunks[..i][k];
    assert texts != [] ==> !texts[|texts| - 1].outcome.SendRaised?;
  }

  /** One attempt for each chunk, none of which raised; `sent` counts those that were sent. */
  predicate Sending(recipient: string, chunks: seq<string>, t: Log, sent: nat) {
    && TextsOnly(recipient, t) && TextsTried(recipient, chunks, Texts(t)) && !SendBroke(Texts(t))
    && sent == CountSent(Texts(t))
  }

  /** One more chunk: the loop goes on, unless its send raised. */
  lemma SendingNext(recipient: string, chunks: seq<string>, i: nat, t: Log, sent: nat, outcome: SendOutcome)
    requires i < |chunks| && Sending(recipient, chunks[..i], t, sent)
    ensures var more := t + [TextEvent(TextSend(recipient, chunks[i], outcome))];
            if outcome.SendRaised? then
              TextsOnly(recipient, more) && TextsTried(recipient, chunks, Texts(more)) && SendBroke(Texts(more))
            else
              Sending(recipient, chunks[..i + 1], more, sent + if outcome.Sent? then 1 else 0)
  {
    var send := TextSend(recipient, chunks[i], outcome);
    TextAdded(recipient, t, send);
    TriedNext(recipient, chunks, i, Texts(t), send);
  }

  /** What a text comes to, attempted as it has to be: it went out exactly when nothing raised and all were counted. */
  lemma TriedComesTo(recipient: string, chunks: seq<string>, texts: seq<TextSend>)
    requires TextsTried(recipient, chunks, texts)
    ensures SendBroke(texts) ==> !AllSent(recipient, chunks, texts)
    ensures !SendBroke(texts) ==> Attempted(recipient, chunks, texts)
    ensures !SendBroke(texts) ==> (CountSent(texts) == |chunks| <==> AllSent(recipient, chunks, texts))
  {
    if !SendBroke(texts) {
      AllCounted(recipient, chunks, texts);
    }
  }

  /**
   * What attempting a text comes to: the chunks are attempted in order, and the attempt raises exactly when one of them
   * does.  Otherwise as many are counted as were sent, so that the two numbers agree exactly when the whole text went
   * out.  A limit below one raises before anything is sent.
   */
  predicate TextAttempted(recipient: string, text: string, chunkSize: int, r: Result<(nat, nat), Error>, t: Log) {
    if chunkSize <= 0 then r == Failure(BadChunkSize) && Texts(t) == []
    else
      var chunks, texts := Chunking.Chunks(text, chunkSize), Texts(t);
      && TextsTried(recipient, chunks, texts)
      && (r.Failure? <==> SendBroke(texts))
      && (r.Failure? ==> !AllSent(recipient, chunks, texts))
      && (r.Success? ==>
            && r.value == (CountSent(texts), |chunks|) && |texts| == |chunks|
            && (r.value.0 == r.value.1 <==> AllSent(recipient, chunks, texts)))
  }

  /** The loop over the chunks: one that is refused does not stop the rest, one that raises does. */
  method SendChunks(client: Client, chunks: seq<string>, recipient: string)
    returns (r: Result<nat, Error>, ghost t: Log)
    modifies client
    ensures client.log == old(client.log) + t
    ensures TextsOnly(recipient, t)
    ensures TextsTried(recipient, chunks, Texts(t)) && (r.Failure? <==> SendBroke(Texts(t)))
    ensures r.Success? ==> r.value == CountSent(Texts(t))
  {
    t := [];
    var sent := 0;
    for i := 0 to |chunks|
      invariant client.log == old(client.log) + t
      invariant Sending(recipient, chunks[..i], t, sent)
    {
      var outcome := client.SendText(recipient, chunks[i]);
      ghost var send := TextSend(recipient, chunks[i], outcome);
      Associate(old(client.log), t, [TextEvent(send)]);
      SendingNext(recipient, chunks, i, t, sent, outcome);
      t := t + [TextEvent(send)];
      if outcome.SendRaised? {
        return Failure(LeafRaised), t;
      }
      if outcome.Sent? {
        sent := sent + 1;
      }
    }
    assert chunks[..|chunks|] == chunks;
    return Success(sent), t;
  }

  /** Cuts the text to the chunk size and sends the chunks. */
  method SendTextChunks(client: Client, text: string, chunkSize: int, recipient: string)
    returns (r: Result<(nat, nat), Error>, ghost t: Log)
    modifies client
    ensures client.log == old(client.log) + t
    ensures TextsOnly(recipient, t)
    ensures chunkSize <= 0 ==> r == Failure(BadChunkSize) && t == []
    ensures TextAttempted(recipient, text, chunkSize, r, t)
  {
    t := [];
    var chunked := Chunking.ChunkMessage(text, chunkSize);
    if chunked.Failure? {
      return Failure(BadChunkSize), t;
    }
    var chunks := chunked.value;
    var sent;
    sent, t := SendChunks(client, chunks, recipient);
    TriedComesTo(recipient, chunks, Texts(t));
    if sent.IsFailure() {
      return Failure(sent.error), t;
    }
    return Success((sent.value, |chunks|)), t;
  }

  // ---------------------------------------------------------------- voice

  predicate VoiceOnly(recipient: string, t: Log) {
    && Texts(t) == [] && Files(t) == [] && Delivered(t) == [] && FileRpcs(t) == [] && Reactions(t) == []
    && Disciplined(t) && SentTo(recipient, t) && Staged(t, FETCH_VOICE, SEND_VOICE)
  }

  /** Nothing but the search for audio so far. */
  predicate Seeking(recipient: string, t: Log) {
    VoiceOnly(recipient, t) && VoiceNotes(t) == [] && VoiceRpcs(t) == []
  }

  lemma SourceAdded(recipient: string, t: Log, e: Event, stage: nat)
    requires Seeking(recipient, t) && Staged(t, FETCH_VOICE, stage)
    requires (e.VoiceFetched? && stage == FETCH_VOICE) || (e.VoiceDecoded? && stage == DECODE_VOICE)
    ensures Seeking(recipient, t + [e]) && Sources(t + [e]) == Sources(t) + [e]
    ensures Staged(t + [e], FETCH_VOICE, stage)
  {
    Then(t, e);
    OneMore(recipient, t, e);
    StageOfOne(e, stage, stage);
    StagesJoin(t, [e], FETCH_VOICE, stage, stage);
    StagesWiden(t + [e], FETCH_VOICE, stage, FETCH_VOICE, SEND_VOICE);
  }

  lemma VoiceSent(recipient: string, t: Log, path: string, t1: Log, ok: bool)
    requires Seeking(recipient, t) && Staged(t, FETCH_VOICE, DECODE_VOICE)
    requires BatchSent(recipient, [path], true, t1, ok)
    ensures VoiceOnly(recipient, t + t1) && VoiceNotes(t + t1) == if ok then [path] else []
    ensures Sources(t + t1) == Sources(t) && VoiceRpcs(t + t1) == Rpcs(t1)
  {
    Append(t, t1);
    SendsAppend(recipient, t, t1);
    StagesWiden(t, FETCH_VOICE, DECODE_VOICE, FETCH_VOICE, SEND_VOICE);
    StagesJoin(t, t1, FETCH_VOICE, SEND_VOICE, SEND_VOICE);
  }

  /** The search for audio is over, and this is what it came to. */
  predicate Searched(p: Payload, t: Log, fetch: Fetch) {
    && Seeking(Recipient(p), t) && Staged(t, FETCH_VOICE, DECODE_VOICE)
    && VoiceSought(p, Sources(t)) && fetch == Audio(Sources(t))
  }

  function UrlSources(p: Payload, fetch: Fetch): seq<Event> {
    if p.voiceUrl != "" then [VoiceFetched(p.voiceUrl, fetch)] else []
  }

  /** Only the voice URL has been looked at, if there is one. */
  predicate UrlSearched(p: Payload, t: Log, fetch: Fetch) {
    && Seeking(Recipient(p), t) && Staged(t, FETCH_VOICE, FETCH_VOICE)
    && Sources(t) == UrlSources(p, fetch)
    && (p.voiceUrl == "" ==> fetch.Unavailable?)
  }

  lemma UrlFirst(p: Payload, fetch: Fetch)
    requires p.voiceUrl == "" ==> fetch.Unavailable?
    ensures UrlSearched(p, if p.voiceUrl != "" then [VoiceFetched(p.voiceUrl, fetch)] else [], fetch)
  {
    var e := VoiceFetched(p.voiceUrl, fetch);
    SourceAdded(Recipient(p), [], e, FETCH_VOICE);
    assert [] + [e] == [e];
  }

  lemma SoughtByUrl(p: Payload, first: Fetch)
    requires p.voiceUrl == "" ==> first.Unavailable?
    requires !first.Unavailable? || p.voiceBase64 == ""
    ensures VoiceSought(p, UrlSources(p, first)) && Audio(UrlSources(p, first)) == first
  {
  }

  lemma SoughtInline(p: Payload, first: Fetch, fetch: Fetch)
    requires first.Unavailable? && p.voiceBase64 != ""
    ensures var sources := UrlSources(p, first) + [VoiceDecoded(p.voiceBase64, fetch)];
            VoiceSought(p, sources) && Audio(sources) == fetch
  {
    var e := VoiceDecoded(p.voiceBase64, fetch);
    var sources := UrlSources(p, first) + [e];
    assert sources == if p.voiceUrl != "" then [VoiceFetched(p.voiceUrl, first), e] else [e];
    if p.voiceUrl != "" {
      assert sources[1..] == [e];
    }
  }

  /** The URL decided, or there is nothing else to look at. */
  lemma NoInline(p: Payload, t: Log, first: Fetch)
    requires UrlSearched(p, t, first) && (!first.Unavailable? || p.voiceBase64 == "")
    ensures Searched(p, t, first)
  {
    StagesWiden(t, FETCH_VOICE, FETCH_VOICE, FETCH_VOICE, DECODE_VOICE);
    SoughtByUrl(p, first);
  }

  /** The inline audio is looked at next. */
  lemma InlineSecond(p: Payload, t: Log, first: Fetch, fetch: Fetch)
    requires UrlSearched(p, t, first) && first.Unavailable? && p.voiceBase64 != ""
    ensures Searched(p, t + [VoiceDecoded(p.voiceBase64, fetch)], fetch)
  {
    StagesWiden(t, FETCH_VOICE, FETCH_VOICE, FETCH_VOICE, DECODE_VOICE);
    SourceAdded(Recipient(p), t, VoiceDecoded(p.voiceBase64, fetch), DECODE_VOICE);
    SoughtInline(p, first, fetch);
  }

  /** Where the audio comes from: the URL first, the inline audio only where that yields nothing. */
  method FetchVoiceNote(client: Client, p: Payload) returns (fetch: Fetch, ghost t: Log)
    modifies client
    ensures client.log == old(client.log) + t
    ensures Searched(p, t, fetch)
    ensures !HasVoice(p) ==> t == []
  {
    t := [];
    fetch := Unavailable;
    if p.voiceUrl != "" {
      fetch := client.FetchVoice(p.voiceUrl);
      t := [VoiceFetched(p.voiceUrl, fetch)];
    }
    UrlFirst(p, fetch);
    ghost var first := fetch;
    if fetch.Unavailable? && p.voiceBase64 != "" {
      fetch := client.DecodeVoice(p.voiceBase64);
      Associate(old(client.log), t, [VoiceDecoded(p.voiceBase64, fetch)]);
      InlineSecond(p, t, first, fetch);
      t := t + [VoiceDecoded(p.voiceBase64, fetch)];
    } else {
      NoInline(p, t, first);
    }
  }

  /** True exactly when one voice note was accepted; raises exactly when the search for audio did. */
  method DeliverVoiceNote(client: Client, p: Payload) returns (r: Result<bool, Error>, ghost t: Log)
    modifies client
    ensures client.log == old(client.log) + t
    ensures VoiceOnly(Recipient(p), t) && |VoiceNotes(t)| <= 1
    ensures VoiceTried(p, t) && (r.Failure? <==> VoiceBroke(t))
    ensures r == Success(true) <==> VoiceNotes(t) != []
    ensures !HasVoice(p) ==> r == Success(false) && t == []
  {
    var fetch;
    fetch, t := FetchVoiceNote(client, p);
    match fetch {
      case FetchRaised =>
        return Failure(LeafRaised), t;
      case Unavailable =>
        return Success(false), t;
      case Stored(path) =>
        FitsBucket([path]);
        var sent, t1 := client.SendAttachmentBatch(Recipient(p), [path], true);
        Associate(old(client.log), t, t1);
        VoiceSent(Recipient(p), t, path, t1, sent.value);
        return Success(sent.value), t + t1;
    }
  }

  // ---------------------------------------------------------------- the whole callback

  /** What the reply part of a delivery ended with. */
  datatype Reply = Reply(voiceOk: bool, sent: nat, expected: nat)

  predicate ReplyOk(p: Payload, reply: Reply) {
    if HasVoice(p) && reply.voiceOk then true
    else if reply.expected > 0 then reply.sent == reply.expected
    else !HasVoice(p)
  }

  predicate NoFiles(recipient: string, t: Log) {
    && Files(t) == [] && Delivered(t) == [] && FileRpcs(t) == [] && Reactions(t) == []
    && Disciplined(t) && SentTo(recipient, t) && Staged(t, FETCH_VOICE, SEND_TEXT)
  }

  lemma VoiceThenText(recipient: string, t: Log, t1: Log)
    requires VoiceOnly(recipient, t) && TextsOnly(recipient, t1)
    ensures NoFiles(recipient, t + t1) && Texts(t + t1) == Texts(t1) && VoiceNotes(t + t1) == VoiceNotes(t)
    ensures Sources(t + t1) == Sources(t) && VoiceRpcs(t + t1) == VoiceRpcs(t)
  {
    Append(t, t1);
    SendsAppend(recipient, t, t1);
    StagesWiden(t, FETCH_VOICE, SEND_VOICE, FETCH_VOICE, SEND_TEXT);
    StagesJoin(t, t1, FETCH_VOICE, SEND_TEXT, SEND_TEXT);
  }

  /** The voice note was tried, and that is all that is left to be done for the reply. */
  lemma VoiceAlone(p: Payload, chunkSize: int, t: Log)
    requires VoiceOnly(Recipient(p), t) && VoiceTried(p, t) && !TextDue(t)
    ensures NoFiles(Recipient(p), t) && ReplyTried(p, chunkSize, t) && (ReplyBroke(chunkSize, t) <==> VoiceBroke(t))
  {
    StagesWiden(t, FETCH_VOICE, SEND_VOICE, FETCH_VOICE, SEND_TEXT);
  }

  /** A voice note that went through is the whole reply. */
  lemma SpokenReply(p: Payload, chunkSize: int, t: Log)
    requires HasVoice(p) && VoiceOnly(Recipient(p), t) && VoiceTried(p, t)
    requires |VoiceNotes(t)| == 1 && !VoiceBroke(t)
    ensures NoFiles(Recipient(p), t) && ReplyDelivered(p, chunkSize, t)
    ensures ReplyTried(p, chunkSize, t) && !ReplyBroke(chunkSize, t)
  {
    VoiceAlone(p, chunkSize, t);
  }

  /** A voice attempt that raised delivered nothing. */
  lemma SilentReply(p: Payload, chunkSize: int, t: Log)
    requires HasVoice(p) && VoiceOnly(Recipient(p), t) && VoiceTried(p, t) && VoiceNotes(t) == [] && VoiceBroke(t)
    ensures NoFiles(Recipient(p), t) && !ReplyDelivered(p, chunkSize, t)
    ensures ReplyTried(p, chunkSize, t) && ReplyBroke(chunkSize, t)
  {
    VoiceAlone(p, chunkSize, t);
  }

  /** Without a voice note the reply stands or falls with the text; falling back needs some text to fall back to. */
  lemma WrittenReply(p: Payload, chunkSize: int, t: Log, r: Result<(nat, nat), Error>, t1: Log)
    requires VoiceOnly(Recipient(p), t) && VoiceNotes(t) == [] && TextsOnly(Recipient(p), t1)
    requires TextAttempted(Recipient(p), p.text, chunkSize, r, t1)
    ensures NoFiles(Recipient(p), t + t1)
    ensures r.Failure? ==> !ReplyDelivered(p, chunkSize, t + t1)
    ensures r.Success? ==> (ReplyOk(p, Reply(false, r.value.0, r.value.1)) <==> ReplyDelivered(p, chunkSize, t + t1))
  {
    VoiceThenText(Recipient(p), t, t1);
  }

  /** A text attempted after an unsuccessful voice note is all that has to be attempted for the reply. */
  lemma WrittenTried(p: Payload, chunkSize: int, t: Log, r: Result<(nat, nat), Error>, t1: Log)
    requires VoiceOnly(Recipient(p), t) && VoiceTried(p, t) && TextDue(t) && TextsOnly(Recipient(p), t1)
    requires TextAttempted(Recipient(p), p.text, chunkSize, r, t1)
    ensures ReplyTried(p, chunkSize, t + t1) && (r.Failure? <==> ReplyBroke(chunkSize, t + t1))
  {
    VoiceThenText(Recipient(p), t, t1);
  }

  /** The text, when nothing was spoken. */
  method DeliverText(client: Client, p: Payload, chunkSize: int, ghost unspoken: Log)
    returns (r: Result<Reply, Error>, ghost t: Log)
    requires VoiceOnly(Recipient(p), unspoken) && VoiceTried(p, unspoken) && TextDue(unspoken)
    modifies client
    ensures client.log == old(client.log) + t
    ensures NoFiles(Recipient(p), unspoken + t)
    ensures r.Success? ==> (ReplyOk(p, r.value) <==> ReplyDelivered(p, chunkSize, unspoken + t))
    ensures r.Failure? ==> !ReplyDelivered(p, chunkSize, unspoken + t)
    ensures ReplyTried(p, chunkSize, unspoken + t) && (r.Failure? <==> ReplyBroke(chunkSize, unspoken + t))
  {
    var text;
    text, t := SendTextChunks(client, p.text, chunkSize, Recipient(p));
    WrittenReply(p, chunkSize, unspoken, text, t);
    WrittenTried(p, chunkSize, unspoken, text, t);
    if text.IsFailure() {
      return Failure(text.error), t;
    }
    return Success(Reply(false, text.value.0, text.value.1)), t;
  }

  lemma NoVoiceNoSearch(p: Payload)
    requires !HasVoice(p)
    ensures VoiceOnly(Recipient(p), []) && VoiceTried(p, []) && TextDue([])
  {
  }

  /** What the voice part of a reply leaves to be done: nothing if it raised or went through, and else the text. */
  predicate VoicePart(p: Payload, t: Log, r: Result<bool, Error>) {
    && VoiceOnly(Recipient(p), t) && VoiceTried(p, t)
    && (r.Failure? <==> VoiceBroke(t))
    && (r == Success(true) <==> VoiceNotes(t) != [])
    && |VoiceNotes(t)| <= 1 && (!HasVoice(p) ==> r == Success(false))
  }

  lemma VoiceLeaves(p: Payload, chunkSize: int, t: Log, r: Result<bool, Error>)
    requires VoicePart(p, t, r)
    ensures r == Success(false) ==> TextDue(t)
    ensures r != Success(false) ==>
              && NoFiles(Recipient(p), t) && ReplyTried(p, chunkSize, t)
              && (ReplyBroke(chunkSize, t) <==> r.Failure?)
              && (ReplyDelivered(p, chunkSize, t) <==> r.Success?)
  {
    if r.Failure? {
      SilentReply(p, chunkSize, t);
    } else if r.value {
      SpokenReply(p, chunkSize, t);
    }
  }

  /** The voice note, if there is one. */
  method DeliverVoice(client: Client, p: Payload) returns (r: Result<bool, Error>, ghost t: Log)
    modifies client
    ensures client.log == old(client.log) + t
    ensures VoicePart(p, t, r)
  {
    if HasVoice(p) {
      r, t := DeliverVoiceNote(client, p);
    } else {
      NoVoiceNoSearch(p);
      r, t := Success(false), [];
    }
  }

  /** The voice note if there is one, and the text unless the voice note went through. */
  method DeliverReply(client: Client, p: Payload, chunkSize: int) returns (r: Result<Reply, Error>, ghost t: Log)
    modifies client
    ensures client.log == old(client.log) + t
    ensures NoFiles(Recipient(p), t)
    ensures r.Success? ==> (ReplyOk(p, r.value) <==> ReplyDelivered(p, chunkSize, t))
    ensures r.Failure? ==> !ReplyDelivered(p, chunkSize, t)
    ensures ReplyTried(p, chunkSize, t) && (r.Failure? <==> ReplyBroke(chunkSize, t))
  {
    var voice;
    voice, t := DeliverVoice(client, p);
    VoiceLeaves(p, chunkSize, t, voice);
    if voice.IsFailure() {
      return Failure(voice.error), t;
    }
    if voice.value {
      return Success(Reply(true, 0, 0)), t;
    }
    ghost var t2;
    r, t2 := DeliverText(client, p, chunkSize, t);
    Associate(old(client.log), t, t2);
    t := t + t2;
  }

  /** The reaction, if there is a message to react to, and nothing else. */
  predicate ReactionOnly(p: Payload, emoji: string, t: Log) {
    && Texts(t) == [] && Files(t) == [] && Delivered(t) == [] && VoiceNotes(t) == [] && Rpcs(t) == []
    && VoiceRpcs(t) == [] && FileRpcs(t) == [] && Sources(t) == []
    && Reacted(p, emoji, t)
    && Disciplined(t) && Staged(t, REACT, REACT)
  }

  /** One reaction exactly when the message key is a timestamp. */
  predicate Reacted(p: Payload, emoji: string, t: Log) {
    Reactions(t) == if p.numericKey then [emoji] else []
  }

  /** Reactions are cosmetic: they may fail, and never change the outcome. */
  method React(client: Client, p: Payload, emoji: string) returns (ghost t: Log)
    modifies client
    ensures client.log == old(client.log) + t
    ensures ReactionOnly(p, emoji, t)
  {
    t := [];
    if !p.numericKey {
      return;
    }
    client.Note(Event.Reacted(emoji));
    t := [Event.Reacted(emoji)];
    One(Event.Reacted(emoji));
    UnpacedIsDisciplined(Event.Reacted(emoji));
  }

  lemma ReactionLast(p: Payload, emoji: string, t: Log, tail: Log)
    requires ReactionOnly(p, emoji, tail) && Disciplined(t) && SentTo(Recipient(p), t) && Reactions(t) == []
    ensures Disciplined(t + tail) && SentTo(Recipient(p), t + tail) && Reacted(p, emoji, t + tail)
    ensures Texts(t + tail) == Texts(t) && Files(t + tail) == Files(t) && Delivered(t + tail) == Delivered(t)
    ensures VoiceNotes(t + tail) == VoiceNotes(t) && Rpcs(t + tail) == Rpcs(t) && Sources(t + tail) == Sources(t)
    ensures VoiceRpcs(t + tail) == VoiceRpcs(t) && FileRpcs(t + tail) == FileRpcs(t)
  {
    Append(t, tail);
    SendsAppend(Recipient(p), t, tail);
  }

  lemma ReplyThenFiles(recipient: string, t: Log, t1: Log)
    requires NoFiles(recipient, t) && FilesOnly(recipient, t1)
    ensures Disciplined(t + t1) && SentTo(recipient, t + t1) && Reactions(t + t1) == []
    ensures Texts(t + t1) == Texts(t) && VoiceNotes(t + t1) == VoiceNotes(t)
    ensures Files(t + t1) == Files(t1) && Delivered(t + t1) == Delivered(t1)
    ensures VoiceRpcs(t + t1) == VoiceRpcs(t) && FileRpcs(t + t1) == FileRpcs(t1) && Sources(t + t1) == Sources(t)
    ensures Staged(t + t1, FETCH_VOICE, SEND_FILES)
  {
    Append(t, t1);
    SendsAppend(recipient, t, t1);
    StagesWiden(t, FETCH_VOICE, SEND_TEXT, FETCH_VOICE, FETCH_FILES);
    StagesJoin(t, t1, FETCH_VOICE, FETCH_FILES, SEND_FILES);
  }

  /** The reply alone, when it raised or there are no files. */
  lemma ReplyConducted(p: Payload, chunkSize: int, t: Log)
    requires NoFiles(Recipient(p), t) && ReplyTried(p, chunkSize, t)
    requires ReplyBroke(chunkSize, t) || p.attachments == []
    ensures Conducted(p, chunkSize, t) && (Broke(chunkSize, t) <==> ReplyBroke(chunkSize, t))
    ensures Undecorated(p, t)
    ensures FullyDelivered(p, chunkSize, t) <==> ReplyDelivered(p, chunkSize, t) && p.attachments == []
  {
    StagesWiden(t, FETCH_VOICE, SEND_TEXT, FETCH_VOICE, SEND_FILES);
    StagesWiden(t, FETCH_VOICE, SEND_TEXT, FETCH_VOICE, REACT);
  }

  lemma BothConducted(p: Payload, chunkSize: int, t: Log, t1: Log)
    requires NoFiles(Recipient(p), t) && ReplyTried(p, chunkSize, t) && !ReplyBroke(chunkSize, t)
    requires FilesOnly(Recipient(p), t1) && FilesTried(Recipient(p), p.attachments, t1)
    ensures Conducted(p, chunkSize, t + t1) && (Broke(chunkSize, t + t1) <==> FetchBroke(Files(t1)))
  {
    ReplyThenFiles(Recipient(p), t, t1);
    StagesWiden(t + t1, FETCH_VOICE, SEND_FILES, FETCH_VOICE, REACT);
  }

  lemma BothDelivered(p: Payload, chunkSize: int, t: Log, t1: Log)
    requires NoFiles(Recipient(p), t) && FilesOnly(Recipient(p), t1)
    ensures Undecorated(p, t + t1)
    ensures FullyDelivered(p, chunkSize, t + t1)
            <==> ReplyDelivered(p, chunkSize, t) && AttachmentsDelivered(p.attachments, t1)
  {
    ReplyThenFiles(Recipient(p), t, t1);
  }

  /** A paced log to the right recipient, without a reaction yet. */
  predicate Undecorated(p: Payload, t: Log) {
    Disciplined(t) && SentTo(Recipient(p), t) && Reactions(t) == [] && Staged(t, FETCH_VOICE, SEND_FILES)
  }

  /** The reply, then the files; a raising part ends the delivery there. */
  method DeliverAll(client: Client, p: Payload, chunkSize: int)
    returns (r: Result<(Reply, bool), Error>, ghost t: Log)
    modifies client
    ensures client.log == old(client.log) + t
    ensures Undecorated(p, t)
    ensures r.Success? ==> (ReplyOk(p, r.value.0) && r.value.1 <==> FullyDelivered(p, chunkSize, t))
    ensures r.Success? && p.attachments == [] ==> r.value.1
    ensures r.Failure? ==> !FullyDelivered(p, chunkSize, t)
    ensures Conducted(p, chunkSize, t) && (r.Failure? <==> Broke(chunkSize, t))
  {
    var reply;
    reply, t := DeliverReply(client, p, chunkSize);
    if reply.IsFailure() {
      ReplyConducted(p, chunkSize, t);
      return Failure(reply.error), t;
    }
    if p.attachments == [] {
      ReplyConducted(p, chunkSize, t);
      return Success((reply.value, true)), t;
    }
    var files, t1 := DeliverAttachments(client, Recipient(p), p.attachments);
    Associate(old(client.log), t, t1);
    BothConducted(p, chunkSize, t, t1);
    BothDelivered(p, chunkSize, t, t1);
    t := t + t1;
    if files.IsFailure() {
      return Failure(files.error), t;
    }
    return Success((reply.value, files.value)), t;
  }

  /** Two logs that show the same texts, files and voice notes, and the same attempts at them. */
  predicate SameDeeds(a: Log, b: Log) {
    && Texts(a) == Texts(b) && Files(a) == Files(b) && Delivered(a) == Delivered(b) && VoiceNotes(a) == VoiceNotes(b)
    && VoiceRpcs(a) == VoiceRpcs(b) && FileRpcs(a) == FileRpcs(b) && Sources(a) == Sources(b)
  }

  lemma SameDelivery(p: Payload, chunkSize: int, a: Log, b: Log)
    requires SameDeeds(a, b)
    ensures FullyDelivered(p, chunkSize, a) <==> FullyDelivered(p, chunkSize, b)
  {
  }

  lemma SameReply(p: Payload, chunkSize: int, a: Log, b: Log)
    requires SameDeeds(a, b)
    ensures ReplyTried(p, chunkSize, a) <==> ReplyTried(p, chunkSize, b)
    ensures ReplyBroke(chunkSize, a) <==> ReplyBroke(chunkSize, b)
  {
    assert VoiceTried(p, a) <==> VoiceTried(p, b);
  }

  lemma SameFiles(recipient: string, urls: seq<string>, a: Log, b: Log)
    requires SameDeeds(a, b)
    ensures FilesTried(recipient, urls, a) <==> FilesTried(recipient, urls, b)
  {
  }

  lemma SameConduct(p: Payload, chunkSize: int, a: Log, b: Log)
    requires SameDeeds(a, b) && Staged(b, FETCH_VOICE, REACT)
    ensures Conducted(p, chunkSize, a) ==> Conducted(p, chunkSize, b)
    ensures Broke(chunkSize, a) <==> Broke(chunkSize, b)
  {
    SameReply(p, chunkSize, a, b);
    SameFiles(Recipient(p), p.attachments, a, b);
  }

  lemma ReactionChangesNothing(p: Payload, chunkSize: int, t: Log, tail: Log)
    requires Undecorated(p, t) && ReactionOnly(p, COMPLETE_REACTION, tail)
    ensures Disciplined(t + tail) && SentTo(Recipient(p), t + tail) && Reacted(p, COMPLETE_REACTION, t + tail)
    ensures FullyDelivered(p, chunkSize, t + tail) <==> FullyDelivered(p, chunkSize, t)
    ensures Conducted(p, chunkSize, t) ==> Conducted(p, chunkSize, t + tail)
    ensures Broke(chunkSize, t + tail) <==> Broke(chunkSize, t)
  {
    ReactionLast(p, COMPLETE_REACTION, t, tail);
    StagesWiden(t, FETCH_VOICE, SEND_FILES, FETCH_VOICE, REACT);
    StagesJoin(t, tail, FETCH_VOICE, REACT, REACT);
    SameDelivery(p, chunkSize, t, t + tail);
    SameConduct(p, chunkSize, t, t + tail);
  }

  /**
   * A complete callback: everything is attempted as it has to be, it raises exactly when that broke off, and it is true
   * exactly when the log shows a full delivery.
   */
  method DispatchComplete(client: Client, p: Payload, chunkSize: int) returns (r: Result<bool, Error>, ghost t: Log)
    modifies client
    ensures client.log == old(client.log) + t
    ensures Disciplined(t) && SentTo(Recipient(p), t)
    ensures r == Success(true) <==> FullyDelivered(p, chunkSize, t)
    ensures Conducted(p, chunkSize, t) && (r.Failure? <==> Broke(chunkSize, t))
    ensures if r.Failure? then Reactions(t) == [] else Reacted(p, COMPLETE_REACTION, t)
  {
    var parts;
    parts, t := DeliverAll(client, p, chunkSize);
    if parts.IsFailure() {
      return Failure(parts.error), t;
    }
    var (reply, attachmentsOk) := parts.value;
    var nothingToSend := !HasVoice(p) && p.attachments == [] && reply.expected == 0;
    var t1 := React(client, p, COMPLETE_REACTION);
    Associate(old(client.log), t, t1);
    ReactionChangesNothing(p, chunkSize, t, t1);
    t := t + t1;
    if nothingToSend {
      return Success(true), t;
    }
    return Success(ReplyOk(p, reply) && attachmentsOk), t;
  }

  /** One text, the fallback message, and nothing else but a reaction. */
  predicate Apology(p: Payload, t: Log) {
    && Files(t) == [] && Delivered(t) == [] && VoiceNotes(t) == [] && Rpcs(t) == [] && Sources(t) == []
    && Staged(t, SEND_TEXT, REACT)
    && |Texts(t)| == 1 && Texts(t)[0].recipient == Recipient(p) && Texts(t)[0].text == DEFAULT_FALLBACK_MESSAGE
  }

  lemma ApologyAlone(p: Payload, send: TextSend)
    requires send.recipient == Recipient(p) && send.text == DEFAULT_FALLBACK_MESSAGE
    ensures var t := [TextEvent(send)];
            && Apology(p, t) && Texts(t) == [send] && Reactions(t) == []
            && Disciplined(t) && SentTo(Recipient(p), t)
  {
    One(TextEvent(send));
    StageOfOne(TextEvent(send), SEND_TEXT, REACT);
    UnpacedIsDisciplined(TextEvent(send));
  }

  lemma OnlyIfSent(p: Payload, send: TextSend)
    ensures send == TextSend(Recipient(p), DEFAULT_FALLBACK_MESSAGE, send.outcome)
            ==> ([send] == [TextSend(Recipient(p), DEFAULT_FALLBACK_MESSAGE, Sent)] <==> send.outcome.Sent?)
  {
    assert [send][0] == send;
  }

  /** The fallback message of an error callback, and its reaction. */
  method DispatchError(client: Client, p: Payload) returns (r: Result<bool, Error>, ghost t: Log)
    modifies client
    ensures client.log == old(client.log) + t
    ensures Disciplined(t) && SentTo(Recipient(p), t)
    ensures Apology(p, t)
    ensures r == Success(true) <==> Texts(t) == [TextSend(Recipient(p), DEFAULT_FALLBACK_MESSAGE, Sent)]
    ensures r.Failure? <==> SendBroke(Texts(t))
    ensures if r.Failure? then Reactions(t) == [] else Reacted(p, ERROR_REACTION, t)
  {
    var outcome := client.SendText(Recipient(p), DEFAULT_FALLBACK_MESSAGE);
    ghost var send := TextSend(Recipient(p), DEFAULT_FALLBACK_MESSAGE, outcome);
    ApologyAlone(p, send);
    OnlyIfSent(p, send);
    t := [TextEvent(send)];
    if outcome.SendRaised? {
      return Failure(LeafRaised), t;
    }
    var t1 := React(client, p, ERROR_REACTION);
    Associate(old(client.log), t, t1);
    ReactionLast(p, ERROR_REACTION, t, t1);
    StagesJoin(t, t1, SEND_TEXT, REACT, REACT);
    return Success(outcome.Sent?), t + t1;
  }

  /** What was attempted for a callback of each type, and what the outcome of its dispatch says about that. */
  predicate Accounted(p: Payload, chunkSize: int, t: Log, r: Result<bool, Error>) {
    match p.kind
    case Status => t == [] && r == Success(true)
    case Progress =>
      && TextsOnly(Recipient(p), t)
      && (chunkSize > 0 ==> TextsTried(Recipient(p), Chunking.Chunks(p.text, chunkSize), Texts(t)))
      && (chunkSize <= 0 ==> t == [])
      && (r.Failure? <==> chunkSize <= 0 || SendBroke(Texts(t)))
      && (r == Success(true) <==> TextDelivered(p, chunkSize, t))
    case Complete =>
      && (if r.Failure? then Reactions(t) == [] else Reacted(p, COMPLETE_REACTION, t))
      && Conducted(p, chunkSize, t)
      && (r.Failure? <==> Broke(chunkSize, t))
      && (r == Success(true) <==> FullyDelivered(p, chunkSize, t))
    case ErrorReply =>
      && Apology(p, t) && (if r.Failure? then Reactions(t) == [] else Reacted(p, ERROR_REACTION, t))
      && (r.Failure? <==> SendBroke(Texts(t)))
      && (r == Success(true) <==> Texts(t) == [TextSend(Recipient(p), DEFAULT_FALLBACK_MESSAGE, Sent)])
  }

  /** Group callbacks name a chat, and all others go to the user. */
  method DispatchCallback(client: Client, p: Payload, chunkSize: int) returns (r: Result<bool, Error>, ghost t: Log)
    modifies client
    ensures client.log == old(client.log) + t
    ensures Disciplined(t) && SentTo(Recipient(p), t)
    ensures p.chatId != "" ==> SentTo(p.chatId, t)
    ensures p.chatId == "" ==> SentTo(p.userId, t)
    ensures Accounted(p, chunkSize, t, r)
  {
    t := [];
    match p.kind {
      case Status =>
        return Success(true), t;
      case ErrorReply =>
        r, t := DispatchError(client, p);
      case Progress =>
        var text, t1 := SendTextChunks(client, p.text, chunkSize, Recipient(p));
        t := t1;
        if text.IsFailure() {
          return Failure(text.error), t;
        }
        return Success(text.value.1 == 0 || text.value.0 == text.value.1), t;
      case Complete =>
        r, t := DispatchComplete(client, p, chunkSize);
    }
  }
}
