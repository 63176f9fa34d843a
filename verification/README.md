# Verified model of the Signal gateway's delivery path

The gateway relays a worker's replies to Signal. Its hard logic lies on one path: a `complete` callback is
deduplicated and accepted, its text is cut into chunks and its Markdown into body ranges, its files are paced
through a token bucket, and its key is marked completed once everything went out. This project models that path in
Dafny and proves what it promises, for every input, every interleaving and every outcome of the outside world.

| file | models |
|---|---|
| `RateLimit.dfy` | the token bucket as an object over real-valued tokens and time, with its specification on values |
| `RateLimitRuns.dfy` | many callers sharing one bucket: a step system and the invariant of its runs |
| `RateLimitGrants.dfy`, `RateLimitPasses.dfy` | the bound on grants in any window; the bound on passes of the retry loop |
| `RateLimitUploads.dfy`, `RateLimitOrder.dfy` | what an upload window earns; who can overtake whom, and what `acquire` returns under interleaving |
| `Text.dfy`, `Chunking.dfy` | Python's string operations and the three regular-expression scans; the chunker as it runs |
| `ChunkingConservation.dfy`, `ChunkingShape.dfy`, `ChunkingFixpoint.dfy` | which characters chunking keeps, how full chunks are, and when chunking is idempotent |
| `ChunkingWords.dfy`, `ChunkingTokens.dfy` | the exact word stream of the chunks, from the segments and from the text |
| `ChunkingAtoms.dfy`, `ChunkingUnits.dfy`, `TextScans.dfy` | the chunker as one greedy pass over atoms that are never torn; what that means for paragraphs and sentences; what the three patterns match |
| `Markdown.dfy`, `MarkdownStrip.dfy`, `MarkdownPhase.dfy` | the inline phase: selection, the strip map, the loops and the emitted body ranges |
| `Utf16.dfy`, `Sorting.dfy`, `Wrappers.dfy` | UTF-16 (RFC 2781), a stable sort, results and options |
| `Mentions.dfy` | mention rendering |
| `Dedup.dfy` | the TTL map with its lazy sweep |
| `SignalLog.dfy`, `SignalClient.dfy` | what a delivery does to the outside world, as a log in stages; batches and their retries |
| `DeliveryPlan.dfy`, `Delivery.dfy` | what has to be attempted, what counts as delivered, and how they are related; voice-first replies and attachments as they run |
| `PacedSending.dfy`, `PacedFleet.dfy` | deliveries and bucket as one system: what all of them put on the wire |
| `CallbackServer.dfy`, `CallbackRuns.dfy` | the callback endpoint as an object, and all its runs |

Objects that the source updates in place are classes, and each of their methods is proved equal to a function of
the old state; the properties are then proved about those functions and about runs built from them. Everything
reached over the network or the file system is a leaf that chooses its outcome freely, and every choice is recorded
in the log of the attempt. So a claim such as "delivered in full" speaks about what was done and not about a flag,
and it can be stated what has to be attempted, in which order, and which failures may cut it short. A result type
stands for Python's exceptions.

## Findings

Where a promise does not hold of the code, the model keeps the code and states the exact condition.

- Chunking loses the leading run of `.!?` of a paragraph that is too long for a chunk and has some other character,
  because the sentence pattern needs a non-terminator first (`NothingLostIff`, witness `LeadingDotsAreLost`).
- A chunk is a fixed point of chunking if and only if it holds no CR LF (`ChunkIsFixedIff`), and all chunks of a text
  are if and only if no segment of the text that fits holds one (`AllFixedIff`); one can only be left over from CR CR
  LF in the input (`ChunksAreFixed`, witness `DoubledCrIsNotFixed`).
- The refill clock is restarted after an upload so that the upload window earns nothing. For an upload that is reported,
  without a 429 in between, that holds if and only if no pass through `acquire` during the upload finds the refill clock
  in the past and the bucket below capacity (`UploadWindow`, witness `UploadThatEarns`): such a pass credits the time
  that went by. An upload whose RPC ends without a result is not reported at all; then the next pass of anybody credits
  all the time that went by, and earns nothing if and only if none did (`UnreportedWindow`, witness
  `UnreportedUploadEarns`).
- The documentation of the scheduler claims FIFO order. The lock is released during the sleep, so a caller can be
  overtaken. While it sleeps, exactly those callers can be served that wake and are covered before it wakes
  (`ServedDuringSleepIff`, witness `LatecomerGoesFirst`). Once it is due, whoever is awake and covered may pass before it
  (`ServedNowIff`, witnesses `LatecomerWinsTheTie`, `LatecomerOutbidsTheDue`): if it passes at most so many seconds after
  it is due, those that are awake and covered by then (`ServedFirstIff`), and without such a bound anyone
  (`AnyoneCanBeFirst`). For a sleeper that nothing has disturbed, `UndisturbedServedFirstIff` states both conditions in
  terms of the requests.

## Model

| member | source | states |
|---|---|---|
| RateLimit.PerToken | src/bt_signal_gateway/signal_rate_limit.py:191 | one token per `seconds`: rate times seconds is exactly 1 |
| RateLimit.ProjectionGrowth | src/bt_signal_gateway/signal_rate_limit.py:199-204 | between two instants the balance never falls, stays within [0, capacity], and grows by at most rate times the time passed |
| RateLimit.RefillComposes | src/bt_signal_gateway/signal_rate_limit.py:199-204 | refilling at an instant in between changes no later balance |
| RateLimit.LazyRefillIsEagerRefill | src/bt_signal_gateway/signal_rate_limit.py:199-204 | refills at any ascending instants equal one refill at the last of them |
| RateLimit.WaitIsLeast | src/bt_signal_gateway/signal_rate_limit.py:217-225 | the estimate is the least delay after which the projected balance covers `n`, in both directions, for every `n` the bucket can hold |
| RateLimit.WaitIsLeastWhenShort | src/bt_signal_gateway/signal_rate_limit.py:264-265 | the sleep computed by a failed pass is positive and is the least one that suffices |
| RateLimit.AfterFeedback | src/bt_signal_gateway/signal_rate_limit.py:310-330 | after a 429, with or without a hint, the bucket holds exactly what has been refilled since, up to the capacity: one token per named wait, or else at the rate that was in force |
| RateLimit.FeedbackWait | src/bt_signal_gateway/signal_rate_limit.py:310-330 | right after a 429 that names a wait per token, `n` tokens are exactly `n` such waits away |
| RateLimit.Scheduler.constructor | src/bt_signal_gateway/signal_rate_limit.py:184-193 | a new bucket is full, refills one token per default interval, and is well formed |
| RateLimit.Scheduler.Refill | src/bt_signal_gateway/signal_rate_limit.py:199-204 | sets the fields to the projected balance at the current instant and keeps the bucket well formed |
| RateLimit.Scheduler.EstimateWait | src/bt_signal_gateway/signal_rate_limit.py:210-225 | returns the least delay after which the bucket, left alone, covers `n`; changes nothing |
| RateLimit.FirstOrSecondPass | src/bt_signal_gateway/signal_rate_limit.py:248-279 | of a sole caller's passes, the first is granted or sleeps exactly the estimate, and one after that sleep is granted |
| RateLimit.Scheduler.Pass | src/bt_signal_gateway/signal_rate_limit.py:251-265 | one critical section of `acquire` is exactly the atomic pass that the step system interleaves |
| RateLimit.Scheduler.Acquire | src/bt_signal_gateway/signal_rate_limit.py:227-279 | a sole caller makes at most two passes, returns exactly the estimate it could have asked for beforehand, and leaves one refill less `n` tokens; `n <= 0` is a no-op; more than the capacity raises and changes nothing |
| RateLimit.Scheduler.ReportRpcDuration | src/bt_signal_gateway/signal_rate_limit.py:281-299 | moves only the refill clock, to the current instant, and only for a positive count |
| RateLimit.Scheduler.Feedback | src/bt_signal_gateway/signal_rate_limit.py:310-330 | computes the bucket that `AfterFeedback` describes: emptied, its refill clock restarted, at the server's rate exactly when the hint is positive |
| RateLimitUploads.StepEarns | src/bt_signal_gateway/signal_rate_limit.py:199-308 | balance and grants never shrink but for a 429, and they grow exactly in a pass that finds time to credit and a bucket that is not full |
| RateLimitUploads.WindowEarns | src/bt_signal_gateway/signal_rate_limit.py:199-308 | the same over any stretch of a run without a 429 |
| RateLimitUploads.UploadWindow | src/bt_signal_gateway/signal_rate_limit.py:281-299 | for an upload that is reported: at the report, balance plus grants equal the opening balance if and only if no pass in between credited time to the bucket; whatever else was granted or reported meanwhile |
| RateLimitUploads.UploadThatEarns | src/bt_signal_gateway/signal_rate_limit.py:281-299 | a concrete run in which the pass of another caller credits two tokens during an upload |
| RateLimitUploads.UnreportedWindow | src/bt_signal_gateway/signal_client.py:450-457 | for an upload that ends without a report: from the grant to the next pass of anybody, balance plus grants stay the same if and only if no time went by at all |
| RateLimitUploads.UnreportedUploadEarns | src/bt_signal_gateway/signal_client.py:450-457 | a concrete run whose RPC ends without a result, so that the retry credits the whole upload |
| RateLimitOrder.ShortAlways | src/bt_signal_gateway/signal_rate_limit.py:264-279 | in every reachable state, the request of an undisturbed sleeper is not covered before it wakes |
| RateLimitOrder.ServedNowIff | src/bt_signal_gateway/signal_rate_limit.py:250-263 | a caller is served right now if and only if its sleep is over and its estimated wait is zero |
| RateLimitOrder.ServedAfterIff | src/bt_signal_gateway/signal_rate_limit.py:248-279 | if nothing but time passes, a caller's pass is granted after `d` seconds if and only if it is awake by then and `d` is at least its estimated wait |
| RateLimitOrder.EarliestIsService | src/bt_signal_gateway/signal_rate_limit.py:248-279 | the later of a caller's waking and its being covered is the first instant at which it is served |
| RateLimitOrder.ServedDuringSleepIff | src/bt_signal_gateway/signal_rate_limit.py:237-279 | `j` can be served while `i` is still asleep if and only if it wakes and is covered before `i` wakes |
| RateLimitOrder.ServedFirstIff | src/bt_signal_gateway/signal_rate_limit.py:237-279 | for any two callers, asleep or due, and any bound on how late a due caller passes: `j` can be served before `i` passes if and only if it wakes and is covered by then |
| RateLimitOrder.AnyoneCanBeFirst | src/bt_signal_gateway/signal_rate_limit.py:237-279 | without such a bound every caller can be served before every other |
| RateLimitOrder.UndisturbedServedFirstIff | src/bt_signal_gateway/signal_rate_limit.py:237-279 | during the sleep of an undisturbed caller exactly those can be served that ask for less and wake earlier; before it passes, if it passes the moment it wakes, exactly those that ask for no more and wake no later |
| RateLimitOrder.OvertakerAsksForLess | src/bt_signal_gateway/signal_rate_limit.py:237-279 | over every run: whoever is granted tokens while an undisturbed caller sleeps asked for less than that caller |
| RateLimitOrder.LatecomerGoesFirst | src/bt_signal_gateway/signal_rate_limit.py:180-181 | a concrete run in which the second caller is served first, and the first one fails its next pass for it |
| RateLimitOrder.LatecomerWinsTheTie | src/bt_signal_gateway/signal_rate_limit.py:180-181 | a concrete run in which an equal request, made in the instant the sleeper is due, is served first |
| RateLimitOrder.LatecomerOutbidsTheDue | src/bt_signal_gateway/signal_rate_limit.py:180-181 | a concrete run in which a caller that is due, undisturbed but has not passed yet loses to a latecomer that asks for more |
| RateLimitOrder.SleepsFit | src/bt_signal_gateway/signal_rate_limit.py:248-279 | in any interleaving, the sleeps of a caller still inside `acquire` fit between its arrival and its next wake-up |
| RateLimitOrder.AcquireReturns | src/bt_signal_gateway/signal_rate_limit.py:227-279 | in any interleaving, a caller that is served gets exactly what it asked for, and reports no more sleep than the time that passed |
| RateLimitRuns.WaitsFromArrival | src/bt_signal_gateway/signal_rate_limit.py:243-248 | every request for some tokens that the bucket can hold waits for them, the largest one included; the others change nothing |
| RateLimitRuns.StepKeepsInv | src/bt_signal_gateway/signal_rate_limit.py:248-330 | every atomic step of every caller keeps 0 <= tokens <= capacity, a positive rate, a refill clock in the past, and the promise made to each undisturbed sleeper |
| RateLimitRuns.InvAlways | src/bt_signal_gateway/signal_rate_limit.py:184-330 | the same in every state of every interleaving, with the capacity unchanged |
| RateLimitRuns.FailureNeedsDisturbance | src/bt_signal_gateway/signal_rate_limit.py:248-279 | a caller that fails again after its full sleep was overtaken by a grant, an RPC report or a 429 |
| RateLimitRuns.UndisturbedWaiterIsServed | src/bt_signal_gateway/signal_rate_limit.py:248-279 | over a run: if nothing disturbed the bucket between a failed pass and the same caller's next pass, that pass succeeds |
| RateLimitGrants.StepBound | src/bt_signal_gateway/signal_rate_limit.py:199-330 | tokens granted by one step plus the balance after it are covered by the balance before it plus the refill of that step |
| RateLimitGrants.WindowBound | src/bt_signal_gateway/signal_rate_limit.py:199-330 | in any window of any interleaving, the tokens granted plus the final balance are at most the initial balance plus the refill rate, as it changed on the way, integrated over the window |
| RateLimitGrants.GrantsAfterFeedback | src/bt_signal_gateway/signal_rate_limit.py:310-330 | after a 429, whatever the bucket held and whatever the hint, no more is granted in any window than the rate puts back from then on |
| RateLimitGrants.RefillAtMost | src/bt_signal_gateway/signal_rate_limit.py:199-330 | that integral is at most the highest rate in force times the length of the window |
| RateLimitGrants.GrantsBounded | src/bt_signal_gateway/signal_rate_limit.py:199-330 | hence at most capacity + highest rate * length tokens in any window |
| RateLimitPasses.PassSpendsPotential | src/bt_signal_gateway/signal_rate_limit.py:250-279 | every pass over the critical section, granted or not, uses up termination potential |
| RateLimitPasses.PassesBounded | src/bt_signal_gateway/signal_rate_limit.py:227-330 | `a` callers and `e` reports or feedbacks allow at most (a(a + 3) + 2ea) / 2 passes, whatever the interleaving |
| RateLimitPasses.RetriesTerminate | src/bt_signal_gateway/signal_rate_limit.py:250-279 | without reports or feedbacks `a` callers finish within a(a + 3)/2 <= a(a + 1) passes, and have passes to spare while anyone waits |
| Text.FirstBlankLineIsFirst | src/bt_signal_gateway/chunking.py:17 | the paragraph scan stops at the first place where two newlines meet, and at the end if there is none |
| Text.StripEnds | src/bt_signal_gateway/chunking.py:42-46 | a stripped text neither begins nor ends with whitespace |
| Text.SplitParagraphsKeepsVisible | src/bt_signal_gateway/chunking.py:17-46 | the paragraph split loses only whitespace |
| Text.SplitWordsKeepsVisible | src/bt_signal_gateway/chunking.py:18-110 | the word split loses only whitespace |
| Text.FindSentencesFlatten | src/bt_signal_gateway/chunking.py:21 | the sentences, concatenated, are the paragraph without its leading run of terminators |
| TextScans.ParagraphsExactly | src/bt_signal_gateway/chunking.py:17 | the parts and the gaps make up the text; no part holds a blank line, and each gap is a maximal run of at least two newlines |
| TextScans.WordsExactly | src/bt_signal_gateway/chunking.py:18 | the parts and the gaps make up the text; no part holds whitespace, and each gap holds some and nothing else |
| TextScans.CutsExactly | src/bt_signal_gateway/chunking.py:21 | the pieces make up the text; in each, nothing but terminators follows a terminator, each but the last ends with one, and each but the first begins without one |
| Chunking.ChunkMessage | src/bt_signal_gateway/chunking.py:32-80 | raises exactly for a limit below 1; otherwise returns the specified chunks, each of 1 to `max_length` characters |
| Chunking.CollectSegments | src/bt_signal_gateway/chunking.py:46-49 | expands the paragraphs in order |
| Chunking.PackAll | src/bt_signal_gateway/chunking.py:51-80 | the packing loop computes the specified packing, its last open run flushed |
| Chunking.PackSegment | src/bt_signal_gateway/chunking.py:53-75 | one turn of the packing loop is one step of the specified packing, appending to the shared list |
| Chunking.SplitOversizedSegment | src/bt_signal_gateway/chunking.py:103-130 | appends the full runs of an over-long segment's words and returns the open one |
| Chunking.PackWord | src/bt_signal_gateway/chunking.py:110-128 | one turn of the word loop is one step of the specified word packing |
| Chunking.HardSplitWord | src/bt_signal_gateway/chunking.py:120-126 | cuts a word into pieces of exactly the limit; a shorter tail stays open |
| Chunking.PackSegmentsSized | src/bt_signal_gateway/chunking.py:51-75 | every chunk finished while packing has 1 to `max_length` characters, and the open run fits |
| Chunking.ChunksSized | src/bt_signal_gateway/chunking.py:32-80 | every chunk of every text has 1 to `max_length` characters |
| Chunking.NothingToDrop | src/bt_signal_gateway/chunking.py:80 | the closing filter drops nothing |
| ChunkingConservation.PackWordsVisible | src/bt_signal_gateway/chunking.py:103-130 | splitting an over-long segment loses nothing but whitespace |
| ChunkingConservation.PackSegmentsVisible | src/bt_signal_gateway/chunking.py:51-78 | packing loses nothing but whitespace |
| ChunkingConservation.SentencesExist | src/bt_signal_gateway/chunking.py:92-94 | the sentence pattern finds something exactly when some character is not a terminator |
| ChunkingConservation.ExpandVisible | src/bt_signal_gateway/chunking.py:83-100 | a paragraph is delivered whole, or without its leading run of `.!?` exactly when it is over-long, opens with one and says more |
| ChunkingConservation.ChunksConserve | src/bt_signal_gateway/chunking.py:32-130 | the visible characters of the chunks, in order, are those of the text, less the leading terminators of such paragraphs |
| ChunkingConservation.NothingLostIff | src/bt_signal_gateway/chunking.py:32-130 | no visible character is lost if and only if no paragraph is over-long, opens with a terminator and has another character |
| ChunkingConservation.LeadingDotsAreLost | src/bt_signal_gateway/chunking.py:21-100 | a concrete text that loses its opening dots |
| ChunkingShape.PackWordsTight | src/bt_signal_gateway/chunking.py:103-130 | no two neighbouring runs of an over-long segment could have been joined |
| ChunkingShape.PackSegmentsNearGreedy | src/bt_signal_gateway/chunking.py:51-80 | a chunk ends only inside an over-long segment, with len(a) + 1 + len(b) > max_length; in front of a segment that would not have fitted behind its own joiner; or directly before an over-long segment |
| ChunkingShape.NeighboursNeverFit | src/bt_signal_gateway/chunking.py:51-80 | hence neighbouring chunks satisfy len(a) + 2 + len(b) > max_length, except directly before an over-long segment |
| ChunkingWords.CutPieces | src/bt_signal_gateway/chunking.py:120-126 | a word is cut only if it exceeds the limit; its pieces make it up, and all but the last have exactly the limit's length |
| ChunkingWords.PackWordsExactly | src/bt_signal_gateway/chunking.py:103-130 | splitting an over-long segment keeps its words one by one and in order, cutting only those that do not fit |
| ChunkingWords.WordsStayWhole | src/bt_signal_gateway/chunking.py:32-130 | the words of the chunks are the words of the segments, in order, where exactly the words longer than the limit are cut; so no word that fits is cut, and none is lost, merged or moved |
| ChunkingTokens.SentencesCutBehindRuns | src/bt_signal_gateway/chunking.py:21 | the sentence scan skips a leading run of terminators and then cuts exactly behind every run of terminators |
| ChunkingTokens.SentencesCutWords | src/bt_signal_gateway/chunking.py:92-93 | cutting a text behind terminators and taking the words is taking the words and cutting those |
| ChunkingTokens.ChunkWords | src/bt_signal_gateway/chunking.py:32-130 | from text to chunks, word by word: the paragraphs hold the text's words, and the chunks hold these in order, except for the cuts behind terminators and the lost leading run of an over-long paragraph, and the cuts of words beyond the limit |
| ChunkingAtoms.ChunksAreFilled | src/bt_signal_gateway/chunking.py:32-130 | the chunks of a text are its atoms filled in greedily: each paragraph that fits, in a longer one each sentence that fits, and in a longer sentence its words (cut only beyond the limit); an atom joins the open chunk behind its own separator if that fits, and opens another one otherwise |
| ChunkingAtoms.AtomStaysWhole | src/bt_signal_gateway/chunking.py:51-80 | no atom is torn |
| ChunkingAtoms.NeighboursMeet | src/bt_signal_gateway/chunking.py:53-75 | neighbouring atoms stand in one chunk with exactly their separator between them, or at the border of two chunks |
| ChunkingUnits.ParagraphStaysWhole | src/bt_signal_gateway/chunking.py:83-90 | a paragraph that fits is found whole in one chunk |
| ChunkingUnits.SentenceStaysWhole | src/bt_signal_gateway/chunking.py:92-97 | in a longer paragraph, each sentence (cut behind a run of terminators) that fits is found whole in one chunk |
| ChunkingUnits.SentencesMeet | src/bt_signal_gateway/chunking.py:92-97 | two such neighbours are joined by one space, or stand at the border of two chunks |
| ChunkingUnits.ParagraphsMeet | src/bt_signal_gateway/chunking.py:55-57 | two neighbouring paragraphs that fit are joined by one blank line, or stand at the border of two chunks |
| ChunkingFixpoint.ChunksTidy | src/bt_signal_gateway/chunking.py:42-130 | every chunk is trimmed, and its blank lines are single pairs of newlines between visible characters |
| ChunkingFixpoint.TidyRoundTrip | src/bt_signal_gateway/chunking.py:46-55 | splitting such a text into paragraphs and joining them again gives it back |
| ChunkingFixpoint.FitsWhole | src/bt_signal_gateway/chunking.py:51-80 | paragraphs that fit together go out as one chunk |
| ChunkingFixpoint.ChunkIsFixedIff | src/bt_signal_gateway/chunking.py:42-80 | chunking a chunk gives just that chunk if and only if it holds no CR LF |
| ChunkingFixpoint.AllFixedIff | src/bt_signal_gateway/chunking.py:42-80 | every chunk of a text is a fixed point if and only if no segment of the text that fits holds CR LF |
| ChunkingFixpoint.ChunksAreFixed | src/bt_signal_gateway/chunking.py:42-80 | every chunk of a text without CR CR LF, hence of any text without carriage returns, is a fixed point |
| ChunkingFixpoint.DoubledCrIsNotFixed | src/bt_signal_gateway/chunking.py:42 | a concrete text with CR CR LF whose only chunk changes when chunked again |
| ChunkingFixpoint.ChunksNearGreedy | src/bt_signal_gateway/chunking.py:51-130 | near-greedy packing for the segments of any text |
| Sorting.SortKeeps | src/bt_signal_gateway/signal_client.py:162 | sorting permutes |
| Sorting.SortSorts | src/bt_signal_gateway/signal_client.py:208 | sorting by a total preorder orders; used for the styles, whose order `StyleOrder` shows to be one |
| Sorting.SortIdentity | src/bt_signal_gateway/signal_client.py:172 | a list already in order is left alone |
| Sorting.SortStable | src/bt_signal_gateway/envelope.py:77 | elements that the order does not tell apart keep their places relative to each other |
| Markdown.AcceptedDisjoint | src/bt_signal_gateway/signal_client.py:152-162 | the accepted spans are in text order, pairwise disjoint, and clear of every earlier MONOSPACE range |
| Markdown.AcceptedIff | src/bt_signal_gateway/signal_client.py:156-161 | a candidate is accepted if and only if no position of it lies in code or in another accepted candidate that ranks before it, and no empty code range lies strictly inside it |
| Markdown.UndisputedAccepted | src/bt_signal_gateway/signal_client.py:156-161 | so a candidate that shares no position with code or a candidate before it is accepted, even where it touches them |
| MarkdownStrip.KeptMonotone | src/bt_signal_gateway/signal_client.py:174-181 | the strip map is monotone and never stretches |
| MarkdownStrip.RangeHoldsSurvivors | src/bt_signal_gateway/signal_client.py:174-202 | the image of any range holds exactly the characters of it that survive |
| MarkdownStrip.KeptCharacter | src/bt_signal_gateway/signal_client.py:174-202 | `result[_adj(i)] == text[i]` for every kept `i` |
| MarkdownStrip.CapturedTextSelected | src/bt_signal_gateway/signal_client.py:192-200 | an accepted match's style covers exactly its captured text |
| MarkdownStrip.ClearRangeUntouched | src/bt_signal_gateway/signal_client.py:152-161 | a range no accepted span overlaps keeps every character |
| MarkdownStrip.RemovalsSorted | src/bt_signal_gateway/signal_client.py:164-172 | the removal list is built in order |
| MarkdownStrip.ShiftStep | src/bt_signal_gateway/signal_client.py:174-181 | moving on by one position adds one to the shift exactly when that position is a marker |
| MarkdownStrip.ShiftIsExact | src/bt_signal_gateway/signal_client.py:174-181 | `_adj(p)` is the number of kept positions below `p`, for every `p`, past the end included |
| MarkdownPhase.CollectCode | src/bt_signal_gateway/signal_client.py:153-155 | the occupied list starts as the MONOSPACE ranges, in order |
| MarkdownPhase.SelectMatches | src/bt_signal_gateway/signal_client.py:156-161 | the two loops compute the selection that `Markdown.AcceptedIff` characterizes |
| MarkdownPhase.BuildRemovals | src/bt_signal_gateway/signal_client.py:166-172 | builds the removal list and sorts it |
| MarkdownPhase.SumShift | src/bt_signal_gateway/signal_client.py:174-180 | the loop, which stops early, adds up the shift of the whole removal list |
| MarkdownPhase.Adj | src/bt_signal_gateway/signal_client.py:174-181 | `_adj` counts the kept positions below `pos` |
| MarkdownPhase.AdjustPrior | src/bt_signal_gateway/signal_client.py:183-188 | carries every earlier style over by the strip map, dropping those left empty |
| MarkdownPhase.StripMarkers | src/bt_signal_gateway/signal_client.py:191-201 | one pass yields exactly the kept characters, and records where each captured text lands |
| MarkdownPhase.EmitStyles | src/bt_signal_gateway/signal_client.py:206-214 | converts every style that lies within the text to UTF-16 units |
| MarkdownPhase.ConvertInline | src/bt_signal_gateway/signal_client.py:152-216 | the whole phase: exactly the candidates with nothing in their way are honoured, the plain text is what survives, and each accepted match and each surviving earlier style is emitted exactly once, in ascending order |
| MarkdownPhase.OutputExactly | src/bt_signal_gateway/signal_client.py:183-216 | the same equivalence for the specified output |
| MarkdownPhase.OutputOnce | src/bt_signal_gateway/signal_client.py:183-216 | the styles emitted are, with their multiplicities, those of the accepted matches and of the earlier styles of which something survives |
| MarkdownPhase.OutputAscending | src/bt_signal_gateway/signal_client.py:204-214 | the styles come out in ascending order of their UTF-16 start, then length, then name |
| MarkdownPhase.AdjustedInBounds | src/bt_signal_gateway/signal_client.py:184-211 | the adjustment and the safety check together keep an earlier style exactly when it lies in the text and some character of it survives |
| MarkdownPhase.RangeOutputSelects | src/bt_signal_gateway/signal_client.py:206-214 | an emitted offset and length decode to exactly the surviving characters of the style's range |
| MarkdownPhase.MatchStyleSelects | src/bt_signal_gateway/signal_client.py:192-216 | each accepted match emits a style that decodes to exactly its captured text |
| MarkdownPhase.CodeKeptVerbatim | src/bt_signal_gateway/signal_client.py:148-216 | each earlier MONOSPACE range keeps every character, markers included, and its style still selects it |
| Utf16.RoundTrip | src/bt_signal_gateway/signal_client.py:75-77 | decoding undoes encoding (section 2 of RFC 2781) |
| Utf16.Utf16LenIsUnits | src/bt_signal_gateway/signal_client.py:75-77 | half the length of the little-endian bytes is the number of code units |
| Utf16.RangeSelects | src/bt_signal_gateway/signal_client.py:206-214 | the units at `u16_start`, `u16_len` lie within bounds, cut no surrogate pair, and decode to exactly the range |
| Mentions.RenderMentions | src/bt_signal_gateway/envelope.py:70-82 | for every list of mentions computes the splices of the code; for disjoint non-empty ones inside a text that holds the placeholder, the simultaneous substitution |
| Mentions.RenderedIsSubstituted | src/bt_signal_gateway/envelope.py:70-82 | splicing backwards equals substituting all mentions at once; without a placeholder the text is unchanged |
| Mentions.OrderDoesNotMatter | src/bt_signal_gateway/envelope.py:77 | the order in which mentions are listed does not matter |
| Mentions.RenderedLength | src/bt_signal_gateway/envelope.py:75-82 | the exact change in length |
| Mentions.SplicingOrder | src/bt_signal_gateway/envelope.py:77 | mentions are spliced from the last start to the first, those with the same start in the order given |
| Mentions.TagNamesFirst | src/bt_signal_gateway/envelope.py:80 | the tag is "@" and the first identifier that is there: name, number, uuid, or else "user" |
| Mentions.BareMention | src/bt_signal_gateway/envelope.py:78-81 | a mention without any field replaces the first character by "@user" |
| Dedup.CompletedKeys.constructor | src/bt_signal_gateway/dedup.py:37-48 | starts empty, with the sweep clock at the current instant |
| Dedup.CompletedKeys.MaybeSweep | src/bt_signal_gateway/dedup.py:67-73 | an entry stays if and only if it has not expired or the interval since the last sweep is not over |
| Dedup.CompletedKeys.IsCompleted | src/bt_signal_gateway/dedup.py:50-55 | answers as the map before the sweep would |
| Dedup.CompletedKeys.MarkCompleted | src/bt_signal_gateway/dedup.py:57-61 | sweeps, then sets or refreshes the expiry of the key |
| Dedup.LazyAgrees | src/bt_signal_gateway/dedup.py:50-73 | over every monotone run the swept map holds the latest mark of each key it has, and whatever it dropped has expired |
| Dedup.LazySweepIsInvisible | src/bt_signal_gateway/dedup.py:50-73 | over every monotone run `is_completed` answers exactly like a map that is never swept |
| Dedup.EntriesAreRecent | src/bt_signal_gateway/dedup.py:50-73 | after each access every stored entry was marked less than ttl + sweep_interval ago |
| SignalLog.TokensMatchAttachments | src/bt_signal_gateway/signal_client.py:443-451 | under the pacing discipline as many tokens are reserved as attachments are carried by RPCs, retries included |
| PacedSending.PrefixInProgress | src/bt_signal_gateway/signal_client.py:443-470 | a delivery that will have kept the pacing discipline has a log in progress at every moment before |
| PacedSending.CarriedIsReserved | src/bt_signal_gateway/signal_client.py:443-451 | at every moment of a delivery, no more attachments have gone out than tokens were reserved |
| PacedSending.WireIsPaced | src/bt_signal_gateway/signal_client.py:432-470 | if every reservation is a granted pass of a run of the bucket, all RPCs together carry at most capacity + highest rate * elapsed time attachments |
| PacedFleet.MoveKeepsInv | src/bt_signal_gateway/signal_client.py:443-470 | no move of the bucket or of a delivery breaks a log in progress, or leaves a caller waiting in the middle of something else |
| PacedFleet.Project | src/bt_signal_gateway/signal_client.py:443-451 | in any run of deliveries and bucket, the bucket's part is a run of the scheduler that granted exactly what the logs reserved |
| PacedFleet.FleetIsPaced | src/bt_signal_gateway/signal_client.py:432-470 | however many deliveries share the bucket and interleave, all their RPCs together, retries included, carry at most capacity + highest rate * elapsed time attachments |
| PacedFleet.FleetIsPacedByDefault | src/bt_signal_gateway/signal_rate_limit.py:35-37 | for the default scheduler, unless a 429 calibrates a faster rate: fifty, and one more every four seconds |
| SignalClient.BatchesPartition | src/bt_signal_gateway/signal_client.py:508-511 | the batches concatenate to the paths; each has 1 to 32 items and all but the last have 32 |
| SignalClient.CutBatches | src/bt_signal_gateway/signal_client.py:508-511 | the comprehension computes these batches |
| SignalClient.Client.Reserve | src/bt_signal_gateway/signal_client.py:444 | raises exactly when the request exceeds the bucket |
| SignalClient.Client.Attempt | src/bt_signal_gateway/signal_client.py:443-469 | one reservation of its own size, one RPC, and the reaction the outcome calls for |
| SignalClient.PauseBetweenAttempts | src/bt_signal_gateway/signal_client.py:453-457 | an RPC without a result is followed by two seconds of pause if it is retried, and by nothing otherwise |
| SignalClient.Client.SendAttachmentBatch | src/bt_signal_gateway/signal_client.py:432-470 | one RPC for this batch and recipient if that is accepted, and otherwise exactly two; True exactly when the last was accepted; the RPCs determine the whole log: the reservation before each, and the report, the feedback or the pause of 2 seconds behind it; raises only beyond the bucket, before any RPC |
| SignalClient.AttemptAlone | src/bt_signal_gateway/signal_client.py:443-469 | the log of one attempt keeps the pacing discipline |
| SignalClient.AttemptsJoin | src/bt_signal_gateway/signal_client.py:443-470 | so do two attempts in a row |
| SignalClient.EachIsTried | src/bt_signal_gateway/signal_client.py:513-520 | every batch is sent at least once, whatever became of those before it |
| DeliveryPlan.DeliveredBatches | src/bt_signal_gateway/signal_client.py:513-521 | where every batch was tried, the files delivered are those of the accepted batches, in order |
| DeliveryPlan.StoredInOrder | src/bt_signal_gateway/dispatch.py:393-410 | what was downloaded keeps its order |
| DeliveryPlan.BrokeIff | src/bt_signal_gateway/dispatch.py:201-340 | a delivery attempted as it has to be ends with an exception if and only if some leaf raised, or the text was due with a chunk size below 1 |
| DeliveryPlan.FailuresStopNothing | src/bt_signal_gateway/dispatch.py:188-417 | otherwise no refused chunk, failed download or undeliverable batch keeps any other chunk, download or batch from being attempted |
| DeliveryPlan.EveryFileIsSent | src/bt_signal_gateway/signal_client.py:513-521 | in particular, every file that was downloaded is carried by some RPC |
| DeliveryPlan.TextsAreTheFallback | src/bt_signal_gateway/dispatch.py:283-294 | no text is attempted beside an accepted voice note |
| DeliveryPlan.VoiceThenTextThenFiles | src/bt_signal_gateway/dispatch.py:278-303 | all that is done about the voice note comes before any text, and all that is done about the files after it |
| DeliveryPlan.NothingFailedDelivers | src/bt_signal_gateway/dispatch.py:201-340 | if everything that is attempted succeeds, then everything is delivered |
| Delivery.SendOneBatch | src/bt_signal_gateway/signal_client.py:513-520 | a batch of at most 32 cannot raise, is sent once or twice, and is delivered whole or not at all |
| Delivery.SendAttachments | src/bt_signal_gateway/signal_client.py:492-521 | the RPCs fall into one group for each batch, in order, a failed batch included; exactly the batches whose last RPC was accepted are delivered; True if and only if these carry all the paths |
| Delivery.DeliverAttachments | src/bt_signal_gateway/dispatch.py:385-417 | each URL is fetched in turn, a failed download included, and all that was stored is handed to the batch loop, unless a download raised; True if and only if every attachment was downloaded and the accepted batches carry exactly the downloaded files |
| Delivery.AllCounted | src/bt_signal_gateway/dispatch.py:188-198 | `sent == expected` holds exactly when every chunk went out |
| Delivery.SendChunks | src/bt_signal_gateway/dispatch.py:189-197 | the chunks are attempted in order, refused or not, up to the first that raises; it raises exactly then, and counts those that were sent |
| Delivery.SendTextChunks | src/bt_signal_gateway/dispatch.py:176-198 | the same for the chunks of `chunk_message(text)`; the pair returned agrees exactly when every chunk was sent, once and in order, to the recipient |
| Delivery.FetchVoiceNote | src/bt_signal_gateway/dispatch.py:352-377 | the voice URL is fetched first if there is one, and the inline audio is decoded exactly when that yields nothing; sends nothing |
| Delivery.DeliverVoiceNote | src/bt_signal_gateway/dispatch.py:343-382 | audio that was found is sent as one voice note, once or twice; True exactly when it was accepted; raises exactly when the search for audio did; never sends text |
| Delivery.WrittenReply | src/bt_signal_gateway/dispatch.py:317-324 | without a voice note, `reply_ok` is exactly: every chunk sent, and something sent if a voice reply was due |
| Delivery.DeliverReply | src/bt_signal_gateway/dispatch.py:269-324 | the voice note is tried if there is one, and every chunk of the text unless a voice note was accepted; raises exactly when one of these did; `reply_ok` if and only if one voice note alone, or every chunk of the text, was delivered, or there was nothing to say |
| Delivery.DeliverAll | src/bt_signal_gateway/dispatch.py:269-324 | reply and attachments are attempted as far as they have to be; it raises exactly when one of them broke off; the two parts of the verdict hold if and only if the log shows a full delivery |
| Delivery.ReactionChangesNothing | src/bt_signal_gateway/dispatch.py:147-173 | the closing reaction never changes whether the log shows a full delivery |
| Delivery.React | src/bt_signal_gateway/dispatch.py:147-173 | one reaction with the given emoji exactly when the message key is a timestamp, and nothing else |
| Delivery.DispatchComplete | src/bt_signal_gateway/dispatch.py:262-340 | voice, text and files are attempted in this order, each as far as it has to be; it raises exactly when that broke off; True if and only if the log shows the reply and every attachment delivered in full; all to the payload's recipient, all paced, and closed by the completion reaction |
| Delivery.DispatchError | src/bt_signal_gateway/dispatch.py:242-246 | attempts exactly one text, the fallback message, and then the error reaction unless that raised; True exactly when the text was sent |
| Delivery.DispatchCallback | src/bt_signal_gateway/dispatch.py:201-340 | what is attempted for each type of callback, and what its result means; to the chat if one is named, and else to the user |
| CallbackServer.App.constructor | src/bt_signal_gateway/callback_server.py:84-89 | starts with nothing in flight and the given cache |
| CallbackServer.CreateApp | src/bt_signal_gateway/callback_server.py:84-89 | an injected cache is used as it is; otherwise a fresh one with a TTL of ten minutes and a sweep interval of one minute |
| CallbackServer.App.ProgressCallback | src/bt_signal_gateway/callback_server.py:95-152 | the whole new state for every kind of request; 401 exactly for a wrong token, 400 exactly for a malformed body, 503 exactly for a callback that cannot be delivered, and none of them changes anything |
| CallbackServer.App.Settle | src/bt_signal_gateway/callback_server.py:64-68 | marks on success only; always releases the key |
| CallbackServer.App.DeliverAndMark | src/bt_signal_gateway/callback_server.py:43-68 | one delivery whose log accounts for its result; anything but True, raising included, leaves the key unmarked |
| CallbackRuns.StepKeepsInv | src/bt_signal_gateway/callback_server.py:43-152 | every step keeps the invariant below |
| CallbackRuns.InvAlways | src/bt_signal_gateway/callback_server.py:43-152 | in every reachable state the in-flight set is exactly the keys with an unfinished delivery, one each; none of them is completed; accepted = successes + failures + outstanding |
| CallbackRuns.CacheRemembersRecentDeliveries | src/bt_signal_gateway/callback_server.py:57-68 | the lazily swept cache reports a key completed if and only if a delivery of it succeeded less than the TTL ago |
| CallbackRuns.InFlightIsOutstanding | src/bt_signal_gateway/callback_server.py:139-152 | a key is in flight if and only if a delivery of it is unfinished |
| CallbackRuns.AcceptedIff | src/bt_signal_gateway/callback_server.py:136-152 | a complete callback starts a delivery if and only if none of its key is unfinished and none succeeded less than the TTL ago |
| CallbackRuns.NoRedeliveryWithinTtl | src/bt_signal_gateway/callback_server.py:142-152 | after a success at `t` no delivery of the key starts before `t + ttl` |
| CallbackRuns.SuccessesAreApart | src/bt_signal_gateway/callback_server.py:57-152 | two full deliveries of one key are at least the TTL apart |
| CallbackRuns.FailureLeavesRedeliverable | src/bt_signal_gateway/callback_server.py:58-68 | after a failed or raising attempt the next complete callback for the key is accepted |
| CallbackRuns.TaskOrigin | src/bt_signal_gateway/callback_server.py:149-151 | every unfinished delivery comes from one accepted callback and carries its payload |
| CallbackRuns.CompletedMeansDelivered | src/bt_signal_gateway/callback_server.py:57-68 | a key found completed was delivered in full by one single attempt at one accepted callback, within the TTL: its voice note, or every chunk of its text, or nothing to say, and every attachment downloaded and sent |
| CallbackRuns.RaisesIff | src/bt_signal_gateway/callback_server.py:57-62 | over a run: a delivery raises if and only if a leaf did, or the text was due and the chunk size is below 1 |
| CallbackRuns.FlawlessDeliveryCompletes | src/bt_signal_gateway/callback_server.py:57-68 | over a run: a delivery in which nothing failed completes its key, for as long as the TTL |

## Left out

- Phases 1 and 2 of `markdown_to_signal` (fences and headings): their styles are arbitrary inputs here. Phase 2 removes heading markers without shifting the fence ranges of phase 1, so those ranges need not point at the code when a heading precedes a fence; the theorems speak about the ranges that phase 3 is given.
- The regular-expression engine: the inline patterns yield arbitrary well-formed candidates, and the three patterns of the chunker are written out as scans.
- The `start:length:STYLE` strings; styles stay triples.
- Lone surrogates: Dafny's `char` cannot hold them. Encoding a text that has one raises in the source, which here is a send that raises.
- Floating point: tokens, rates and times are exact reals, so a wait computed from a deficit is exact.
- The asyncio lock and event loop: each critical section has no suspension point and is one atomic step; a sleep lasts at least as long as asked.
- RateLimit.Scheduler.Acquire: speaks about a sole caller, because the object has one caller at a time; for callers that interleave, `RateLimitGrants` and `RateLimitPasses` bound grants and passes and `RateLimitOrder.AcquireReturns` says what each of them gets and reports.
- SignalClient.Client.Reserve: abstracts from the waiting; it keeps the error and records the reservation. `PacedFleet` puts the waiting back: there a reservation enters a delivery's log by a granted pass of the shared bucket.
- SignalClient.Client.EstimateWait: any value, since it only decides whether a notice is sent.
- `state()` of the scheduler, `_format_wait`, the send timeout and the parsing of 429 errors.
- The text and the outcome of the pacing notice, which never changes the result of a delivery.
- Captions of `send_attachments`, which the delivery path does not use, and `send` with attachments.
- HTTP, JSON-RPC, SSE, FastAPI, downloads, base64 decoding and temporary files: each is a leaf with a free outcome. Opening and closing the temporary workspace and the download client is taken not to raise.
- Recipient and UUID resolution: a message is addressed by the identifier it is sent to.
- Reactions: whether the message key can be read as a number is part of the payload, and the failure of a reaction is ignored as in the source.
- Which exception ended a delivery: that it ended with one is exact, its kind is not.
- Parsing of callback bodies: a request is malformed or carries a payload; absent strings are empty ones, as `_str_or_none` makes them.
- Task cancellation and process shutdown: `_deliver_and_mark` handles ordinary exceptions, and so does the model.
- The background tasks of progress and error callbacks, which touch no server state; what they send is `Delivery.DispatchCallback`.
- `CompletedKeys.size` and `/health`, which only report; settings and logging, which decide nothing here beyond the values that appear as parameters.
- The inbound side: `parse_envelope` apart from mentions, the listener's reconnect loop and `EngineClient.submit`. They carry messages to the worker and share no state with the delivery of its replies.
