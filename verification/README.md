# Archive worker and console: verified core

This project models the parts of the WhatsApp archive whose correctness is not visible from any one function:
the lease protocol that cuts each group's messages into memory batches, the ingest queue and its message store,
the membership sync, the staged-action executor and the send dispatcher, and the parsers and printers between
them. It proves what they promise for every input, every run and every interleaving.

`dafny verify dfyconfig.toml` checks everything.

## How it is built

- A collection is a map from keys to rows, and a filtered update, an insert or a committed transaction is one
  step. A protocol is a state machine whose actions are those steps and the crashes between them; a run is any
  sequence of enabled actions, so every interleaving of any number of processes is covered. Clock values are
  free at each step, and tokens are fresh.
- Code that updates variables in loops is a method with invariants, tied to a specification function; code that
  updates an object's fields is a class with those fields. The properties are proved about the specifications.
- Library behaviour is a parameter: `deflate`, the case mapping of key order, search folding, address parsing,
  the length of a value's JSON, the answers of the database, the bridge and the store.

| files | what they model |
|---|---|
| `Keys`, `MemoryCut`, `MemoryRows`, `MemoryBatches`, `MemoryFencing`, `MemoryDrain`, `MemoryCoverage`, `MemorySlots`, `MemoryStore` | the memory-batch protocol and its processor slots |
| `Ingest`, `MessageStore` | the ingest queue and the message rows |
| `GroupMerge`, `GroupSync`, `GroupTraffic` | the membership snapshot merge, the sync, and the sync beside message traffic |
| `Execute`, `Dispatch`, `DispatchRuns` | at-most-once actions and sends |
| `Terminal`, `Qr`, `Crc`, `Folds`, `Png`, `Pairing`, `Prompts`, `Chunking` | the pairing wizard: terminal output, QR symbol, PNG picture, prompts, chunks |
| `Scalars`, `Csv` | code points and the CSV reader |
| `Bytes`, `Utf8`, `RawSearch`, `RawPaths` | bytes, UTF-8 and the searchable text of a raw message |
| `Envelopes`, `Summarize` | the quoted, budgeted prompt |
| `IsoBoxes`, `MovieDuration`, `Jpeg` | media containers |

## Where the code and its promises differ

For each of these the exact condition is proved, and for most a concrete case.

- The CSV flag `truncated` also goes up for a cell of more than 2000 UTF-16 units but at most 2000 code points,
  which is not cut (`Csv.TruncatedMeansCut`, `Csv.FalseAlarmExample`).
- As a function of any bytes, the early-stopping search text keeps a trailing newline the simple form would cut,
  exactly when a later leaf crosses the cap and holds nothing up to it that could begin a character
  (`RawSearch.WalkIsSimple`, `RawSearch.StrayExample`). Valid text never does, and `json.Unmarshal` makes every
  string of the code's own trees valid, so for them the two forms agree (`RawSearch.ValidWalk`).
- A pruned tree is said never to overshoot its budget, but when nothing fits the marker that stands for it is
  not measured. What pruning returns is within the budget exactly when, if something is kept, the escapes of the
  kept keys fit in what the estimate left over, and if nothing is, the marker is no longer than the budget
  (`RawSearch.PrunedFits`). The code's own trees have plain field names for keys, so they overshoot exactly when
  no entry fits alone and the budget is smaller than the marker (`RawSearch.PlainKeysOvershoot`,
  `RawSearch.MarkerOvershoots`). That a key with an escape overshoots is a fact about the function alone
  (`RawSearch.EscapedKeyOvershoots`).
- What the wizard has *seen* is its cleaned output exactly when no chunk boundary falls inside a colour escape
  (`Chunking.SeenIsWhole`). What it *answers* depends on less. An escape left in the text changes the answers
  exactly when it hides a marker without making one up or the other way round, or when it does so to the words
  "Re-pair?" in the next marker's question (`Prompts.SameAnswers`); it makes up a marker only as `ESC[y` before
  `/N]` (`Prompts.MakesUpMarker`). Over any chunks, there are as many answers as to the whole output less the
  hidden prompts and more those made up (`Chunking.AnswersAreCounted`); no harmful cut means the same answers
  and a single one means others (`Chunking.AnswersAreWhole`, `Chunking.Feed`), while two may cancel out
  (`Chunking.TwoHarmsCancel`). The report of the pairing is seen as in the whole output exactly when an even
  number of cuts flip it (`Chunking.ReportIsWhole`). Cases: `Chunking.CutPromptIsLost`,
  `Chunking.CutEscapeMakesPrompt`, `Chunking.CutTextIsHarmless`.
- A symbol of fewer than 28 modules is never read back, because its lines are shorter than 30 characters
  (`Qr.PrintedReadsBack`).
- `isoBoxes` fails exactly when it comes to a declared size that wraps the 64-bit offset around
  (`IsoBoxes.FailsAtOverflow`, `IsoBoxes.WrapExample`).
- A movie header in the 64-bit size form is read eight bytes too early. Below 2^56 bytes, version 0 reports its
  two dates and version 1 the halves of its creation time (`MovieDuration.WideMvhdReadsDates`). A header reads
  back exactly when it is in the 32-bit form or those fields happen to hold its timing
  (`MovieDuration.MvhdReadsBackExactly`).
- The documents that saves report as new number the rows exactly when every upsert a failed bulk write got
  through met a row that was there (`MessageStore.Serve`, `MessageStore.UncountedRow`). The drop counter's
  comment says a lost batch never reached the database; a bulk write that failed may have written part of it.
- A send can be delivered twice. From any reachable state in which it was not, runs whose failures are told
  truly lead there exactly when it was delivered once and may still be sent
  (`DispatchRuns.SecondDeliveryExactly`); that delivery was then reported as an unreachable bridge
  (`DispatchRuns.SecondNeedsMisjudged`). What an owner sees of it is a failed request with the class `rejected`
  and attempts left (`DispatchRuns.FailedAgainExactly`). While such failures never delivered, at most once holds
  (`Dispatch.AtMostOneDelivery`); a case where they did is `Dispatch.DoubleDelivery`.
- An approval is accepted whatever the attempts, but can be acted on exactly while some are left
  (`DispatchRuns.ApprovalIsActedOn`, `Dispatch.SpentAttemptsAreFinal`).
- A message that arrives with a key the group's batches have passed is never batched, and neither is one that
  became eligible only after the range it falls in was read. A key the chain has reached is batched exactly when
  its message was stored and eligible when that range was read (`MemoryCoverage.CoveredExactly`,
  `MemoryCoverage.LeftOutForGood`, `MemoryCoverage.LateArrivalIsLeftOut`).
- A group first heard of through a message while a sync runs, and not in its answer, is marked left exactly when
  the message came before the baseline was read (`GroupTraffic.NewGroupIsLeft`).

## Model

| member | source | states |
|---|---|---|
| Keys.LessIsStrictTotal | apps/worker/memory_batches.go:320-326 | the (timestamp, id) order of the queries is irreflexive and compares any two keys one way only |
| Keys.LessIsTransitive | apps/worker/memory_batches.go:320-326 | and is transitive, so it is a strict total order and a watermark splits a group's messages cleanly |
| Keys.StringOrder | apps/worker/memory_batches.go:320-326 | strings are compared at the first place where they differ, and a proper prefix comes first |
| Keys.DatesFollow | apps/worker/memory_batches.go:61-63 | a day on, the date a timestamp is formatted from is the calendar's next one, with its leap years |
| Keys.EpochDate | apps/worker/memory_batches.go:61-63 | and 1970-01-01 is where it is |
| Keys.CivilRoundTrip | apps/worker/memory_batches.go:61-63 | the UTC date and time a timestamp is formatted from determine it |
| Keys.PredecessorForm | apps/worker/memory_batches.go:61-63 | the stored string, part by part: date, time, fraction, a zero character and the message id |
| Keys.FractionForm | apps/worker/memory_batches.go:61-63 | the fraction is the milliseconds' three digits without the zeros they end in |
| Keys.PredecessorIsInjective | apps/worker/memory_batches.go:61-63 | two keys never share a stored predecessor, and none equals the origin |
| MemoryCut.CutShape | apps/worker/memory_batches.go:345-361 | a range is a non-empty prefix of what remains, at most 150 rows and 24 hours; it stops short of 100 rows only at the end of the stream or the day, goes past 100 only inside a run of equal timestamps, and splits such a run only at exactly 150 |
| MemoryCut.LimitIsEnough | apps/worker/memory_batches.go:326 | reading 151 rows cuts where the unlimited stream is cut |
| MemoryCut.DrainPartitions | apps/worker/memory_batches.go:312-362 | building and completing in turn yields exactly the sorted messages, each once and in order |
| MemoryCut.DrainShape | apps/worker/memory_batches.go:312-362 | every range of a drained stream has that shape |
| MemoryCut.DrainStep | apps/worker/memory_batches.go:312-362 | after the first k ranges the next cut is range k, and nothing remains exactly after the last |
| MemoryCut.Fetch | apps/worker/memory_batches.go:331-341 | the cursor loop reads the first rows up to the limit |
| MemoryCut.BoundToWindow | apps/worker/memory_batches.go:345-352 | the loop keeps the rows of the first day |
| MemoryCut.ExtendRun | apps/worker/memory_batches.go:356-360 | the loop extends the cut through the run of equal timestamps |
| MemoryCut.NextMessages | apps/worker/memory_batches.go:312-362 | the whole method returns the cut of the unlimited stream |
| MemoryRows.RetryDelayDoubles | apps/worker/memory_batches.go:446-459 | the retry delay is five minutes doubled per further attempt, at most six hours: the early cut-off changes nothing |
| MemoryBatches.StepKeepsInv | apps/worker/memory_batches.go:231-444 | every database step of any worker, the console or message arrival keeps the chain, row, token and local invariants |
| MemoryBatches.ReachableIsChained | apps/worker/memory_batches.go:231-310 | in every reachable state a group's batches form one chain |
| MemoryBatches.RangesAreOrdered | apps/worker/memory_batches.go:282-310 | two ranges of a group are disjoint and ordered, and the earlier one is complete: at most one batch is outstanding |
| MemoryBatches.PredecessorsAreDistinct | apps/worker/mongo.go:86-87 | no two batches share a predecessor, which is the origin or a completed batch's last key |
| MemoryBatches.InsertGoesLast | apps/worker/memory_batches.go:275-278 | the unique predecessor index leaves a stale builder no place but after the chain's last, completed batch |
| MemoryBatches.DeadIsLast | apps/worker/memory_batches.go:282-293 | nothing is ever built after a dead batch |
| MemoryBatches.NoMessageTwice | apps/worker/ingest.go:296-313 | no message is in two batches, of one group or two |
| MemoryBatches.QuietBuildSucceeds | apps/worker/memory_batches.go:231-280 | with nothing outstanding and a true watermark the insert collides with no index |
| MemoryBatches.FailureReadIsCurrent | apps/worker/memory_batches.go:420-444 | the attempts a failure read are still the row's when its write matches |
| MemoryFencing.FormerHolderIsInert | apps/worker/memory_batches.go:397-444 | after its lease ended nothing a former holder does changes any row, over every run |
| MemoryFencing.RecoveryLosesToken | apps/worker/memory_batches.go:405-418 | recovering an expired lease loses its token for good |
| MemoryFencing.OnlyHolderOrSweep | apps/worker/memory_batches.go:397-444 | a leased row is moved only under its token, or by a sweep after it expired |
| MemoryFencing.FailureDecidesOnCurrentAttempts | apps/worker/memory_batches.go:428-436 | a failure buries the row exactly when it is terminal or the row has no attempts left, though it reads and writes in two steps |
| MemoryFencing.FailureLands | apps/worker/memory_batches.go:420-444 | a failure its holder reports lands, with the outcome its attempts allow |
| MemoryFencing.ClaimsAreBounded | apps/worker/memory_batches.go:366-395 | over every run a batch is claimed at most five times |
| MemoryFencing.NothingIsStranded | apps/worker/memory_batches.go:378-414 | processing holds exactly with a lease, a waiting row becomes due, and an expired one is recovered |
| MemoryFencing.NoEarlyClaim | apps/worker/memory_batches.go:366-395 | over every run no claim of a batch carries a time before the one it was last told to wait for |
| MemoryFencing.BackOffIsKept | apps/worker/memory_batches.go:420-459 | after a failure with n attempts left to retry, no claim carries a time before 80% of five minutes doubled n - 1 times has passed |
| MemoryFencing.BackOffEnds | apps/worker/memory_batches.go:420-459 | and from 120% of it on the batch may be claimed |
| MemoryFencing.ClaimKeeps | apps/worker/memory_batches.go:378-395 | a claim takes one attempt and keeps its batch two minutes, whatever other processes do |
| MemoryFencing.HeartbeatKeeps | apps/worker/memory_batches.go:397-403 | and so does a heartbeat of its holder |
| MemoryFencing.CompletionStands | apps/web/src/server/repos/memory.ts:135-246 | a completion under a live lease stands over every run and changes nothing else of the batch |
| MemoryFencing.OnlyLiveHolderCompletes | apps/web/src/server/repos/memory.ts:43-52 | and nothing else completes a batch |
| MemoryDrain.AnyInterleavingDrains | apps/worker/memory_batches.go:231-362 | however workers race, a group's batches are the first ranges of its drained stream |
| MemoryDrain.NothingLeftMeansDrained | apps/worker/memory_batches.go:342-344 | when a builder finds nothing, the chain holds every message once and in order |
| MemoryDrain.StreamExists | apps/worker/memory_batches.go:312-341 | after any mark there is one sorted stream, and it holds exactly the keys of the group's stored messages that are not revoked, nor of a revoked kind, and come after the mark |
| MemoryDrain.OneWorkerBuilds | apps/worker/memory_batches.go:231-280 | from any state the protocol keeps, an undisturbed pass over a group with nothing outstanding adds the next range, with every field of its row, and changes no other |
| MemoryDrain.CheckDecides | apps/worker/memory_batches.go:282-293 | a check that finds a batch of the group not completed ends the pass, and any other lets it go on |
| MemoryDrain.InsertFailsExactly | apps/worker/mongo.go:86-87 | the insert fails exactly when a row of the group has the same predecessor, or the same first and last key |
| MemoryDrain.ReceivedIsAwaited | apps/worker/ingest.go:296-313 | a message first received is awaited by its group; received again it moves nowhere |
| MemoryDrain.EditDecides | apps/worker/memory_batches.go:312-341 | a message is awaited exactly while neither it nor its kind is revoked |
| MemoryCoverage.CoveredExactly | apps/worker/memory_batches.go:231-362 | with messages arriving all the while, a key the chain has reached falls in one range and is batched, there alone, exactly when it was stored and eligible when that range was read |
| MemoryCoverage.CoversStay | apps/worker/memory_batches.go:312-341 | what was read for a batch is fixed once it is built |
| MemoryCoverage.LeftOutForGood | apps/worker/memory_batches.go:295-330 | what the chain has passed without batching is never batched, over every run |
| MemoryCoverage.LateArrivalIsLeftOut | apps/worker/memory_batches.go:312-330 | a message that arrives behind the chain's end is eligible and never batched |
| MemoryCoverage.NothingLeftMeansCovered | apps/worker/memory_batches.go:342-344 | when a builder finds nothing, every eligible message is batched or was not eligible when its range was read |
| MemoryStore.Store.BuildGroup | apps/worker/memory_batches.go:231-280 | one pass adds the next range or nothing, as the protocol's steps do |
| MemoryStore.Store.CompletedWatermark | apps/worker/memory_batches.go:295-310 | the greatest last key of the completed batches, or none |
| MemoryStore.Store.Claim | apps/worker/memory_batches.go:366-395 | leases the oldest batch that is ready or waits for a retry whose time has come, has fewer than five attempts and no live lease, for two minutes under a new token; returns none exactly when there is none |
| MemoryStore.Store.Heartbeat | apps/worker/memory_batches.go:397-403 | extends a lease its caller holds, and tells a former holder it is gone |
| MemoryStore.Store.RecoverExpired | apps/worker/memory_batches.go:405-418 | afterwards no expired lease is left, and only such rows changed, to dead or retryable by their attempts |
| MemoryStore.Store.Fail | apps/worker/memory_batches.go:420-444 | the holder's failure makes the row dead or due again; anyone else's changes nothing |
| MemorySlots.StepKeepsInv | apps/worker/memory_batches.go:144-184 | every update of a slot by any process, whatever earlier time it carries, keeps each process that counts on its slot backed by the slot's row |
| MemorySlots.AtMostLimit | apps/worker/memory_batches.go:144-184 | over every run at most `limit` processes hold a slot that as far as they know has not expired, and each still has it |
| MemorySlots.FormerHolderIsInert | apps/worker/memory_batches.go:174-184 | once its slot was taken over a process never holds it again under that token, and is no longer at work |
| MemorySlots.FormerChangesNothing | apps/worker/memory_batches.go:174-184 | its heartbeats and releases change no slot, and its next answered heartbeat tells it so |
| MemorySlots.TakenOnceEnded | apps/worker/memory_batches.go:144-172 | a slot may be taken exactly from the moment its lease ends |
| MemorySlots.HeartbeatTells | apps/worker/memory_batches.go:174-180 | what a heartbeat does to the slot, and what its answer, or the lack of one, tells its caller |
| MemorySlots.ReleaseFrees | apps/worker/memory_batches.go:182-184 | a released slot may be taken at once; a failed release leaves the lease |
| MemoryStore.Store.AcquireProcessorSlot | apps/worker/memory_batches.go:144-172 | takes the first slot nobody holds, and fails exactly when all are held |
| MemoryStore.Store.HeartbeatProcessorSlot | apps/worker/memory_batches.go:174-180 | two minutes more for the slot's holder under its token, and nothing for anyone else, who is told |
| MemoryStore.Store.ReleaseProcessorSlot | apps/worker/memory_batches.go:182-184 | frees the slot for its holder only |
| Ingest.StepKeepsInv | apps/worker/ingest.go:71-189 | every step of producers, consumer and store keeps conservation, order and bounds |
| Ingest.NothingVanishes | apps/worker/ingest.go:71-189 | each offered document is written, lost, refused, in the channel or in the batch, exactly once; hand-over is first in, first out; depth and batch stay bounded |
| Ingest.RefusedWhenFull | apps/worker/ingest.go:71-85 | over every run a document is refused exactly when it is offered to a queue that is stopped or holds as many as it may |
| Ingest.FlushedWhenFull | apps/worker/ingest.go:173-177 | receiving hands the batch over exactly when it reached the flush size |
| Ingest.TickHandsOver | apps/worker/ingest.go:178-179 | a tick hands over what the batch holds, if anything, and leaves the queue open |
| Ingest.CancelHandsOverAll | apps/worker/ingest.go:180-186 | cancelling closes the queue and then hands over everything it held, in order |
| Ingest.OnlyCancelCloses | apps/worker/ingest.go:87-105 | over every run the queue is closed exactly when it was cancelled |
| Ingest.ShutdownSettles | apps/worker/ingest.go:126-188 | once the consumer returned nothing is buffered and everything is written or counted as dropped |
| Ingest.ClosedStaysClosed | apps/worker/ingest.go:87-105 | after the queue closes nothing is accepted and at most one flush follows |
| Ingest.IngestQueue.Enqueue | apps/worker/ingest.go:71-85 | appends the document while the queue is open and has room, and otherwise only counts it as dropped |
| Ingest.IngestQueue.Stop | apps/worker/ingest.go:92-105 | closes the queue and returns what it held, in order |
| Ingest.IngestQueue.Flush | apps/worker/ingest.go:139-169 | hands a non-empty batch over once; a refused one is counted |
| Ingest.IngestQueue.Take | apps/worker/ingest.go:173-177 | moves the oldest document to the batch and flushes a full one |
| Ingest.IngestQueue.Finish | apps/worker/ingest.go:180-186 | closes before the last flush |
| Ingest.IngestQueue.Run | apps/worker/ingest.go:131-189 | under any schedule the loop is a run of the machine and ends with nothing buffered |
| MessageStore.RowHolds | apps/worker/ingest.go:206-336 | one row per message: identity of its first delivery, parse of its last, media of the last outcome or the first descriptor, attempts counting the outcomes |
| MessageStore.RowsAreCreated | apps/worker/ingest.go:201-238 | the rows are those successful saves created and those failed ones did |
| MessageStore.ReportsCountRows | apps/worker/ingest.go:229-237 | however writes interleave, the rows successful saves created number all rows exactly when no failed save created one |
| MessageStore.Serve | apps/worker/ingest.go:201-238 | over any calls of the store the documents returned as new never outnumber the rows, and number them exactly when every upsert a failed bulk write got through met an existing row |
| MessageStore.UncountedRow | apps/worker/ingest.go:229-232 | a failed bulk write leaves a row no save ever reports |
| MessageStore.Store.Write | apps/worker/ingest.go:213-225 | an upsert creates the row or rewrites only its parse |
| MessageStore.Store.BulkWrite | apps/worker/ingest.go:227-236 | in any order of effect, the created documents are one for each new key |
| MessageStore.Store.Save | apps/worker/ingest.go:206-238 | returns each new document once, the one its row was made from, or fails with some rows made |
| MessageStore.Store.SaveMedia | apps/worker/ingest.go:271-285 | records an outcome and counts it, and ignores a message never stored |
| Scalars.FirstScalarsCount | apps/web/src/server/ai/sanitize-whatsapp.ts:87-90 | a cut at n code points keeps n, or all there are |
| Scalars.FirstScalarsAreFirst | apps/web/src/server/ai/sanitize-whatsapp.ts:87-90 | cutting a text in UTF-16 at n code points keeps the first n of the code points it was written from |
| Scalars.EveryStringDecodes | apps/web/src/server/ai/sanitize-whatsapp.ts:87-90 | and every UTF-16 string is such a text |
| Scalars.ClipIsFirstScalars | apps/web/src/server/ai/sanitize-whatsapp.ts:87-90 | the pre-slice never changes the result: exactly the first code points of any UTF-16 string |
| Csv.Reader.EndField | apps/web/src/server/mcp/media-tools.ts:390-396 | the bounded record stays the cut of the unbounded one, and the flag says so |
| Csv.Reader.EndRecord | apps/web/src/server/mcp/media-tools.ts:397-402 | the same for records |
| Csv.Reader.Read | apps/web/src/server/mcp/media-tools.ts:404-431 | one turn of the loop leaves the unbounded parse of the whole text, which AnyWriterReadsBack fixes, as it was |
| Csv.ParseCsv | apps/web/src/server/mcp/media-tools.ts:382-436 | the bounded reader returns the cut of the unbounded parse, its first record as the columns, flagged exactly when a bound was met or a quote left open |
| Csv.TruncatedMeansCut | apps/web/src/server/mcp/media-tools.ts:390-433 | the flag goes up exactly when something was cut, or a field is long in units only |
| Csv.NoAlarmWithoutSurrogates | apps/web/src/server/mcp/media-tools.ts:390-396 | text without surrogates raises no false alarm |
| Csv.FalseAlarmExample | apps/web/src/server/mcp/media-tools.ts:391-392 | a cell of 1001 to 2000 emoji is whole and flagged |
| Csv.RoundTrip | apps/web/src/server/mcp/media-tools.ts:382-436 | a table written with every field quoted (section 2 of RFC 4180) is read back whole and unflagged |
| Csv.AnyWriterReadsBack | apps/web/src/server/mcp/media-tools.ts:382-436 | whatever a writer leaves bare or quotes, wholly or in part, however it ends its lines and with a byte order mark or without, its table is read back and no quote is left open |
| Csv.OpenQuoteIsReported | apps/web/src/server/mcp/media-tools.ts:404-434 | a quote that is never closed takes the rest of the text and is reported |
| Csv.DropRows | apps/web/src/server/mcp/media-tools.ts:901-904 | keeps as many rows as fit the result, and refuses exactly when none do |
| Terminal.CleanInChunks | apps/web/src/server/hermes/pairing.ts:189 | cleaning two chunks gives the cleaned whole exactly when no escape is cut |
| Terminal.EscapeIsRemoved | apps/web/src/server/hermes/pairing.ts:189 | what is removed at the start of a text is exactly the colour escape it starts with |
| Terminal.CleanShows | apps/web/src/server/hermes/pairing.ts:189 | cleaning any output of plain text, carriage returns and colour escapes leaves exactly the plain text |
| Terminal.LinesOfJoin | apps/web/src/server/hermes/qr.ts:55 | joined lines split back into themselves |
| Pairing.AnswersExtend | apps/web/src/server/hermes/pairing.ts:116-121 | more output never changes an answer already due |
| Pairing.PromptGetsItsAnswer | apps/web/src/server/hermes/pairing.ts:106-121 | a prompt is answered by its own question, whatever follows |
| Pairing.Wizard.OnData | apps/web/src/server/hermes/pairing.ts:186-208 | after every chunk the answers written are the first eight due, and the gateway was restarted once if pairing was reported |
| Prompts.SameAnswers | apps/web/src/server/hermes/pairing.ts:116-121 | escape text left between two parts of an output leaves its answers alone exactly when it is harmless: it hides a marker or a wish to pair again exactly when it makes one up |
| Prompts.CountAround | apps/web/src/server/hermes/pairing.ts:116-121 | such text takes one answer away where it hides a marker and gives one where it makes one up |
| Prompts.ReportAround | apps/web/src/server/hermes/pairing.ts:38-40 | and changes whether the pairing is reported exactly when it hides or makes up the only report |
| Prompts.MakesUpMarker | apps/web/src/server/hermes/pairing.ts:116-121 | an escape begins a marker that the next text ends only as `ESC[y` before `/N]` |
| Prompts.MakesUpWish | apps/web/src/server/hermes/pairing.ts:116-121 | and begins "Re-pair?" only with its letter `R` before the rest |
| Prompts.ReplacedCase | apps/web/src/server/hermes/pairing.ts:116-121 | where one marker is hidden and another made up in its place, the answers agree |
| Prompts.IncludesAround | apps/web/src/server/hermes/pairing.ts:116-121 | what a text includes around an escape: what its parts do, and what the escape's letter begins |
| Chunking.SeenIsWhole | apps/web/src/server/hermes/pairing.ts:186-189 | what was seen is the cleaned output exactly when no chunk boundary cuts an escape |
| Chunking.CleanCutParts | apps/web/src/server/hermes/pairing.ts:186-189 | a cut leaves exactly its escape between what the whole output leaves |
| Chunking.AnswersAreWhole | apps/web/src/server/hermes/pairing.ts:183-210 | with at most one harmful cut, the answers are those of the whole output exactly when there is none |
| Chunking.AnswersAreCounted | apps/web/src/server/hermes/pairing.ts:183-210 | for every split into chunks the answers number those of the whole output less the hidden prompts and more those made up |
| Chunking.ReportIsWhole | apps/web/src/server/hermes/pairing.ts:201-207 | and the pairing is seen as reported as in the whole exactly when an even number of cuts flip it |
| Chunking.Feed | apps/web/src/server/hermes/pairing.ts:183-210 | for every split into chunks the answers written are the first eight of what was seen; those of the whole output when no cut does harm, and not when one does and fewer than eight are due; the gateway is restarted as for the whole output exactly when an even number of cuts flip its report |
| Chunking.CutPromptIsLost | apps/web/src/server/hermes/pairing.ts:189-198 | a prompt whose escape is cut is never answered |
| Chunking.CutEscapeMakesPrompt | apps/web/src/server/hermes/pairing.ts:189-198 | a cut escape that belongs to no prompt is answered as one |
| Chunking.CutTextIsHarmless | apps/web/src/server/hermes/pairing.ts:189-198 | a cut in text without brackets changes no answer |
| Chunking.TwoHarmsCancel | apps/web/src/server/hermes/pairing.ts:189-198 | two harmful cuts after which the answers agree again |
| Qr.ReadLine | apps/web/src/server/hermes/qr.ts:59-68 | the loop reads the two module rows of a line without its margins |
| Qr.CollectRows | apps/web/src/server/hermes/qr.ts:56-69 | the loop collects the rows of the symbol's lines, in order |
| Qr.TrimUniform | apps/web/src/server/hermes/qr.ts:75-77 | the loops remove the uniform rows at both ends |
| Qr.ModulesFromTerminalQr | apps/web/src/server/hermes/qr.ts:51-85 | the reader returns the square between the borders, or nothing |
| Qr.Palette | apps/web/src/server/hermes/qr.ts:59-68 | the four glyphs and the two modules each stands for |
| Qr.PrintedReadsBack | apps/web/src/server/hermes/qr.ts:18-85 | a printed symbol inside any text comes back unchanged exactly when it has at least 28 modules and neither end row is uniform |
| Qr.ReadIsSymbol | apps/web/src/server/hermes/qr.ts:70-84 | whatever is read is a square of at least 28 modules made of consecutive rows of the text |
| Crc.ReflectedIsPolynomial | apps/web/src/server/hermes/qr.ts:94 | the table's constant is the standard's polynomial, reflected |
| Crc.StepIsLinear | apps/web/src/server/hermes/qr.ts:94 | the shift step is linear over exclusive or |
| Crc.TableLookup | apps/web/src/server/hermes/qr.ts:102 | one look-up and shift replaces eight steps |
| Crc.BuildTable | apps/web/src/server/hermes/qr.ts:90-98 | entry n is eight steps of n |
| Crc.Crc32 | apps/web/src/server/hermes/qr.ts:100-104 | for every message the table-driven loop gives the bit-by-bit checksum of section 3.4 of RFC 2083 |
| Crc.FeedIsChecksum | apps/web/src/server/hermes/qr.ts:100-104 | feeding bytes into the reflected register is polynomial division of the message bits |
| Crc.OnesFlipTheStart | apps/web/src/server/hermes/qr.ts:100-104 | the checksum is the complement of the plain remainder of the message with its first four bytes complemented |
| Crc.BurstIsDetected | apps/web/src/server/hermes/qr.ts:106-113 | any change within four consecutive bytes changes the checksum |
| Png.MakeChunk | apps/web/src/server/hermes/qr.ts:106-113 | the chunk is length, type, data and the standard checksum of type and data |
| Png.ChunkReadsBack | apps/web/src/server/hermes/qr.ts:106-113 | a reader gets back type and data, and what follows |
| Png.DamageIsRefused | apps/web/src/server/hermes/qr.ts:106-113 | a reader refuses a chunk damaged within four consecutive bytes |
| Png.PaintSquare | apps/web/src/server/hermes/qr.ts:139-141 | exactly the module's square turns black |
| Png.Raster | apps/web/src/server/hermes/qr.ts:131-143 | every pixel is black exactly inside a black module's square, with an unfiltered scanline per row |
| Png.RasterIsUnique | apps/web/src/server/hermes/qr.ts:131-143 | the scanlines are determined to the last byte |
| Png.PixelsShow | apps/web/src/server/hermes/qr.ts:131-143 | each line after a zero byte, each pixel zero where its module is black and 255 elsewhere |
| Png.PictureTells | apps/web/src/server/hermes/qr.ts:131-143 | no two symbols share a picture |
| Png.ScanlinesAreRaster | apps/web/src/server/hermes/qr.ts:131-143 | the raster exists for every symbol, scale and quiet zone |
| Png.PngFromModules | apps/web/src/server/hermes/qr.ts:120-151 | for any `deflate`, the file is the signature and its three chunks over that raster, and fails exactly when the side or the compressed length needs more than four bytes |
| Png.QrFromTerminal | apps/web/src/server/hermes/qr.ts:158-162 | shows the picture of the symbol read from the text, or says that there is none or that it cannot be written |
| Png.FileReadsBack | apps/web/src/server/hermes/qr.ts:145-150 | a reader gets back the size and the compressed scanlines |
| Png.FileForm | apps/web/src/server/hermes/qr.ts:145-150 | the file, part by part: signature, header of an eight-bit greyscale square, data, end |
| Png.ScannedIsPrinted | apps/web/src/server/hermes/qr.ts:158-162 | what is shown for a printed symbol, read as a PNG and inflated, is a picture of that symbol and no other, eight pixels a module in a quiet zone of four, unless it cannot be written |
| Utf8.TruncateUtf8 | apps/worker/message.go:353-362 | the loop moves the cut back to the nearest byte that may begin a character |
| Utf8.TruncateIsValid | apps/worker/message.go:351-367 | cutting valid UTF-8 leaves valid UTF-8 and drops less than a character too much |
| Utf8.TruncateKeepsWhole | apps/worker/message.go:353-362 | cutting a text keeps exactly as many of its first characters, whole, as the bytes allow |
| Utf8.ValidIsEncoded | apps/worker/message.go:353-362 | valid bytes are the encodings of Unicode texts (section 3 of RFC 3629) |
| RawSearch.ListingIsOnly | apps/worker/message.go:251-265 | the key order is total, so an object's keys have one listing |
| RawSearch.SortRawKeys | apps/worker/message.go:257-265 | returns that listing |
| RawSearch.BoundedText.Add | apps/worker/message.go:324-345 | the whole new state after one leaf, whose repetition AccumulatorHolds characterizes |
| RawSearch.CollectStringLeaves | apps/worker/message.go:280-307 | the walk that stops early leaves what adding every leaf would |
| RawSearch.RawSearchText | apps/worker/message.go:267-275 | returns the text WalkIsSimple characterizes, of the leaves LeavesByPath does |
| RawSearch.AccumulatorHolds | apps/worker/message.go:309-345 | after any leaves the text is full exactly when their join exceeds the cap, and then holds its cut |
| RawSearch.WalkIsSimple | apps/worker/message.go:267-345 | the walk equals the joined leaves cut at the cap exactly when no leaf strays, and is always a prefix of the join within the cap |
| RawSearch.ValidWalk | apps/worker/message.go:309-312 | on valid leaves the two forms agree and the result is valid |
| RawPaths.LeavesByPath | apps/worker/message.go:277-307 | the leaves of a tree are the strings at its string paths, one for each, in path order: keys by their folded form, then as they are, indices by number |
| RawPaths.OneListing | apps/worker/message.go:277-307 | and a tree has one such list of paths |
| RawPaths.TextByPath | apps/worker/message.go:257-345 | for valid text the search text is those strings joined by line breaks and cut at the cap |
| RawPaths.JoinSplits | apps/worker/message.go:309-345 | splitting the join at line breaks gives the non-empty strings back, where none holds a line break |
| RawSearch.StrayExample | apps/worker/message.go:340-344 | a tree, with a leaf that is no valid UTF-8, on which they differ |
| RawSearch.PruneRaw | apps/worker/message.go:221-249 | keeps the greedy choice in key order, or a marker when nothing fits, and says whether anything is gone |
| RawSearch.PrunedFits | apps/worker/message.go:221-249 | what pruning returns is within the budget exactly when the kept keys' escapes fit in what the estimate left, or, when nothing is kept, when the marker fits |
| RawSearch.PlainKeysOvershoot | apps/worker/message.go:221-249 | with keys that need no escapes it is over the budget exactly when no entry fits alone and the marker does not fit either |
| RawSearch.MarkerOvershoots | apps/worker/message.go:243-247 | a one-entry tree whose marker is over the budget |
| RawSearch.AnyOrder | apps/worker/message.go:233-239 | the serialized size of a tree does not depend on the order its keys are written in |
| RawSearch.EscapedKeyOvershoots | apps/worker/message.go:233-239 | as a function of any tree: one key with an escape is kept and goes over the budget |
| RawSearch.MissingDidNotFit | apps/worker/message.go:230-242 | an entry is missing exactly when it did not fit beside those kept before it |
| Envelopes.JsonTells | apps/web/src/server/memory/summarize.ts:64-67 | no two rows serialize alike, whatever their senders wrote |
| Envelopes.EnvelopeTells | apps/web/src/server/memory/summarize.ts:64-67 | an envelope ends at its own closing tag |
| Envelopes.EnvelopeForm | apps/web/src/server/memory/summarize.ts:64-67 | an envelope, part by part: its tags, the fields in their order, every string as JSON without angle brackets or ampersands |
| Envelopes.WrittenCharIs | apps/web/src/server/memory/summarize.ts:64-67 | how each character is written inside such a string |
| Envelopes.PromptTells | apps/web/src/server/memory/summarize.ts:98 | a prompt splits back into its rows in one way only |
| Envelopes.PromptJoins | apps/web/src/server/memory/summarize.ts:98 | and is the envelopes with a line break between any two |
| Envelopes.ShorterEnvelope | apps/web/src/server/memory/summarize.ts:90-92 | a character of text taken away saves at least one of the envelope |
| Summarize.SelectRows | apps/web/src/server/memory/summarize.ts:70-97 | the loop selects the rows that BatchPrompt characterizes |
| Summarize.BuildMemoryEnvelopes | apps/web/src/server/memory/summarize.ts:69-100 | and joins their envelopes |
| Summarize.CandidateFits | apps/web/src/server/memory/summarize.ts:84-94 | a message is quoted exactly when its first row fits, or its minimal one |
| Summarize.FirstRowCuts | apps/web/src/server/memory/summarize.ts:74-82 | the row first tried holds as much of the text as 2000 characters and the remaining budget allow, marked before the media exactly when that is not all |
| Summarize.CandidateQuotes | apps/web/src/server/memory/summarize.ts:59-93 | a quoted row has its message's own fields, media status or `unavailable`, and at most 2000 characters of its text, marked exactly when they are not the whole |
| Summarize.FirstOmitted | apps/web/src/server/memory/summarize.ts:72-97 | the first message without a row does not fit even with an empty text and the mark, or the budget is spent |
| Summarize.PromptFits | apps/web/src/server/memory/summarize.ts:71-98 | prompt and remaining budget make up 80000 characters |
| Summarize.BatchPrompt | apps/web/src/server/memory/summarize.ts:69-100 | all of these at once for the prompt of any batch |
| GroupMerge.MergeSnapshot | apps/worker/groupsync.go:148-199 | every field of the merged record: the name and its stamps, the ring, the switches and counts, what is kept; and each change is reported once, exactly when its field moved |
| GroupMerge.ReportsEveryChange | apps/worker/groupsync.go:148-199 | nothing is reported exactly when nothing but the sync stamps moved |
| GroupMerge.ReportsName | apps/worker/groupsync.go:153-173 | the name is reported exactly when it or its origin changed |
| GroupMerge.MergeSettles | apps/worker/groupsync.go:132-199 | a repeated entry changes nothing, whatever was stored |
| GroupMerge.RingHoldsSuperseded | apps/worker/groupstore.go:496-509 | over any snapshots the ring is the latest twenty superseded names, newest first |
| GroupSync.UpsertCommutes | apps/worker/groupstore.go:269-323 | a sync's write commutes with traffic and with the console's edits |
| GroupSync.GroupStore.UpsertObserved | apps/worker/groupstore.go:269-293 | writes an observation's metadata, and a sync's stamps, over the row or into a new one with the console's defaults, keeping traffic and configuration; or fails with or without effect |
| GroupSync.GroupStore.MarkLeft | apps/worker/groupstore.go:330-342 | makes one known group left since some time and changes nothing else of it or of any other |
| GroupSync.GroupStore.KnownGroupJids | apps/worker/groupstore.go:348-361 | exactly the groups not yet left or deleted, each once |
| GroupSync.UpsertAll | apps/worker/groupsync.go:71-103 | every entry is merged with what the sync found, upserted and tallied once, in order |
| GroupSync.MarkAbsent | apps/worker/groupsync.go:112-120 | exactly the baseline's absent groups are marked |
| GroupSync.RunGroupSync | apps/worker/groupsync.go:51-130 | no group is marked before every returned one is upserted, a failed listing writes nothing, and a completed sync leaves each returned group with what its last entry says, field by field, and the stated rows and report |
| GroupTraffic.StepKeepsInv | apps/worker/groupsync.go:51-130 | every operation of the sync and every message between them keeps the rows those of the sync alone with all traffic on top |
| GroupTraffic.TrafficIsKept | apps/worker/groupstore.go:295-323 | wherever messages fall between the sync's operations, each group ends as the sync alone leaves it with all its messages counted |
| GroupTraffic.NewGroupIsLeft | apps/worker/groupsync.go:104-120 | a group first heard of during the sync and absent from its answer is marked left exactly when a message came before the baseline was read |
| GroupTraffic.QuietSync | apps/worker/groupsync.go:51-130 | without traffic the interleaved sync leaves what the uninterrupted one does |
| GroupTraffic.SyncFinishes | apps/worker/groupsync.go:71-120 | from any point of the upserts on, the sync's own operations finish it |
| GroupSync.TotalIsSum | apps/worker/groupsync.go:89-99 | the total is the sum of its four kinds |
| GroupSync.KindTells | apps/worker/groupsync.go:89-99 | what each kind of the report means for the row: new, its name or the name's origin changed, anything else changed, or only stamped |
| GroupSync.PruningSettlesMembership | apps/worker/groupsync.go:32-50 | returned groups are active, every other stored one is left or deleted with its name kept, and the groups left are the stored ones not returned |
| GroupSync.RepeatedSyncIsQuiet | apps/worker/groupsync.go:10-13 | a repeated snapshot of distinct groups is all unchanged and moves only the sync stamps |
| Execute.StepKeepsInv | apps/web/src/server/actions/execute.ts:201-299 | every transaction, call, answer and crash keeps the invariant |
| Execute.OnceAndTruthfully | apps/web/src/server/actions/execute.ts:10-37 | over every run at most one external call, executed only on its own yes, and never an outcome audit without its attempt |
| Execute.FirstDecisionStands | apps/web/src/server/actions/execute.ts:201-236 | over every run the first decision stands: nothing is called or recorded before it, or ever after a rejection |
| Execute.OverStaysOver | apps/web/src/server/actions/execute.ts:306-311 | a settled or rejected row never changes again |
| Execute.StuckStaysStuck | apps/web/src/server/actions/execute.ts:194-199 | a row left in flight by a dead caller is never claimed, called for or settled again |
| Execute.ClaimKeepsRow | apps/web/src/server/actions/execute.ts:248-252 | until it settles, nobody but the claimer can move the row |
| Execute.Actions.ClaimRow | apps/web/src/server/actions/execute.ts:201-236 | succeeds exactly on an approved row without a result, with its audit |
| Execute.Actions.SettleRow | apps/web/src/server/actions/execute.ts:253-299 | records the outcome and its audit on the claimed row only |
| Execute.Actions.ExecuteAction | apps/web/src/server/actions/execute.ts:312-413 | refuses without any change, or calls at most once and settles with that answer |
| Execute.ExecutionIsRun | apps/web/src/server/actions/execute.ts:312-413 | the method's effect is the machine's run of one caller |
| Dispatch.StepKeepsInv | apps/worker/dispatch.go:107-243 | every step of dispatchers and console keeps the invariant |
| Dispatch.OncePerApproval | apps/worker/dispatch.go:107-174 | over every run at most one bridge send per approval, stored as sent only with an id that is not blank and a delivery, and at most one delivery beyond those misreported as refusals |
| Dispatch.AcceptedExactly | apps/worker/hermes_bridge.go:399-415 | a send counts as accepted exactly on a readable 2xx answer whose id is not blank |
| Dispatch.UnsentExactly | apps/worker/hermes_bridge.go:129-198 | it counts as never sent exactly without a quote or bridge, without an answer before the deadline, or on the bridge's 503 |
| Dispatch.RetriedOnlyWhenUnsent | apps/worker/dispatch.go:266-288 | an owner may retry exactly the failures taken as never sent, and a timeout or unknown failure is final |
| Dispatch.AtMostOneDelivery | apps/worker/dispatch.go:266-288 | over every run in which such a failure really sent nothing, a request is delivered at most once, however often it is approved |
| Dispatch.DoubleDelivery | apps/worker/dispatch.go:266-288 | a run in which a reset connection leads to two deliveries |
| Dispatch.OnlyClaimerRecords | apps/worker/dispatch.go:152-169 | only the claimer moves a request out of sending, by the reply it got |
| Dispatch.WorkersGoOn | apps/worker/dispatch.go:91-105 | a worker that recorded its reply or died may claim again |
| Dispatch.DifferentRows | apps/worker/dispatch.go:107-138 | two workers never hold one request |
| Dispatch.FinalStaysFinal | apps/web/src/server/repos/sends.ts:404-415 | what was sent, cancelled, rejected or may have been delivered never changes again, and one left sending by a dead worker is never claimed |
| Dispatch.SpentAttemptsAreFinal | apps/worker/dispatch.go:109-120 | an approval after the attempts are spent is never acted on |
| DispatchRuns.ApprovalIsActedOn | apps/worker/dispatch.go:107-138 | from any reachable state, some run sends what may be approved exactly while attempts are left |
| DispatchRuns.DeliveredAgainExactly | apps/worker/dispatch.go:107-174 | from any reachable state, some run delivers a request once more exactly when it may still be sent, and otherwise none ever does |
| DispatchRuns.SecondDeliveryExactly | apps/worker/dispatch.go:266-288 | a run of truthful failures leads to a second delivery exactly when there was a first and the request may still be sent |
| DispatchRuns.SecondNeedsMisjudged | apps/worker/dispatch.go:266-288 | a request that may still be sent was only ever delivered by calls reported as never made |
| DispatchRuns.FailedAgainExactly | apps/web/src/server/repos/sends.ts:404-415 | a failed request may still be sent exactly with the class `rejected` and attempts left |
| DispatchRuns.ClaimsWaitForTheirTime | apps/worker/dispatch.go:107-120 | in every state a claim that may be made carries a time no earlier than its request's |
| DispatchRuns.NothingIsSentEarly | apps/worker/dispatch.go:107-120 | a request scheduled for a time is handed to no bridge in any run whose claims all come before it, unless it is approved again |
| DispatchRuns.CreationDecides | apps/web/src/server/repos/sends.ts:87-106 | a new request waits for a decision, or for its time |
| DispatchRuns.ApprovalSchedules | apps/web/src/server/repos/sends.ts:404-440 | an approval makes a pending request, or one that failed without having been sent, wait for its time, and leaves any other as it was |
| DispatchRuns.RejectedForGood | apps/web/src/server/repos/sends.ts:462-490 | a rejected request never changes again, and only a pending one can be rejected |
| DispatchRuns.CancelledForGood | apps/web/src/server/repos/sends.ts:462-490 | nor a cancelled one, and only an approved one whose send has not begun can be cancelled |
| DispatchRuns.SentOnlyWhenApproved | apps/worker/dispatch.go:107-138 | over every run a request is handed to the bridge no more often than it was approved |
| Dispatch.Dispatcher.ClaimNext | apps/worker/dispatch.go:107-138 | claims the request that was scheduled first among those approved whose time has come, with attempts left and no lock of the last minute; none exactly when there is none |
| Dispatch.Dispatcher.DeliverOne | apps/worker/dispatch.go:140-174 | makes the call and records what its answer means: sent with its message id, or failed and whether that was before any send; or loses the record |
| Dispatch.Dispatcher.DispatchDue | apps/worker/dispatch.go:91-105 | the loop ends with nothing due, having claimed each request at most once |
| DispatchRuns.ClaimsAreBounded | apps/worker/dispatch.go:91-138 | beside any other dispatchers and console actions but arrivals, every claim shrinks the waiting requests: no more claims than requests wait, and none twice |
| IsoBoxes.IsoBoxes | apps/worker/media.go:659-682 | the loop returns the boxes of the walk, or fails |
| IsoBoxes.WalkTiles | apps/worker/media.go:656-682 | the boxes tile a prefix of the data |
| IsoBoxes.FailsAtOverflow | apps/worker/media.go:661-679 | the walk fails exactly when it comes to a size that wraps the offset around |
| IsoBoxes.SmallSizesNeverFail | apps/worker/media.go:666-677 | with no size between 2^62 and 2^63 it never fails |
| IsoBoxes.WrapExample | apps/worker/media.go:666-679 | 24 bytes on which it does |
| IsoBoxes.WalkFindsAll | apps/worker/media.go:659-682 | on any concatenation of well-formed boxes in either size form (section 4.2 of ISO/IEC 14496-12) it returns exactly their offsets and types |
| IsoBoxes.LastBoxToEnd | apps/worker/media.go:672-673 | a last box of size zero runs to the end |
| IsoBoxes.BoxIsEncoded | apps/worker/media.go:659-682 | every box found is one that was written |
| MovieDuration.MediaDurationSeconds | apps/worker/media.go:629-646 | the loops return the first timing of the first movie box that has one |
| MovieDuration.DurationIsFirst | apps/worker/media.go:629-646 | the answer is that of the first movie box that tells a timing or cannot be read, and of its first header that tells one; there is none exactly when no box does |
| MovieDuration.MvhdReadsBack | apps/worker/media.go:686-703 | a movie header in the 32-bit size form reads back, in both versions |
| MovieDuration.WideMvhdReadsDates | apps/worker/media.go:686-703 | in the 64-bit size form below 2^56 bytes a header reports its dates, or in version 1 the halves of its creation time |
| MovieDuration.WideMvhdIsMisread | apps/worker/media.go:686-703 | what a header of any size and version in that form reports |
| MovieDuration.MvhdReadsBackExactly | apps/worker/media.go:686-703 | a header of either form and version reads back exactly in the 32-bit form or when the fields read instead hold its timing |
| MovieDuration.MovieReadsBack | apps/worker/media.go:626-646 | whatever boxes stand around it, the duration is duration over timescale |
| Jpeg.JpegDimensions | apps/worker/media.go:590-618 | the loop returns what the segment walk finds |
| Jpeg.FrameIsFound | apps/worker/media.go:587-618 | any segments before the frame header are skipped and its dimensions read |
| Jpeg.SizeIsFromFrame | apps/worker/media.go:587-624 | whatever is reported was read from a frame header, one of thirteen markers, behind segments that may stand before it |

## Left out

- `RunOnce`, the tickers and the process-local semaphore of the batch worker: their calls may come in any order and number, which the machine allows.
- The text, links, metadata and failure records of a batch row: they decide nothing.
- Database errors other than a crash between steps, in the memory-batch protocol: an error ends the pass like a crash.
- The model answer of a batch and `validCitations`, a one-line filter.
- HTTP, MongoDB transactions, the bridge and the AI client: only their answers appear.
- Regular-expression sanitising, Unicode normalisation, `pdftotext`, `unzip`, `ffmpeg` and image resizing: library behaviour.
- Deflate: the PNG results hold for any function in its place; reading the picture back asks only that its scanlines inflate to themselves. The base64 of the data URL, and a raster too large to allocate.
- JPEG fill bytes before a marker: the source reads them as a segment, and so does the model.
- Message timestamps before the year 0 and finer than a millisecond.
- Multi-byte characters cut between two chunks of the wizard's output: a chunk is the text its bytes decode to.
- GroupSync.RepeatedSyncIsQuiet: states the repeat over distinct groups, because two different entries for one group cannot both be what is stored.
- MovieDuration.MediaDurationSeconds: divides over the reals; the source rounds to a 64-bit float.
- Chunking.AnswersAreWhole: with two harmful cuts or more the answers may agree or differ; their number is then still exact by `Chunking.AnswersAreCounted`.
- Dispatch.OncePerApproval: that a bridge answering with an id had WhatsApp take the message is the bridge's promise, assumed here.
- GroupTraffic.TrafficIsKept: messages only; a console edit beside the sync is covered one write at a time by `GroupSync.UpsertCommutes`.
- MemorySlots.AtMostLimit: assumes that the processes' clocks agree and do not run backwards, as leases by time must; an update may carry any earlier time of its caller.
- MemoryStore.Store.BuildGroup: one process's uninterrupted pass; interleavings of its four steps are the machine of MemoryBatches.
