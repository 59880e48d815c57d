# A model of the phux clients' state machines and codecs

phux is a terminal multiplexer. This project models the parts of its clients that keep state
across messages from an engine or server they do not control, and proves what those parts
promise over whole runs.

| file | models |
|---|---|
| `HistoryPages`, `HistoryEviction`, `HistoryStore`, `HistoryLoad`, `HistoryCache` | the progressive history cache: pages, anchors and pins, two budgets, two eviction loops, digest window, load-state machine |
| `HistoryProtocol` | that cache against a network that drops, delays, reorders and repeats pages |
| `HistoryStale` | one run of the cache, call by call, for the first condition described below |
| `Framing` | reassembly of length-prefixed frames from chunks, and the WebTransport read pump |
| `Utf8`, `WindowContexts`, `Snapshot`, `SnapshotEncoding` | the cockpit's strict UTF-8 validator, the canonical `window_contexts` codec, the tab sections with the encoding they invert, and the extension records |
| `TabCommands`, `CommandResults` | at-most-once command delivery, and the read/acknowledge protocol for results |
| `Machines`, `LocalTools` | the machine inventory with its status sweep, and the local-tool lifecycle |
| `NativeReplica` | the browser adapter that drives an untrusted checkpoint decoder |

Objects that the source updates in place are classes with a `Valid()` invariant; loops in the
source are loops here, proved against predicates that say what they leave behind. Code that
returns new records is modelled by functions. The cache's fields are grouped into two records,
`store` and `fetch`, by what changes together. SHA-256, the browser's decoder, the session
behind the read pump and the decoders of known extension payloads are function parameters, so
the results hold for any of them; the digest is assumed to tell payloads apart only where a
conflict has to be detected. A `HashSet` is iterated in an arbitrary order. Words of 32 and 64
bits are subset types, so every conversion and the page sequence's increment are shown not to
overflow; `saturating_sub` is written out and shown never to clip.

## Where a promise needs a condition

- "The newest page survives its own acceptance" holds exactly if eviction meets the byte budget
  before it comes to an older queue entry of the same identity (`HistoryStore.AcceptSurvives`).
  Unpinning a page that is still queued leaves such an entry behind. `HistoryStale.NewestEvicted`
  drives a new cache through fetches, 66 pages and one anchor to an acceptance that passes every
  check and evicts its own page: the server's cursors lead back to a page that 64 others have
  pushed out of the digest window. A first acceptance always survives, and along one server chain
  that ends every acceptance is a first one.
- The order queue is bounded by twice the cached pages plus 64 in every generation in which no
  identity is accepted twice, which holds along any server chain (`HistoryProtocol.Drive`). With a
  server that repeats identities it is bounded by the byte budget plus the cached pages plus 64,
  a part of the cache's invariant.
- An invalidation of the machine inventory is held or acted on exactly in the states of
  `Machines.Heard`. After a failure it is forgotten, and asking for more rows then settles the
  inventory without a re-read (`Machines.FailedInvalidationForgotten`).
- "After an invalidation every held row is read again before the inventory settles" holds for an
  invalidation that is heard, with a host that answers each request once and by position: every
  row then stands in a reply to a request issued at or after the invalidation
  (`Machines.NoInvalidationLost`). The condition is that no request for more rows and no row
  operation takes the place of an unfinished or failed read while rows are missing and no further
  invalidation is held. It is exact: from any run, such a request settles the inventory with the
  missing rows old (`Machines.DropLosesInvalidation`). `Machines.SweepDropped` and
  `Machines.HeldSweepDropped` are such runs from the start, with requests the view offers; in the
  second, the rows come with a reply that was already under way when the invalidation came.
- The adapter's message says that bootstrap input is refused after READY; the code refuses it
  after `finish_bootstrap`. A chunk between the two is accepted and may replace the terminal
  (`NativeReplicas.ReadyTwice`). The model follows the code.

## Model

| member | source | states |
|---|---|---|
| `HistoryCaches.Normalized` | crates/phux-client-core/src/history.rs:43-55 | each request limit is the nearest one from 1 to its cap, and a policy already within the caps is untouched |
| `HistoryCaches.HistoryCache.constructor` | crates/phux-client-core/src/history.rs:287-320 | a new generation is valid, empty, and idle at the newest cursor or complete without one |
| `HistoryLoad.Started` | crates/phux-client-core/src/history.rs:293-298 | complete exactly without a cursor; otherwise the sequence starts at 1 |
| `HistoryLoad.Begun` | crates/phux-client-core/src/history.rs:375-388 | a fetch starts only from idle and keeps "limits are non-zero exactly while loading" |
| `HistoryLoad.Cancelled` | crates/phux-client-core/src/history.rs:391-399 | cancelling keeps the load-state invariant |
| `HistoryLoad.Advanced` | crates/phux-client-core/src/history.rs:608-618 | the state after an accepted page again satisfies the load-state invariant; the 64-bit sequence cannot wrap; that it names the server's next page is `HistoryProtocol.ChainLinked` |
| `HistoryLoad.Invalidated` | crates/phux-client-core/src/history.rs:822-840 | an invalidated generation has no next cursor, sequence or limits |
| `HistoryCaches.HistoryCache.BeginFetchWithLimits` | crates/phux-client-core/src/history.rs:375-388 | hands the cursor out once, exactly on the step from idle to loading; every invariant is kept |
| `HistoryCaches.HistoryCache.BeginFetch` | crates/phux-client-core/src/history.rs:371-373 | the default limits are within both caps |
| `HistoryCaches.HistoryCache.CancelFetch` | crates/phux-client-core/src/history.rs:391-399 | cancels exactly the request in flight, without touching the cursor chain |
| `HistoryCaches.Grown` | crates/phux-client-core/src/history.rs:401-419 | a retry has the least limits that cover the last attempt and the demand, strictly larger and within the caps; refused exactly if the demand is zero, already met or beyond a cap |
| `HistoryCaches.RetriesFinite` | crates/phux-client-core/src/history.rs:401-419 | from normalized limits, "too small" leads to fewer retries than the sum of the two caps, all within them |
| `HistoryProtocol.RejectAgain` | crates/phux-client-core/src/session.rs:2820-2838 | from one request with the default limits, fewer "too small" rejections than the sum of the caps end the generation, and every attempt in between stays within the caps |
| `HistoryCaches.HistoryCache.HistoryRejected` | crates/phux-client-core/src/session.rs:2820-2838 | a rejected request is cancelled; too small either re-asks the same cursor with grown limits or retires the generation |
| `HistoryCaches.WindowFinds` | crates/phux-client-core/src/history.rs:468-475 | the digest-window search finds exactly the last page accepted under an identity, while at most 63 newer ones were accepted |
| `HistoryCaches.HistoryCache.ReplayRefines` | crates/phux-client-core/src/history.rs:452-478 | replay detection equals "remember every accepted page" while the page is cached or recent, whatever was evicted: identical is a duplicate, different a conflict; past that, or after invalidation, it is unknown |
| `HistoryCaches.HistoryCache.CheckMeans` | crates/phux-client-core/src/history.rs:429-543 | a page is new exactly if it is no replay, is the expected (cursor, sequence), and fits the request limits and both budgets beside the pinned pages |
| `HistoryCaches.HistoryCache.PageErrors` | crates/phux-client-core/src/history.rs:481-543 | which error, with which numbers, each failed check gives, and in which order they are made |
| `HistoryCaches.HistoryCache.AcceptPage` | crates/phux-client-core/src/history.rs:546-621 | a replay or refused page changes nothing; a new one advances the chain by exactly itself, is logged once, and leaves totals, pins, queues, digests and both budgets exact; a first acceptance survives its own eviction; within the budgets it is only added, with the rows that came or the rows it declares, whichever are fewer; projections go newest first |
| `HistoryCaches.HistoryCache.InsertPage` | crates/phux-client-core/src/history.rs:564-620 | the state change of a page that passed the checks, as one insertion followed by eviction, which takes projections newest first |
| `HistoryPages.ConsumedBytes` | crates/phux-client-core/src/history.rs:585-607 | the accounted bytes of a window entry are those of its parts |
| `HistoryCaches.HistoryCache.PushConsumed` | crates/phux-client-core/src/history.rs:585-607 | the digest window is the digests of the last 64 accepted pages and its byte count their exact sum; the subtraction never clips |
| `HistoryStore.InsertedSound` | crates/phux-client-core/src/history.rs:568-607 | inserting a page keeps sums, pins, queues, cached contents, digest window and its distinct identities |
| `HistoryCaches.HistoryCache.EvictBytes` | crates/phux-client-core/src/history.rs:778-796 | drops the shortest queue prefix that meets the byte budget, despite stale and repeated ids; terminates; pinned pages stay |
| `HistoryCaches.HistoryCache.RemovePage` | crates/phux-client-core/src/history.rs:786-795 | totals stay exact without clipping, and the scrub of the anchors removes nothing |
| `HistoryCaches.HistoryCache.CompactOrder` | crates/phux-client-core/src/history.rs:797-799 | keeps an entry for every cached page and the order of the entries; afterwards there are at most twice the pages plus 64, or at least one entry fewer for every page that is gone; never more than the former if entries were distinct |
| `HistoryCaches.HistoryCache.EvictMaterializations` | crates/phux-client-core/src/history.rs:803-820 | clears the shortest newest-first run of unpinned projections that meets the row budget; terminates |
| `HistoryStore.OrderStillFits` | crates/phux-client-core/src/history.rs:797-799 | for any server, the order queue stays within the byte budget plus the cached pages plus 64 |
| `HistoryCaches.HistoryCache.EvictToBudget` | crates/phux-client-core/src/history.rs:777-801 | both budgets hold afterwards, every invariant is restored, and no page loses its projection while an unpinned one accepted later keeps its own |
| `HistoryStore.EvictedProtects` | crates/phux-client-core/src/history.rs:777-820 | eviction keeps each pinned page exactly, invents nothing, and takes at most the projection of an unpinned page it keeps |
| `HistoryStore.EvictedNewestFirst` | crates/phux-client-core/src/history.rs:797-820 | the newest-first law, from the order of the queue and of the log |
| `HistoryStore.AcceptFits` | crates/phux-client-core/src/history.rs:564-583 | a page that fits beside all others is only added, with its rows |
| `HistoryStore.EvictedSound` | crates/phux-client-core/src/history.rs:777-820 | what eviction leaves is sound and within both budgets |
| `HistoryStore.EvictedIdle` | crates/phux-client-core/src/history.rs:777-820 | a cache within budget loses nothing |
| `HistoryEviction.NewestSurvives` | crates/phux-client-core/src/history.rs:778-796 | exactly when the newest queued page outlives the drain: the budget is met before any older entry of the same id |
| `HistoryStore.AcceptSurvives` | crates/phux-client-core/src/history.rs:546-620 | the same condition for an accepted page, both directions |
| `HistoryStore.FirstAcceptSurvives` | crates/phux-client-core/src/history.rs:546-620 | an identity accepted for the first time is still cached afterwards |
| `HistoryStale.NewestEvicted` | crates/phux-client-core/src/history.rs:429-820 | for any digest, a new cache driven by its own calls to a page that is checked as new, accepted, and no longer cached afterwards |
| `HistoryCaches.HistoryCache.Pin` | crates/phux-client-core/src/history.rs:752-762 | pin count plus one, pinned totals still exact |
| `HistoryCaches.HistoryCache.Unpin` | crates/phux-client-core/src/history.rs:764-775 | pin count minus one without clipping, pinned totals exact, the page queued when its last pin goes |
| `HistoryCaches.HistoryCache.UnpinAll` | crates/phux-client-core/src/history.rs:657-661 | in any order, one holder less on every page of the set; exactly the pages whose only pin it was are queued, once each; nothing else changed |
| `HistoryCaches.HistoryCache.PinAll` | crates/phux-client-core/src/history.rs:662-664 | one holder more on every page of the set and nothing else changed |
| `HistoryCaches.HistoryCache.RegisterAnchorPages` | crates/phux-client-core/src/history.rs:645-667 | each error case exactly, a new anchor being refused when there are as many as the row budget; on success only the registration and pins change, every pin count is the number of anchors holding the page, pages that lost their only pin are queued, and the anchor cap holds |
| `HistoryCaches.HistoryCache.RemoveAnchor` | crates/phux-client-core/src/history.rs:670-681 | drops the registration and its pins, queues exactly the pages that lost their only one; no page is lost or changed; a viewport pinned there follows the tail with nothing unread |
| `HistoryCaches.HistoryCache.PinViewport` | crates/phux-client-core/src/history.rs:684-693 | a viewport is pinned only to a registered anchor |
| `HistoryCaches.HistoryCache.FollowTail` | crates/phux-client-core/src/history.rs:696-699 | tail with nothing unread |
| `HistoryCaches.HistoryCache.NoteLiveOutput` | crates/phux-client-core/src/history.rs:702-706 | unread rows grow, saturating, only while pinned |
| `HistoryCaches.HistoryCache.Invalidate` | crates/phux-client-core/src/history.rs:822-840 | everything is dropped, the generation retired, the invariant kept |
| `HistoryCaches.HistoryCache.InvalidateCursor` | crates/phux-client-core/src/history.rs:720-730 | acts exactly if the tombstone names the next cursor, otherwise changes nothing |
| `HistoryProtocol.ChainLinked` | crates/phux-client-core/src/history.rs:608-618 | the client's next (cursor, sequence) is the server's, which counts the pages sent in a row for one cursor from 1 |
| `HistoryProtocol.ChainAcyclic` | crates/phux-client-core/src/history.rs:85-90 | a server chain of immutable pages that ends never repeats an identity |
| `HistoryProtocol.RunFollows` | crates/phux-client-core/src/history.rs:375-399 | over every run against a network that drops, delays, reorders and repeats pages, the log is a growing prefix of the chain, the expected page is its next element, and complete means all of it |
| `HistoryProtocol.EndIsFinal` | crates/phux-client-core/src/history.rs:822-840 | after completion or invalidation no fetch starts and no page is accepted, in any continuation |
| `HistoryProtocol.AcceptProtects` | crates/phux-client-core/src/history.rs:777-796 | accepting a page leaves every anchored page cached and unchanged |
| `HistoryProtocol.Apply` | crates/phux-client-core/src/history.rs:371-730 | each cache operation is a step of the network machine and spares every anchor it does not name |
| `HistoryProtocol.Drive` | crates/phux-client-core/src/history.rs:287-840 | any event sequence on a new cache ends valid, is a run of the network machine, accepts a prefix of the chain, and keeps the order queue short |
| `HistoryProtocol.Endure` | crates/phux-client-core/src/history.rs:645-706 | over any events that do not touch an anchor, its pages stay cached and unchanged |
| `Framing.ParseIsTheSplit` | clients/phux-web/src/framing.rs:42-63 | a byte stream splits into frames and a tail in one way only, and that is what parsing finds |
| `Framing.StreamSplits` | clients/phux-web/src/framing.rs:42-63 | every stream has such a split |
| `Framing.EncodeThenParse` | clients/phux-web/src/framing.rs:42-63 | parsing encoded frames returns them exactly, nothing left over, not poisoned |
| `Framing.HeaderLayout` | clients/phux-web/src/framing.rs:42-63 | big-endian lengths from 1 to 16 MiB |
| `Framing.FrameBuffer.constructor` | clients/phux-web/src/framing.rs:28-30 | empty and not poisoned |
| `Framing.FrameBuffer.Push` | clients/phux-web/src/framing.rs:33-37 | bytes are appended; poisoning is absorbing |
| `Framing.FrameBuffer.NextFrame` | clients/phux-web/src/framing.rs:42-63 | a returned frame is whole; when none is returned, frames so far, leftover and poison flag are a function of the bytes pushed alone |
| `Framing.FrameBuffer.EmittedLeads` | clients/phux-web/src/framing.rs:42-63 | at any point the emitted frames are the leading frames of the stream |
| `Framing.Reassemble` | clients/phux-web/src/framing.rs:33-77 | any chunking with any draining gives what one push of the whole stream gives; unpoisoned, frames and leftover are the bytes pushed |
| `Framing.HandleFrames` | clients/phux-web/src/client.rs:256-268 | frames are handed over in order until none is left or the session stops |
| `Framing.Pump` | clients/phux-web/src/client.rs:216-281 | handled frames are the leading frames of the stream, all of them unless stopped; end of stream is clean exactly when the stream is whole frames; poison ends the pump |
| `Utf8.ScalarWidth` | clients/cockpit/src/protocol.ts:83-95 | how many bytes the scalar at an offset takes, zero only if none begins there |
| `Utf8.ValidUtf8` | clients/cockpit/src/protocol.ts:99-107 | accepts exactly the concatenations of encodings of Unicode scalar values |
| `Utf8.DecodeFront` | clients/cockpit/src/protocol.ts:61-95 | a well-formed front is the encoding of a scalar value: no overlong form, surrogate or out-of-range value |
| `Utf8.EncodeWellFormed` | clients/cockpit/src/protocol.ts:61-95 | every encoding passes the lead, second and continuation byte rules |
| `Utf8.TextUnique` | clients/cockpit/src/protocol.ts:99-107 | bytes determine the text |
| `WindowContexts.TextAt` | clients/cockpit/src/protocol.ts:109-115 | a bounded, length-prefixed valid text, refused only if none starts there |
| `WindowContexts.RecordAt` | clients/cockpit/src/protocol.ts:122-139 | the record whose encoding starts there, refused only if none does |
| `WindowContexts.HasWindow` | clients/cockpit/src/protocol.ts:141-146 | finds a repeated window |
| `WindowContexts.ParseContexts` | clients/cockpit/src/protocol.ts:154-167 | an accepted payload re-encodes to the same bytes, and a refused one is the encoding of nothing |
| `WindowContexts.ContextPrefixFree` | clients/cockpit/src/protocol.ts:122-139 | no record encoding is a prefix of another |
| `WindowContexts.EncodeInjective` | clients/cockpit/src/protocol.ts:154-167 | encodings determine the records, so parsing an encoding returns what was encoded |
| `Snapshot.ReadExtensions` | clients/cockpit/src/protocol.ts:598-612 | the result is the fold over the records the bytes encode; bytes that encode no record list are refused |
| `Snapshot.FoldKnownOnly` | clients/cockpit/src/protocol.ts:518-542 | unknown kinds contribute nothing to the fold |
| `Snapshot.UnknownRecordsIgnored` | clients/cockpit/src/protocol.ts:477-480 | record lists with the same known records read the same |
| `Snapshot.ForwardCompatible` | clients/cockpit/src/protocol.ts:477-612 | bytes with unknown records put in at any record boundary read exactly as without them |
| `Snapshot.OneRecord` | clients/cockpit/src/protocol.ts:518-542 | the bytes of one record of kind 1 to 6 reach its decoder, those of any other kind are passed over |
| `Snapshot.InsertUnknown` | clients/cockpit/src/protocol.ts:477-480 | inserting unknown records at any boundary leaves the known records as they are |
| `Snapshot.ReadingBegins` | clients/cockpit/src/protocol.ts:598-612 | bytes can be read as records in one way only |
| `Snapshot.ReadTabs` | clients/cockpit/src/protocol.ts:336-346 | the tabs that lie there and the offset just past them; refused only if no such tabs lie there |
| `Snapshot.ReadWindow` | clients/cockpit/src/protocol.ts:420-433 | the window section that lies there, refused only if none does |
| `Snapshot.ReadWindows` | clients/cockpit/src/protocol.ts:614-628 | sections lie back to back: the offset recomputed from parsed tabs is where the tab reader ended, inside the bytes |
| `Snapshot.SkipWindow` | clients/cockpit/src/protocol.ts:625-626 | the recomputed offset |
| `SnapshotEncoding.TabsRead` | clients/cockpit/src/protocol.ts:336-346 | tabs that are read stand there as the encoding of fitting tabs, any non-zero flag meaning attention |
| `SnapshotEncoding.TabsWritten` | clients/cockpit/src/protocol.ts:336-346 | encoded tabs are the ones that are read |
| `SnapshotEncoding.WindowRead` | clients/cockpit/src/protocol.ts:420-433 | a window that is read stands there as its encoding |
| `SnapshotEncoding.WindowWritten` | clients/cockpit/src/protocol.ts:420-433 | an encoded window is the one that is read |
| `SnapshotEncoding.Reread` | clients/cockpit/src/protocol.ts:614-628 | reading undoes writing for the whole section, with whatever stands behind it, and accepts nothing but encodings |
| `Snapshot.ReadTrailer` | clients/cockpit/src/protocol.ts:631-640 | absent, or five states up to 7 followed by extension records |
| `TabCommands.IncrementId` | clients/cockpit/src/tab-commands.ts:29-33 | successor modulo 2^64 on the two halves |
| `TabCommands.WriteU32` | clients/cockpit/src/protocol.ts:707-713 | exactly the four bytes at the offset change |
| `Prelude.WordLayout` | clients/cockpit/src/protocol.ts:707-713 | the least significant byte comes first |
| `Prelude.WordRoundTrip` | clients/cockpit/src/protocol.ts:297-303 | reading back a written word |
| `TabCommands.Packet` | clients/cockpit/src/tab-commands.ts:35-43 | the packet bytes, loop included |
| `TabCommands.PacketCarriesId` | clients/cockpit/src/tab-commands.ts:35-43 | a packet carries its version, kind, own id and target |
| `TabCommands.EnqueueOrderly` | clients/cockpit/src/tab-commands.ts:60-67 | an enqueue keeps the queue consecutive and sends, if anything, exactly the next id |
| `TabCommands.ReceiptOrderly` | clients/cockpit/src/tab-commands.ts:69-94 | a receipt of any shape pops the head, or empties the queue, and sends, if anything, exactly the next id |
| `TabCommands.ReceiptAdvances` | clients/cockpit/src/tab-commands.ts:69-79 | a receipt for the command in flight takes it off the queue, reports the outcome its tag names, and sends the next command |
| `TabCommands.ReceiptRead` | clients/cockpit/src/tab-commands.ts:69-86 | exactly the written receipts for an id pass as such |
| `TabCommands.OtherReceiptGivesUp` | clients/cockpit/src/tab-commands.ts:71-94 | any other bytes leave the command in doubt and give up the queue |
| `TabCommands.FailureGivesUp` | clients/cockpit/src/tab-commands.ts:88-94 | a failed delivery gives up the queue and keeps the id in doubt; a receipt with nothing in flight changes nothing |
| `TabCommands.EnqueueMeans` | clients/cockpit/src/tab-commands.ts:45-67 | a well-formed action queues exactly its command under the next id; malformed, full and exhausted are reported and change nothing else |
| `TabCommands.EveryCommandSent` | clients/cockpit/src/tab-commands.ts:25-94 | over every run with a host that answers, the packets sent are exactly the commands, in order, under the ids 1, 2, 3 and so on |
| `TabCommands.RunIsValid` | clients/cockpit/src/tab-commands.ts:25-94 | over every run the ids sent strictly increase; at most 16 consecutive ids wait, ending just below the next |
| `TabCommands.SentLater` | clients/cockpit/src/tab-commands.ts:45-94 | what is sent after a moment was not yet due at that moment |
| `TabCommands.CancelledNeverSent` | clients/cockpit/src/tab-commands.ts:88-94 | no command that was waiting when the queue was emptied is ever sent afterwards |
| `TabCommands.ExhaustedForEver` | clients/cockpit/src/tab-commands.ts:29-67 | after the last 64-bit id nothing is ever allocated again |
| `CommandResults.Acknowledge` | clients/cockpit/src/command-results.ts:135-142 | the acknowledgement bytes, as written into the buffer |
| `CommandResults.AckParts` | clients/cockpit/src/command-results.ts:135-142 | an acknowledgement is the source and the id as the host reads them |
| `CommandResults.AckInjective` | clients/cockpit/src/command-results.ts:135-142 | an acknowledgement names one (source, id) |
| `CommandResults.ResultWritten` | clients/cockpit/src/command-results.ts:52-131 | every result the host can write is decoded to its source, id and three outcomes |
| `CommandResults.ResultRead` | clients/cockpit/src/command-results.ts:52-131 | nothing else is decoded |
| `CommandResults.SeenResult` | clients/cockpit/src/command-results.ts:154-159 | finds exactly the keys among the recent results |
| `CommandResults.FirstRead` | clients/cockpit/src/command-results.ts:43-50 | the first read acknowledges nothing |
| `CommandResults.RepeatIgnored` | clients/cockpit/src/command-results.ts:161-179 | a result that arrives again is acknowledged again and remembered once |
| `CommandResults.ReadEnds` | clients/cockpit/src/command-results.ts:161-187 | a failed, unreadable or empty read is the last one, unless a wakeup waits, and then one more is issued |
| `CommandResults.LetGoIsRecorded` | clients/cockpit/src/command-results.ts:161-179 | no request, however late, makes the host let go of a result that is not recorded |
| `CommandResults.StepKeeps` | clients/cockpit/src/command-results.ts:47-187 | every step keeps the read and record invariants: as many reads are outstanding as the client believes, one or none |
| `CommandResults.RunRecordsOnceInOrder` | clients/cockpit/src/command-results.ts:161-187 | over every run with failed, garbled, repeated and late reads, results are recorded once each and in order, none is dropped unrecorded, none forgotten, and behind an answer "nothing" all that had been produced is recorded |
| `CommandResults.ReadAnswered` | clients/cockpit/src/command-results.ts:161-187 | a read that is answered records one more result and asks on, or finds every result recorded |
| `CommandResults.CaughtUp` | clients/cockpit/src/command-results.ts:47-187 | once reads are answered and nothing new comes, reading goes on until every produced result is recorded, and then stops |
| `CommandResults.NoWakeupLost` | clients/cockpit/src/command-results.ts:47-50 | never more than one read is outstanding, and every wakeup is followed by a read issued at or after it, or has a refresh waiting behind the one in flight |
| `Machines.UpdateRows` | clients/cockpit/src/machines.ts:219-229 | the nested loops compute the merge |
| `Machines.MergedAt` | clients/cockpit/src/machines.ts:219-229 | the merge replaces rows by index and keeps their number and order |
| `Machines.ReplyRows` | clients/cockpit/src/machines.ts:219-229 | with a positional host, more rows go behind the held ones, a refresh or a forgotten machine gives the rows anew, any other reply replaces rows by index only |
| `Machines.PagingLoadsAll` | clients/cockpit/src/machines.ts:219-244 | paging in any page sizes loads the host's list row for row, and more is offered exactly while rows are missing |
| `Machines.FailureKeepsRows` | clients/cockpit/src/machines.ts:231-244 | a failure without rows keeps the inventory, one with rows has them taken up |
| `Machines.ActionsExactly` | clients/cockpit/src/machines.ts:287-292 | the states in which a row can be acted on |
| `Machines.PermitsExactly` | clients/cockpit/src/core.ts:2717-2748 | which operations a row permits, by its role, route and state |
| `Machines.ClosedIgnores` | clients/cockpit/src/core.ts:2757-2811 | a closed view takes nothing in |
| `Machines.FirstPageShows` | clients/cockpit/src/machines.ts:219-244 | opening or refreshing starts over with the first page, from any state |
| `Machines.RunKeepsDirty` | clients/cockpit/src/core.ts:2770-2811 | while the view is open a held invalidation implies a load in flight or a failure |
| `Machines.HeardExactly` | clients/cockpit/src/core.ts:2795-2811 | an invalidation is held or acted on in exactly these states, otherwise nothing changes |
| `Machines.RereadIssued` | clients/cockpit/src/core.ts:2770-2811 | before the inventory settles after a heard invalidation, a read from the first row on has been issued |
| `Machines.StepOwed` | clients/cockpit/src/core.ts:2741-2811 | every event keeps what is owed to rows not yet read again, except one that drops the read |
| `Machines.NoInvalidationLost` | clients/cockpit/src/core.ts:2741-2811 | over every run, once the inventory is settled after a heard invalidation or the start of a full read, each row stands in a reply to a request issued since, unless another request took the place of an unfinished or failed read |
| `Machines.DropLeavesOld` | clients/cockpit/src/core.ts:2741-2752 | the other direction: more rows, or a row operation, settle the inventory exactly if no invalidation is held, with every row not read again still the old one |
| `Machines.DropLosesInvalidation` | clients/cockpit/src/core.ts:2741-2811 | the same over runs: any run in which a read is dropped while a row has not been brought goes on to settle without it |
| `Machines.SweepDropped` | clients/cockpit/src/core.ts:2717-2811 | a run from the start, for either kind of request in a state that offers it, that settles on a row never read since the invalidation |
| `Machines.HeldSweepDropped` | clients/cockpit/src/core.ts:2741-2811 | a run in which only a reply to an earlier request brought the rows, the sweep for the held invalidation is dropped, and the inventory settles |
| `Machines.FailedInvalidationForgotten` | clients/cockpit/src/core.ts:2752-2811 | a run from the start in which an invalidation after a failure is not held, and asking for more rows, which the host has, settles without a re-read |
| `Machines.SweepStep` | clients/cockpit/src/machines.ts:231-277 | one reply overwrites exactly the rows it covers; the sweep goes on right behind them, ends, or starts over |
| `Machines.SweepOverwrites` | clients/cockpit/src/machines.ts:231-277 | with further invalidations and replies to older requests in between, a sweep visits contiguous offsets, needs at most one reply per row, overwrites every row it passes with the host's, order and count unchanged, and starts again exactly if an invalidation came |
| `LocalTools.RunValid` | clients/cockpit/src/core.ts:3123-3238 | a launch in flight and an admitted operation never coexist, for any replies |
| `LocalTools.LaunchesExactly` | clients/cockpit/src/core.ts:3123-3129 | the states in which a tool is launched, and the token it keeps |
| `LocalTools.AdmitsExactly` | clients/cockpit/src/core.ts:3149-3157 | the answer to a launch admits exactly the operation it names, or none |
| `LocalTools.StrangersIgnored` | clients/cockpit/src/core.ts:3149-3225 | replies for another launch or operation, and ticks that are not due, change nothing |
| `LocalTools.RefusalFreesOwnDialog` | clients/cockpit/src/core.ts:3159-3167 | a launch that comes to nothing frees its own dialog and leaves any other alone |
| `LocalTools.AdmissionClosesOwnDialog` | clients/cockpit/src/core.ts:3169-3178 | an admitted one closes its own dialog and no other |
| `LocalTools.SetupExactly` | clients/cockpit/src/core.ts:3136-3143 | setup replies: unreadable, for an earlier dialog, or taken up, launching at once where that is all the dialog was for |
| `LocalTools.StatusExactly` | clients/cockpit/src/core.ts:3187-3197 | three phases end an operation, anything else waits |
| `LocalTools.AckExactly` | clients/cockpit/src/core.ts:3219-3225 | the acknowledgement of an end clears the operation, anything else is tried again |
| `LocalTools.LaunchCompletes` | clients/cockpit/src/core.ts:3123-3225 | a host that answers brings every launch to its acknowledgement, however often it reports it as running, with nothing left outstanding |
| `LocalTools.EndsExactly` | clients/cockpit/src/core.ts:3149-3225 | a launch ends only by a refused admission or a matching terminal acknowledgement |
| `LocalTools.LaunchesSeparated` | clients/cockpit/src/core.ts:3123-3238 | between two launches there is always such an end |
| `LocalTools.StepValid` | clients/cockpit/src/core.ts:3123-3238 | each step uses up one outstanding thing and leaves the right one |
| `LocalTools.AlwaysOneOutstanding` | clients/cockpit/src/core.ts:3169-3225 | with a host that answers what it was asked, an admitted operation has exactly one of status request, acknowledgement request and tick outstanding until acknowledged |
| `NativeReplicas.NativeReplica.constructor` | clients/phux-web/src/session.rs:288-304 | the given decoder, budget rule and limits; no terminal, nothing pushed or finished |
| `NativeReplicas.NativeReplica.ConfigureHistoryBudget` | clients/phux-web/src/session.rs:307-315 | the budget is kept non-zero and offered to the terminal there is |
| `NativeReplicas.NativeReplica.PushDecoder` | clients/phux-web/src/session.rs:352-359 | an answer without progress, or beyond what was handed over, is refused |
| `NativeReplicas.NativeReplica.ApplyBootstrapChunk` | clients/phux-web/src/session.rs:317-390 | a payload reaches the decoder from its start on, whole on success; READY replaces the terminal by what the decoder gave with it, if anything, and nothing else does; each refusal names the answer that caused it, and a success never had a history or FINISH answer; the loop terminates for any decoder; the typestate is kept by refused calls too |
| `NativeReplicas.NativeReplica.FinishBootstrap` | clients/phux-web/src/session.rs:392-415 | succeeds once, and only with a terminal |
| `NativeReplicas.NativeReplica.ApplyHistoryPage` | clients/phux-web/src/session.rs:417-491 | only between the end of bootstrap and FINISH; a payload reaches the decoder from its start on, whole on success; FINISH, even in a refused call, ends it; a success never had a READY answer; retained exactly if every page answer was |
| `NativeReplicas.NativeReplica.ApplyOutput` | clients/phux-web/src/session.rs:493-507 | accepted exactly with a terminal |
| `NativeReplicas.AfterFinishOnlyOutput` | clients/phux-web/src/session.rs:417-491 | nothing but live output gets past the adapter after FINISH |
| `NativeReplicas.HistoryOnlyAfterBootstrap` | clients/phux-web/src/session.rs:392-446 | history only after READY and the single end of bootstrap, and no bootstrap input from then on |
| `NativeReplicas.Drive` | clients/phux-web/src/session.rs:317-508 | for an arbitrary decoder and any calls, refused ones included, every call that gets past the adapter is legal, the decoder is fed payloads in order, and the successful calls are the recorded ones |
| `NativeReplicas.ReadyTwice` | clients/phux-web/src/session.rs:317-390 | a decoder that answers READY twice has its second terminal replace the first |

## Left out

- `usize` additions in the history cache are unbounded here. Byte and row totals reach at most their budget plus one page, pin counts at most the number of anchors, and the digest window's byte count the cursors of 65 pages plus 44 bytes for each.
- Projection width, `status`, prefetch and auto-continue queries of the history cache: plain reads with no further obligations.
- `SessionKernel` around the history cache, except its handling of a rejected request: bootstrap, layout and effects are a different machine.
- The kernel's choice to retire a generation on any page error: the model allows an invalidation at any time instead.
- Synthesized (non-native) replicas: every payload is written to the terminal unconditionally.
- Effect buffers and damage of the adapter: one constant entry per successful call.
- Payload decoding of the known snapshot extension kinds other than `window_contexts`: bounded field-by-field readers; `Snapshot.ReadExtensions` is proved for any decoders of known kinds.
- The snapshot's header, theme and settings sections, `target` bytes of tabs, and navigation pages: more length-prefixed readers of the same shape.
- The byte format of machine pages and local-tool replies: the transitions take parsed pages and replies, with `None` for a body that does not parse.
- Machine selection, filtering, forget confirmation and notices: display state that the sweep does not depend on.
- Result fields other than source, id and the three outcome tags, and notice texts: kept as raw bytes or dropped.
- The WebSocket path, canvas, keyboard, cursor blink and closing callbacks of the web client: I/O and display.
