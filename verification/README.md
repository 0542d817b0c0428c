# Ring queue, verdict protocol and webhook patches: a verified model

This project models the parts of the open-appsec attachment repository that decide
whether traffic data and verdicts arrive intact:

- the shared-memory ring queue that carries variable-length messages between the
  attachment and the nano service (`core/shmem_ipc_2/shared_ring_queue.c`; the same
  algorithm is in `core/shmem_ipc/shared_ring_queue.c`), as a value, as a class over
  arrays, and as a producer and a consumer interleaved store by store;
- the protocol on top of it in `attachments/nano_attachment`: the reply loop, the
  push-and-signal retry loop, header and body batching, delayed verdicts, the
  asynchronous verdict table and the metric fields;
- the JSON Patch lists (RFC 6902, sections 4.1 to 4.3) that the admission webhook emits.

`dafny verify dfyconfig.toml` checks everything.

## How it is laid out

| file | content |
|---|---|
| `Ring.dfy` | the ring as a value; space check, push, peek and pop in closed form, for every state including a corrupted one |
| `RingLayout.dfy` | what a ring means: cells, skip run, EMPTY words; a ring denotes at most one queue |
| `RingFifo.dfy` | admission, FIFO refinement of each operation and of every run, and exactly when it fails |
| `RingQueue.dfy` | the C loops over a word array and a byte array, proved equal to `Ring` |
| `Interleaving.dfy` | one producer, one consumer, every store a step, every read from the ring; invariant and call log over every schedule |
| `Uninterrupted.dfy` | the steps of a push, peek or pop that nobody interrupts add up to the closed form |
| `SkipTest.dfy` | the one step that is not safe: what it does to runs, and a rule for callers |
| `StaleSkip.dfy` | the skip word it can leave behind, and the harm that does later |
| `Geometry.dfy` | memory map, derivation of the segment size by an attaching process |
| `Memory.dfy` | words and data in one row of bytes; FIFO exactly when the words fit |
| `ReplyLoop.dfy`, `SendRetry.dfy`, `Batching.dfy`, `DelayedVerdict.dfy` | the verdict protocol |
| `AsyncTable.dfy`, `Metrics.dfy` | the asynchronous verdict table, the metric fields |
| `Arithmetic.dfy` | a fact about multiples |
| `JsonPatch.dfy`, `Webhook.dfy` | removal by position, the webhook's patch lists |

## Where the code does not do what it is for

These are theorems of the model.

- **Space check.** With `write_pos < read_pos` and a push that reaches or passes the end
  of the ring, the check adds the ring size to a read position that is already ahead and
  accepts pushes that overwrite queued messages (`RingFifo.AdmissionIsExact`). Outside that
  region, and only there, an accepted push of at least one byte appends
  (`RingFifo.PushIsFifoIff`). A run of four allowed operations reaches such a state
  (`RingFifo.OverrunIsReachable`).
- **Segment limit.** The limit of 2048 segments is computed for 4096-byte segments. With
  1024-byte segments the management words of a ring of more than 512 segments lie inside
  the data, and from exactly there on some run of allowed calls is not that of a FIFO
  (`Memory.FifoIffWordsFit`, `OverlapIsNotFifo`).
- **Empty messages.** A push of zero bytes takes a slot without a space check and is never
  freed (`RingFifo.ZeroPushBreaksTheLayout`, `RingFifo.ZeroHeadIsNeverPopped`).
- **Pop without peek.** Only peek steps over a skip run at the head. An unpeeked pop there
  removes the head exactly when the head is as long as the skip marker reads
  (`RingFifo.PopIsFifoIff`, reached in `RingFifo.UnpeekedPopIsReachable`).
- **Pop of the last message during a wrapping push.** The pop's test for a skip run can
  find the push's unfinished skip words. At the moment that pop ends, the emptiness test is
  wrong iff the push has not been published: the ring is not empty although everything was
  released (`SkipTest.PhantomIff`). If the push is published first, the ring after the pop
  is the right one-message queue exactly when the pop never cleared past the last skip word
  stored (`SkipTest.HealsIff`). If it did, a skip word stays behind, and further calls, one
  after the other, lead to a ring that is not empty with everything released
  (`StaleSkip.OvertakenShowsPhantomLater`, from a created ring of eight segments in
  `StaleSkip.LaterPhantomIsReachable`). Callers who do not pop the last message while a
  wrapping push is under way, nor start one during such a pop, never get there
  (`SkipTest.CarefulRunsAreFifo`).
- **Custom responses.** They are always popped from the main reply queue. A receive that
  stops at one on the sync queue leaves it there and drops the main queue's head; every
  other receive takes exactly what it read (`ReplyLoop.PopsWhatItReadIff`,
  `ReplyLoop.CustomResponseIsReadTwice`).
- **End of transaction.** A sync send that fails there leaves no error, so a fail-close
  attachment on a session under inspection does not drop (`DelayedVerdict.UnsentEndIsNotDropped`;
  `DelayedVerdict.FailCloseDropsUnlessServicePasses` has the exact condition).
- **Send retries.** A failed send can have pushed up to four copies of the message
  (`SendRetry.SendAccounts`, `FailureWithFourCopies`).
- **Body index.** The loop over body chunks has an 8-bit index; while sends succeed it ends
  iff there are at most 255 chunks (`Batching.BodyLoopEndsIff`, `Batching.SendBodies`).
- **Verdict table.** A lookup returns and erases another session's verdict exactly when a
  live id has the same residue modulo 2048 (`AsyncTable.TakeAgreesIff`,
  `AsyncTable.LookupTakesAnothersVerdict`).
- **Environment removal.** Applied, it leaves exactly the variables not named iff the named
  ones that are there stand in the reverse of the order in which they are removed and none
  of them is there twice (`Webhook.RemoveVariablesIff`, `WrongOrderLosesAVariable`,
  `RepeatedVariableStays`). After an injection into a list that held none of them this is
  always so (`Webhook.InjectThenRemove`).

## Model

| member | source | states |
|---|---|---|
| Ring.SegsIsCeiling | core/shmem_ipc_2/shared_ring_queue.c:165-179 | the segment count is the least whose capacity holds the message; at most 64 for 16-bit sizes |
| RingFifo.SpaceCheckDoesNotWrap | core/shmem_ipc_2/shared_ring_queue.c:181-223 | none of the 8-bit and 16-bit conversions in the check cuts a value |
| RingFifo.AdmissionIsExact | core/shmem_ipc_2/shared_ring_queue.c:181-223 | the check accepts iff all touched segments are free and one free one is left, or the push is in the overrun region; check and intent agree iff it is not |
| RingFifo.EmptyRingAccepts | core/shmem_ipc_2/shared_ring_queue.c:201-220 | an empty ring accepts a push of k segments at every position iff 2k is at most the ring size |
| RingFifo.LimitIsBelowMarkers | core/shmem_ipc_2/shared_ring_queue.c:32-34 | the write limit admits exactly the sizes below the two markers |
| RingFifo.PushErrors | core/shmem_ipc_2/shared_ring_queue.c:569-640 | for every ring, which error a push returns: -1 iff the header disagrees or a position lies outside, -2 iff over the limit, -3 and -4 in that order; an error changes nothing |
| RingFifo.ReadErrors | core/shmem_ipc_2/shared_ring_queue.c:502-540 | the same for peek and pop; at a read position equal to the ring size a peek fails and a pop goes on |
| RingLayout.TilesUnique | core/shmem_ipc_2/shared_ring_queue.c:32-34 | sizes never collide with the markers, so a row of cells reads back in one way |
| RingLayout.LayoutUnique | core/shmem_ipc_2/shared_ring_queue.c:603-683 | the published region parses uniquely into messages and at most one skip run |
| RingLayout.DenotesUnique | core/shmem_ipc_2/shared_ring_queue.c:603-683 | a ring denotes at most one queue |
| RingFifo.WrittenCell | core/shmem_ipc_2/shared_ring_queue.c:646-683 | a push stores its message as a cell, and no word or byte outside its own segments and skip run changes |
| RingFifo.PushAppends | core/shmem_ipc_2/shared_ring_queue.c:646-683 | an admissible push keeps the management-word invariant and appends |
| RingFifo.OverrunLosesTheQueue | core/shmem_ipc_2/shared_ring_queue.c:210-220 | a push accepted in the overrun region leaves fewer messages than it should, whatever is read back |
| RingFifo.ZeroPushTakesASlot | core/shmem_ipc_2/shared_ring_queue.c:661-683 | a push of no bytes is accepted by every ring, full or not, and takes one word and one write position |
| RingFifo.ZeroPushBreaksTheLayout | core/shmem_ipc_2/shared_ring_queue.c:661-683 | after a push of no bytes the ring denotes no queue |
| RingFifo.PushIsFifoIff | core/shmem_ipc_2/shared_ring_queue.c:569-687 | refusal changes nothing; the exact acceptance condition; an accepted push appends iff it has a byte and is not in the overrun region |
| RingFifo.PeekShowsHead | core/shmem_ipc_2/shared_ring_queue.c:502-567 | peek returns the head's size and bytes, keeps the queue, is repeatable, and fails iff empty |
| RingFifo.PopDropsHead | core/shmem_ipc_2/shared_ring_queue.c:701-764 | after a peek, pop removes exactly the head and keeps the invariant |
| RingFifo.PopIsFifoIff | core/shmem_ipc_2/shared_ring_queue.c:727-760 | pop removes exactly the head iff it was peeked or is as long as a skip word reads |
| RingFifo.ZeroHeadIsNeverPopped | core/shmem_ipc_2/shared_ring_queue.c:727-760 | a pop at a zero-sized head reports success and changes nothing |
| RingFifo.StepRefinesFifo | core/shmem_ipc_2/shared_ring_queue.c:502-764 | every allowed operation is a step of a bounded FIFO of byte strings: a push is refused with -2 iff it is over the limit, with -3 iff there is no room, and nothing else is refused |
| RingFifo.RunRefinesFifo | core/shmem_ipc_2/shared_ring_queue.c:502-764 | over every run, codes, refusals and bytes seen are those of the bounded FIFO, and the last ring denotes its content |
| RingFifo.FreshIsEmpty | core/shmem_ipc_2/shared_ring_queue.c:377-387 | a created ring denotes the empty queue |
| RingFifo.OverrunIsReachable | core/shmem_ipc_2/shared_ring_queue.c:211-220 | a run of allowed operations after which an accepted push loses queued messages |
| RingFifo.UnpeekedPopIsReachable | core/shmem_ipc_2/shared_ring_queue.c:727-760 | a run of allowed operations after which a pop without a peek reports success and does not leave the queue empty |
| RingQueue.RingQueue.constructor | core/shmem_ipc_2/shared_ring_queue.c:377-391 | the created queue is an empty, well-formed ring |
| RingQueue.RingQueue.TotalSize | core/shmem_ipc_2/shared_ring_queue.c:603-617 | the early-exit sum accepts iff the concatenation is within the write limit, and is its length |
| RingQueue.RingQueue.CopyBuffers | core/shmem_ipc_2/shared_ring_queue.c:662-674 | the buffers land one behind the other and nothing else changes |
| RingQueue.RingQueue.WriteMessage | core/shmem_ipc_2/shared_ring_queue.c:646-683 | skip run, header, bytes, tail and new write position equal the closed form |
| RingQueue.RingQueue.PushBuffers | core/shmem_ipc_2/shared_ring_queue.c:569-687 | code and state equal the closed form on every ring; on a ring denoting q the result denotes q plus the message, or q |
| RingQueue.RingQueue.ClearSkips | core/shmem_ipc_2/shared_ring_queue.c:544-550 | the skip loop clears exactly the maximal skip run at the read position |
| RingQueue.RingQueue.PeekHead | core/shmem_ipc_2/shared_ring_queue.c:502-567 | result and state equal the closed form on every ring; on a ring denoting q it shows q's head and keeps q |
| RingQueue.RingQueue.ClearHead | core/shmem_ipc_2/shared_ring_queue.c:729-758 | the clearing loops and the new read position equal the closed form for every size word |
| RingQueue.RingQueue.PopHead | core/shmem_ipc_2/shared_ring_queue.c:701-764 | code and state equal the closed form on every ring; on a peeked ring denoting q the result denotes q without its head |
| Interleaving.StepKeeps | core/shmem_ipc_2/shared_ring_queue.c:502-764 | every enabled store of either side, in any state, keeps the invariant unless it is the hazard |
| Interleaving.EveryInterleavingIsFifo | core/shmem_ipc_2/shared_ring_queue.c:502-764 | in every schedule the messages the consumer read from the ring are a prefix of those published, and all calls that ended, in the order of the stores that ended them, form a run of the bounded FIFO that holds the rest |
| Interleaving.PublishKeeps | core/shmem_ipc_2/shared_ring_queue.c:682-683 | the store to the write position turns the words and bytes written so far into the newest message |
| Interleaving.InitHolds | core/shmem_ipc_2/shared_ring_queue.c:377-387 | the invariant holds of a created ring |
| Uninterrupted.PushAlone | core/shmem_ipc_2/shared_ring_queue.c:569-687 | the stores of a push that nobody interrupts add up to the sequential push |
| Uninterrupted.PeekAlone | core/shmem_ipc_2/shared_ring_queue.c:502-567 | the steps of a peek that nobody interrupts add up to the sequential peek |
| Uninterrupted.PopAlone | core/shmem_ipc_2/shared_ring_queue.c:701-764 | the steps of a pop that nobody interrupts add up to the sequential pop |
| Interleaving.StaleCheckStaysValid | core/shmem_ipc_2/shared_ring_queue.c:589-633 | after the space check and any schedule before the publish, the check would still accept the push at the current read position, and its segments are still free |
| Interleaving.PeekReturnsOldest | core/shmem_ipc_2/shared_ring_queue.c:544-557 | a peek interleaved with a push shows, and logs, the size and bytes of the oldest unreleased message |
| Interleaving.PeekedBytesStay | core/shmem_ipc_2/shared_ring_queue.c:554-557 | the bytes a peek points to stay until the pop, whatever the producer does |
| Interleaving.PopReleasesOldest | core/shmem_ipc_2/shared_ring_queue.c:736-760 | what the caller read at the head before the pop, and the pop releases, is the oldest message |
| Interleaving.EmptyTestIsExact | core/shmem_ipc_2/shared_ring_queue.c:766-770 | at every moment the positions are equal iff everything published was released |
| Interleaving.StoreLeavesPublished | core/shmem_ipc_2/shared_ring_queue.c:646-680 | no store of a push reaches a published word or byte |
| Interleaving.AdvanceLeavesFree | core/shmem_ipc_2/shared_ring_queue.c:729-746 | no store of a peek or pop reaches a free word |
| Interleaving.HazardNeeds | core/shmem_ipc_2/shared_ring_queue.c:742-746 | the hazard needs the last message being popped and a wrapping push under way |
| SkipTest.HazardArises | core/shmem_ipc_2/shared_ring_queue.c:646-651 | it is reached from every quiet ring with one message that accepts a wrapping push |
| SkipTest.HazardIsReachable | core/shmem_ipc_2/shared_ring_queue.c:742-746 | a whole schedule from a created ring of six segments that ends in the hazard |
| SkipTest.HazardShowsPhantom | core/shmem_ipc_2/shared_ring_queue.c:742-760 | the pop finishing alone then leaves a ring on which a peek succeeds although all is released |
| SkipTest.PhantomIff | core/shmem_ipc_2/shared_ring_queue.c:742-760 | from the hazard on, whatever both sides do: when the pop has ended, the emptiness test is right iff the push was published before; otherwise a peek succeeds on nothing |
| SkipTest.HealsIff | core/shmem_ipc_2/shared_ring_queue.c:646-651 | if the push is published first, the ring after the pop is the queue of that message, and the invariant is back, iff the pop never cleared past the last skip word stored |
| SkipTest.OvertakingArises | core/shmem_ipc_2/shared_ring_queue.c:742-746 | from every hazard at which a skip word is still to be stored, a run to the end of the push in which the pop cleared past it |
| StaleSkip.OvertakenShowsPhantomLater | core/shmem_ipc_2/shared_ring_queue.c:742-760 | after every such run, with the push published before the pop ends: uninterrupted calls that leave a ring not empty with everything released |
| StaleSkip.LaterPhantomIsReachable | core/shmem_ipc_2/shared_ring_queue.c:742-760 | a whole run from a created ring of eight segments in which this happens |
| SkipTest.CarefulRunsAreFifo | core/shmem_ipc_2/shared_ring_queue.c:502-764 | runs in which the last message is not popped during a wrapping push, nor such a push started during that pop, never meet the hazard and are FIFO |
| Geometry.DerivedIff | core/shmem_ipc_2/shared_ring_queue.c:102-144 | a segment size of 1024 or 4096 is derived from a header iff its memory size is that of an owner with 1 to 2048 such segments |
| Geometry.AttachAdoptsOwner | core/shmem_ipc_2/shared_ring_queue.c:328-399 | the owner's stamp, and that whatever was negotiated the attaching side ends with the owner's view, its segments in place and no corruption report |
| Geometry.ReadableIffNotCorrupted | core/shmem_ipc_2/shared_ring_queue.c:775-806 | on a queue of the right name the operations go ahead exactly where the corruption test does not report |
| Geometry.SegmentsFollowManagement | core/shmem_ipc_2/shared_ring_queue.c:146-161 | both address branches give header, management segment and i data segments |
| Geometry.LayoutIsDisjointIff | core/shmem_ipc_2/shared_ring_queue.c:349-351 | header, words and segments are disjoint and inside the mapping iff the management segment holds all words |
| Memory.FlatPushIsPush | core/shmem_ipc_2/shared_ring_queue.c:569-687 | where the words fit, the stores of a push into one row of bytes are the push on words and data, on every state |
| Memory.FlatPeekIsPeek | core/shmem_ipc_2/shared_ring_queue.c:502-567 | the same for peek |
| Memory.FlatPopIsPop | core/shmem_ipc_2/shared_ring_queue.c:701-764 | the same for pop, also at a read position equal to the ring size |
| Memory.FlatRunIsFifo | core/shmem_ipc_2/shared_ring_queue.c:377-387 | where the words fit, every run of allowed operations from creation is that of a bounded FIFO |
| Memory.OverlapIsNotFifo | core/shmem_ipc_2/shared_ring_queue.c:303-311 | for each number of 1024-byte segments from 513 to 2048, a run of allowed operations from creation that no FIFO could produce |
| Memory.FifoIffWordsFit | core/shmem_ipc_2/shared_ring_queue.c:303-387 | for every ring that is created, all runs are FIFO iff the words fit into the management segment |
| ReplyLoop.FoldStopsFirst | attachments/nano_attachment/nano_attachment_io.c:1034-1239 | the loop stops at the first own reply that is ACCEPT, DROP, CUSTOM_RESPONSE or the last one owed, having read exactly that prefix; FORBIDDEN iff that reply is DROP or CUSTOM_RESPONSE; the verdict each kind of reply leaves; count owed; failure iff there is none |
| ReplyLoop.FoldVerdict | attachments/nano_attachment/nano_attachment_io.c:1048-1217 | whether the loop ends well or the replies run out, the session verdict is what the last reply heeded is to leave, and unchanged if none was |
| ReplyLoop.OkVerdicts | attachments/nano_attachment/nano_attachment_io.c:1078-1229 | success never leaves RECONF, INJECT or LIMIT_RESPONSE_HEADERS; refusal iff DROP or CUSTOM_RESPONSE |
| ReplyLoop.Session.Handle | attachments/nano_attachment/nano_attachment_io.c:1065-1230 | one reply: count, the verdict its kind is to leave, whether and how the loop ends, and which queue it is popped from |
| ReplyLoop.Session.Consume | attachments/nano_attachment/nano_attachment_io.c:1034-1239 | told by the replies alone: how many are read, how it ends, the verdict left, and both queues; stopping at a custom response on the sync queue leaves that and drops the main queue's head |
| ReplyLoop.Session.Receive | attachments/nano_attachment/nano_attachment_io.c:996-1240 | nothing owed gives INSPECT, a failed signal changes nothing, otherwise as Consume; the books of messages sent and answered take one step of the account and stay balanced |
| ReplyLoop.PopsWhatItReadIff | attachments/nano_attachment/nano_attachment_io.c:1152-1153 | the replies up to the first stop leave their queue and the other queue is untouched iff it is the main queue or that stop is no custom response; else that response stays and the main queue loses its head |
| ReplyLoop.CustomResponseIsReadTwice | attachments/nano_attachment/nano_attachment_io.c:1152-1153 | two queues on which another session's verdict is lost and the same custom response is read again |
| ReplyLoop.OwedIsSentLessAnswered | attachments/nano_attachment/nano_attachment_io.c:1018-1066 | over every run, replies owed equal messages sent less own replies consumed since the last final verdict |
| SendRetry.Send | attachments/nano_attachment/nano_attachment_io.c:332-441 | success iff one of five attempts pushes with the signal or restart before it well ended and none before it succeeded or lost the connection; at most five pushes; the copies pushed |
| SendRetry.SendAccounts | attachments/nano_attachment/nano_attachment_io.c:353-394 | copies pushed are one plus the strays; exactly one iff no earlier push went through with a trouble carried; never more than four |
| SendRetry.FailureWithFourCopies | attachments/nano_attachment/nano_attachment_io.c:353-394 | a failing send that has pushed four copies |
| Batching.AddHeader | attachments/nano_attachment/nano_attachment_io.c:1793-1819 | the slots behind the prefix hold exactly the headers added so far, sizes included |
| Batching.TakeBulk | attachments/nano_attachment/nano_attachment_io.c:1733-1760 | the slots sent are the encoding of those headers, flag and index |
| Batching.SendHeaders | attachments/nano_attachment/nano_attachment_io.c:1821-1896 | success iff every send is accepted; what went out, cut up by its size fields and joined, is a prefix of the list, and all of it iff the sender succeeded; the counter grows by the number of bulks |
| Batching.BulksPartition | attachments/nano_attachment/nano_attachment_io.c:1849-1894 | cut up by the size fields and joined, the messages give the list; all but the last carry ten headers; identifiers in place; only the last carries the flag |
| Batching.IndexIsExactIff | attachments/nano_attachment/nano_attachment_io.c:1741-1750 | every message carries its own number as part index iff there are at most 2560 headers |
| Batching.DecodeEncode | attachments/nano_attachment/nano_attachment_io.c:1814-1818 | a receiver that goes by the size fields alone gets a bulk's headers back |
| Batching.SendBodies | attachments/nano_attachment/nano_attachment_io.c:1945-1983 | success iff there are at most 255 chunks and their sends are accepted; what is sent is what the loop sends, up to the first send refused |
| Batching.BodyLoopEndsIff | attachments/nano_attachment/nano_attachment_io.c:1933-1983 | with every send accepted the loop ends iff there are at most 255 chunks, having sent each once, in order, with its index and the flag on the last; otherwise it sends chunk i modulo 256 for ever |
| DelayedVerdict.DecideSettles | attachments/nano_attachment/nano_attachment_sender.c:321-361 | the decision is the verdict of the first thread or, if that left it delayed, of the first allowed poll that did not, and a failure if there is none or it failed |
| DelayedVerdict.Transaction.HandleDelayed | attachments/nano_attachment/nano_attachment_sender.c:309-361 | polls exactly up to the first that ends late or settles, and no more than configured; that one decides |
| DelayedVerdict.Transaction.Send | attachments/nano_attachment/nano_attachment_sender.c:473-528 | for all thread outcomes: the session keeps the deciding thread's verdict; ACCEPT iff that is ACCEPT, DROP iff it is DROP or CUSTOM_RESPONSE; without one both follow the fail mode; number of polls; never left DELAYED |
| DelayedVerdict.OpenIffDelayed | attachments/nano_attachment/nano_attachment_sender.c:517-521 | a thread that waited and ended well leaves its verdict to be polled for iff its stop reply is DELAYED |
| DelayedVerdict.TaskBlocksIff | attachments/nano_attachment/nano_attachment_io.c:1996-2133 | a sender thread ends in a block iff the first reply at which its loop may stop is the session's own block or, if it did not wait for replies, the session was blocked before |
| DelayedVerdict.PollBlocksIff | attachments/nano_attachment/nano_attachment_io.c:2072-2133 | a delayed-verdict poll ends in a block iff the first reply at which the loop may stop is the session's own block |
| DelayedVerdict.FailOpenDropsOnServiceBlock | attachments/nano_attachment/nano_attachment_sender.c:321-361 | with any thread free to time out, a fail-open attachment drops iff the service blocks in the first thread or, if that leaves the verdict delayed, in the first allowed poll not left open |
| DelayedVerdict.FailCloseDropsUnlessServicePasses | attachments/nano_attachment/nano_attachment_sender.c:321-361 | a fail-close attachment drops unless the first thread or, after a delayed verdict, the first allowed poll not left open ends in time with the service passing |
| DelayedVerdict.UnsentEndIsNotDropped | attachments/nano_attachment/nano_attachment_io.c:2042-2053 | an input on which nothing was sent and a fail-close attachment does not drop |
| AsyncTable.CollideIff | attachments/nano_attachment/nano_attachment_bucket.c:14-20 | two ids share a bucket iff they are congruent modulo 2048 |
| AsyncTable.AddAgreesIff | attachments/nano_attachment/nano_attachment_bucket.c:61-76 | storing agrees with a map iff no other live id has the same residue |
| AsyncTable.TakeAgreesIff | attachments/nano_attachment/nano_attachment.c:429-438 | take-once lookup agrees with a map iff no other live id has the same residue; an absent id gets its own id, no content, and ACCEPT if fail-open, DROP if not |
| AsyncTable.LookupTakesAnothersVerdict | attachments/nano_attachment/nano_attachment_bucket.c:22-84 | ids 1 and 2049: the one gets the other's verdict, which then has none |
| AsyncTable.RunAgrees | attachments/nano_attachment/nano_attachment_bucket.c:22-84 | over every clash-free run all lookups answer as the map does, with the fail-mode verdict for absent ids |
| AsyncTable.Buckets.Store | attachments/nano_attachment/nano_attachment.c:401-427 | id 0 is not stored; any other response goes to its bucket and nothing else changes |
| AsyncTable.Buckets.TakeVerdict | attachments/nano_attachment/nano_attachment.c:429-438 | result and table equal the value form, and the map's where there is no clash; ACCEPT for an absent id iff fail-open, DROP iff not |
| Metrics.AverageErrorBound | attachments/nano_attachment/nano_attachment_metric.c:22-29 | for k samples with sum T the average a has 0 <= T - k*a <= k(k-1)/2 and lies between the samples |
| Metrics.ErrorBoundIsTight | attachments/nano_attachment/nano_attachment_metric.c:22-29 | for every k there are samples that attain the bound |
| Metrics.MaximumIsExact | attachments/nano_attachment/nano_attachment_metric.c:31-35 | the field is the greatest sample |
| Metrics.MinimumIsExact | attachments/nano_attachment/nano_attachment_metric.c:37-45 | the field is the least nonzero sample, or 0 if there is none |
| Metrics.CounterIsExact | attachments/nano_attachment/nano_attachment_metric.c:16-20 | the field is the sum modulo 2^64 |
| Metrics.MetricTable.UpdateField | attachments/nano_attachment/nano_attachment_metric.c:47-83 | one field is fed one sample, no other field changes |
| Metrics.MetricTable.Reset | attachments/nano_attachment/nano_attachment_metric.c:6-14 | every field is as if it had been fed nothing |
| JsonPatch.DescendingRemoves | docker/openappsec-waf-webhook/webhook_server.py:931-937 | removals with descending indices leave exactly the other entries |
| JsonPatch.RemovalIsRightIff | docker/openappsec-waf-webhook/webhook_server.py:469-488 | for any list and distinct positions whose entries occur nowhere else in it, sequential removals leave exactly the other entries iff the indices descend |
| Webhook.PatchList.AddVariable | docker/openappsec-waf-webhook/webhook_server.py:415-465 | the patch appended for one variable, and when the helper raises |
| Webhook.PatchList.AddAll | docker/openappsec-waf-webhook/webhook_server.py:964-974 | the injection patches for the proxy container; applied, they leave the list InjectionShows describes |
| Webhook.InjectionRaisesIff | docker/openappsec-waf-webhook/webhook_server.py:428-429 | injection raises iff a variable to be set is there without a plain value |
| Webhook.InjectionIsUpsert | docker/openappsec-waf-webhook/webhook_server.py:372-467 | applied in sequence, the patches update or add each variable, for any list and for none |
| Webhook.InjectionShows | docker/openappsec-waf-webhook/webhook_server.py:372-467 | variable by variable: a named one gets its setting, LD_LIBRARY_PATH keeps its value if it contains the setting and otherwise gets it behind a colon, all others stay, the missing ones are added in order |
| Webhook.LibraryPathGrows | docker/openappsec-waf-webhook/webhook_server.py:431-438 | the old library path stays in front, the setting is in the new one, and nothing changes iff it was there |
| Webhook.InjectedSettingsAre | docker/openappsec-waf-webhook/webhook_server.py:967-974 | each of the four variables gets the value of its own setting, if not empty |
| Webhook.PatchList.RemoveVariables | docker/openappsec-waf-webhook/webhook_server.py:469-493 | one removal for each name present, at its position in the document as received |
| Webhook.RemovalReversesInjection | docker/openappsec-waf-webhook/webhook_server.py:876-884 | for every setting of the four switches, the names removed are the names injected in reverse |
| Webhook.InjectThenRemove | docker/openappsec-waf-webhook/webhook_server.py:964-974 | for a list without the four variables, injecting with one configuration and removing with another leaves the list, OPENAPPSEC_UID and the variables injected but not named for removal |
| Webhook.InjectThenRemoveRestores | docker/openappsec-waf-webhook/webhook_server.py:876-884 | with the same configuration the list is restored except for OPENAPPSEC_UID |
| Webhook.RemoveVariablesIff | docker/openappsec-waf-webhook/webhook_server.py:469-493 | for any list, the removals, applied, leave exactly the variables not named iff the positions found descend and no named variable is there twice |
| Webhook.WrongOrderLosesAVariable | docker/openappsec-waf-webhook/webhook_server.py:876-884 | a list and a configuration for which removal deletes an unrelated variable and keeps LD_LIBRARY_PATH |
| Webhook.RepeatedVariableStays | docker/openappsec-waf-webhook/webhook_server.py:469-488 | a list on which one of two variables of the name stays |
| Webhook.RemoveContainers | docker/openappsec-waf-webhook/webhook_server.py:916-938 | the positions emitted are those of the injected containers, and applying them filters these out |

## Assumptions of the model

- `Ring` keeps words and data apart, which is so when `2n <= s` (`Ring.Sized`); `Memory`
  is the model without that assumption and shows that the FIFO law fails without it.
- Callers of the FIFO theorems keep to `RingFifo.Allowed`: at least one byte, not in the
  overrun region, pop after peek. All of it is visible before the call.
- In `Interleaving` memory is sequentially consistent; a space check reads both positions in
  one step, and the word a peek reports is read in the step that stores the read position.
  What a pop releases is what the caller could read at the head when it called.
- Sockets, signals, threads, restarts and the service are inputs: a reply stream that ends
  is a receive that timed out, `Attempt`, `Run` and `Service` are what one attempt or thread met.
- The pop of a custom response from the main queue is not preceded by a peek there; the main
  queue's head is assumed not to stand behind a skip run (`RingFifo.PopIsFifoIff`).
- Reply counts are unbounded; the source's are 32-bit.
- The webhook theorems are about the first container of the proxy's name.

## Left out

- RingFifo.FreshIsEmpty: only for rings whose words fit into the management segment; for the others `Memory.OverlapIsNotFifo` shows that there is no queue to denote.
- RingQueue.RingQueue.constructor: the same condition; the class keeps words and data in two arrays.
- Interleaving.InitHolds: the same condition.
- ReplyLoop.Session.Handle: the unpeeked pop of the main queue removes its head; what it does to a head behind a skip run is in RingFifo.PopIsFifoIff and not carried into the session.
- shm_open, mmap, ftruncate, metadata files and environment parsing: foreign calls; the negotiated size is an arbitrary input.
- The segment-size negotiation and the four-slot parameter registry of core/shmem_ipc: its ring algorithm is the one modelled.
- Memory orderings weaker than sequential consistency: the code has no fences to model.
- Modification lists, web responses and block pages: opaque; they do not influence the verdict.
- The retry loop inside receive_data_from_service and the signal loop before a receive: inputs of the reply loop.
- handle_shmem_corruption and reconnecting: its outcome is an input of DelayedVerdict.Transaction.Send.
- The failed-session-id queue; the metadata, response code and content length senders, which send one message each.
- compression_utils.cc and nano_compression.c: decided by zlib and Brotli.
- Volume mounts, volumes, init containers, annotations and Kubernetes API calls of the webhook.
- Envoy Go utilities, key generation, version scripts, mocks and configuration getters.
