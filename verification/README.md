# Panopticon agent: a verified model

The agent keeps telemetry and response commands in one bounded, encrypted journal and feeds it from
native Windows sources. This project models the parts of it where a mistake would lose, repeat or
misreport something, and proves what those parts keep over every run.

| files | what they model |
|---|---|
| `Store.dfy`, `Journal.dfy` | the journal: trigger-maintained counters, the byte quota, appends, faults at commit |
| `SourceLog.dfy`, `Checkpoints.dfy` | per-source checkpoints advanced by compare-and-swap |
| `Delivery.dfy` | outbound batches and the receipts that settle them |
| `Response.dfy` | the durable command state machine with crashes and restarts |
| `Ancestry.dfy`, `AncestryCycles.dfy`, `Graph.dfy` | the bounded process-ancestry query and its index |
| `Policy.dfy` | signed-policy activation, confirmation and rollback |
| `UsnDecoder.dfy`, `UsnWorker.dfy`, `Discovery.dfy` | the change-journal decoder, the cursor protocol, volume discovery |
| `FileIntegrity.dfy` | the baseline walk of a directory graph and the shared hashing budget |
| `NotificationRing.dfy`, `ImageCache.dfy` | the bounded notification ring and the two-generation process cache |
| `Common.dfy`, `Decimal.dfy` | shared types, canonical decimal text |

Conventions. A class in the source whose methods update its fields is a class here; SQL tables are
sequences in row order and each SQL trigger is a function on them. What the environment decides is
a parameter or an arbitrary choice: whether a commit fails, or succeeds and reports failure, where
the process dies, what a native call returns, when a stop is requested. SHA-256 is an injective
constructor. JSON parsing, signature checking and UTF-8 conversion are function parameters.
Methods named `AnyRun` or `Run` stand for every sequence of the operations with every such choice,
so their postconditions hold in every reachable state. A `quiet` parameter restricts these choices to
a world without faults, so that progress can be stated.

## Where the code falls short

- Resuming an interrupted file acquisition (src/main.cpp:809-818). The comment promises that an
  interrupted ACQUIRE_FILE continues after a restart. The guard compares the stored key, which is a
  digest of the scope and the command id (src/main.cpp:872), with the command id itself. `ResumeGuard`
  proves that it holds if and only if the stored key is a fixed point of that keyed digest, and
  `OtherLengthNeverResumes` gives the failing inputs: an id of any length but 64 is never resumed.
  `ResponseRuntime.AnyRun` carries both over every run. Every other interrupted command is never
  executed again, as promised.
- Volume discovery (src/collectors/usn_journal.cpp:78-147). An enumeration is sorted but not
  deduplicated, and the checkpoint decoder demands a strictly increasing list. `CheckpointRoundTrip`
  proves that a checkpoint reads back if and only if its volumes are canonical and strictly ordered
  within the bounds; `RepeatPoisons` and `Publisher.Publish` prove that an enumeration repeating a volume writes
  a checkpoint that does not read back, after which nothing is published again.
- Draining the outbox (src/delivery/journal.cpp:175, 503 and 525). The journal accepts lines of up to
  8 MiB, but a batch is at most 8 MiB including newlines. `OversizedLineBlocks` accepts an 8 MiB line
  after which no admissible peek returns anything. `DurableJournal.Drain` and
  `DurableJournal.NeverDrains` make the condition exact: repeated peek and acknowledge can empty the
  queue if and only if every waiting line fits the byte bound, apart from a quota that cannot hold the
  texts of rejections.

## Model

| member | source | states |
|---|---|---|
| `Decimal.CanonicalText` | src/delivery/journal.cpp:403-409 | a text parses to a number within the bound if and only if it is exactly that number's printed form |
| `Decimal.PrintedValue` | src/collectors/usn_decoder.cpp:21-34 | the printed form is nonempty, all digits, without a leading zero, and has the value it was printed from |
| `Decimal.PrintsBack` | src/collectors/usn_journal.cpp:116-124 | every canonical digit text is the printed form of its value, so no two texts name one revision |
| `Graph.CycleClosesBack` | src/delivery/journal.cpp:702-720 | an edge lies on a directed cycle exactly when its target leads back to its source, which is the test the cycle pass makes |
| `Graph.ClosedReach` | src/delivery/journal.cpp:635-701 | nothing outside a set closed under edges can be reached from inside it |
| `AncestryCycles.Adjacency` | src/delivery/journal.cpp:702-706 | the adjacency map lists exactly the edges of the answer |
| `AncestryCycles.Leads` | src/delivery/journal.cpp:707-717 | the worklist search ends on every graph and answers true exactly when a path of edges exists |
| `AncestryCycles.MarkCycles` | src/delivery/journal.cpp:702-720 | after the pass an edge is marked if and only if it lies on a directed cycle of the recorded edges, and no claim is altered |
| `Ancestry.EnqueueKeeps` | src/delivery/journal.cpp:683-690 | a claimed parent is queued once at its shortest distance, or the search is truncated because the node bound is reached or, unless a reading was cut, because every walk to that parent exceeds the depth bound |
| `Ancestry.ChargeSearching` | src/delivery/journal.cpp:664-691 | charging one evidence row keeps the bounds, and its claimed parent has its place |
| `Ancestry.TakeRow` | src/delivery/journal.cpp:664-691 | one evidence row is charged, recorded with its claim and its parent placed, or it does not fit the bytes left and the reading is cut |
| `Ancestry.ReadEvidence` | src/delivery/journal.cpp:649-692 | reads the indexed rows of the entity in order to the end, or stops exactly where the evidence bound is reached or the next row does not fit; a sound index is always confirmed |
| `Ancestry.Summarize` | src/delivery/journal.cpp:646-698 | a node's first and last rows, birth and stop evidence and reported parents are those of the rows it cites |
| `Ancestry.VisitNode` | src/delivery/journal.cpp:642-698 | one queued entity is read and its node charged, or the charges of everything read including this node exceed the byte bound |
| `Ancestry.Traverse` | src/delivery/journal.cpp:635-701 | the breadth-first loop ends, reads each queued entity once, and leaves one behind only at the evidence bound or after a node that does not fit |
| `Ancestry.CompleteIsExact` | src/delivery/journal.cpp:701-722 | an exhausted untruncated search over a full index has exactly the reachable entities, all their evidence and all their claims, and all of them are within the depth and the node bound |
| `Ancestry.QueuedClosed` | src/delivery/journal.cpp:635-701 | the queued entities of an exhausted untruncated search are closed under the indexed parent claims |
| `Ancestry.MatchingIsEvidence` | src/delivery/journal.cpp:649-662 | selecting through a complete index by digest gives exactly the archive's evidence rows |
| `Ancestry.ClaimsReadAreAll` | src/delivery/journal.cpp:664-691 | the claims read node by node are all claims of the archive about the listed entities |
| `Ancestry.IndexTotal` | src/delivery/journal.cpp:722-722 | a sound index with as many rows as the archive misses none |
| `Ancestry.CheckRequest` | src/delivery/journal.cpp:615-619 | a query is admitted exactly for a prefix and 64 lower-case hexadecimal digits and bounds in their ranges |
| `Ancestry.ProcessAncestry` | src/delivery/journal.cpp:613-725 | every answer accounts for itself, is within all bounds, has real edges flagged exactly when on a cycle, and is exact when complete; without a backlog and when reading the evidence exhausts no bound, it is complete if and only if every reachable entity is within the depth and the node bound, cycles included; a refusal for size means that such an answer exceeds the byte bound |
| `Ancestry.BackfillKeeps` | src/delivery/journal.cpp:586-611 | backfilling any number of unindexed rows keeps the index sound, keeps old rows and adds one row for each |
| `Ancestry.BackfillsOldest` | src/delivery/journal.cpp:586-611 | a row indexed by backfilling has no older row without an index row |
| `Ancestry.RebuildIndex` | src/delivery/journal.cpp:586-611 | indexes the oldest unindexed rows, none skipped, as many as fit and no fewer, exactly as many as it reports; zero means nothing is left; it is refused exactly for bad bounds or when the oldest unindexed original is too large, or by growth admission |
| `Ancestry.StoppedIsHeavy` | src/delivery/journal.cpp:656-674 | a reading stopped by a bound shows evidence of reachable entities whose count or charges exhaust that bound |
| `Ancestry.NodeJoins` | src/delivery/journal.cpp:642-698 | a node just read joins what was read: different reachable entities, each read in full or stopped by a bound, at the charges counted |
| `Ancestry.EndsWhere` | src/delivery/journal.cpp:683-701 | once everything queued was read, every claimed parent is a node of the answer, or there are as many nodes as allowed, or a path without repetition to it exceeds the depth and, unless a node admits unread evidence, so does every walk |
| `Ancestry.AnswerAccounts` | src/delivery/journal.cpp:613-725 | an answer starts at the root, lists different reachable entities in full or up to a bound, has exactly the claims read as edges, and ends where a bound says it must |
| `Ancestry.TruncatedIsImmodest` | src/delivery/journal.cpp:701-701 | a truncated search means that some reachable entity is beyond the depth bound, or there are more than the node bound, or reading the evidence exhausts a bound |
| `Ancestry.Backfill` | src/delivery/journal.cpp:595-610 | rows are indexed in order, as many as the bounds and growth admission allow; an oversized first row is refused |
| `Ancestry.NearIsQueued` | src/delivery/journal.cpp:635-690 | breadth-first order: an entity with a walk no longer than the path of the entry being processed is already queued |
| `Ancestry.NewIsFarther` | src/delivery/journal.cpp:683-690 | a parent not queued yet is farther from the root than the entry that claims it, so its queued path is shortest and a refusal for depth is justified |
| `Ancestry.EntryProcessed` | src/delivery/journal.cpp:642-698 | an entry whose evidence was read to the end has every claimed parent queued or beyond the depth bound |
| `Ancestry.SeenIsClaimed` | src/delivery/journal.cpp:649-662 | over a complete sound index the claims the search can see are all claims of the archive |
| `Ancestry.QueuedIsCompact` | src/delivery/journal.cpp:635-701 | a search that queued everything reachable shows that every reachable entity has a walk within the depth bound and that there are no more of them than the node bound |
| `SourceLog.RunGrows` | src/delivery/journal.cpp:419-454 | accepted revisions of a source are never changed or removed by later attempts |
| `SourceLog.AcceptedIsFinal` | src/delivery/journal.cpp:419-454 | an attempt told it was accepted finds its own entry at its revision in every later state |
| `SourceLog.OneWinner` | src/delivery/journal.cpp:428-441 | two attempts accepted at one revision offered the same record and cursor |
| `SourceLog.EveryRevisionHasItsAttempt` | src/delivery/journal.cpp:419-454 | every stored revision was created by exactly one attempt, the one offering it |
| `SourceLog.RetryIsIdempotent` | src/delivery/journal.cpp:432-435 | repeating an attempt that was accepted, or that took effect and was reported as failed, changes nothing, however many writers raced in between |
| `Store.InsertKeepsCounters` | src/delivery/journal.cpp:195-236 | the insert trigger keeps pending, dead and byte counters equal to recounts of the rows |
| `Store.DeleteKeepsCounters` | src/delivery/journal.cpp:195-236 | the delete trigger keeps the counters equal to recounts |
| `Store.UpdateKeepsCounters` | src/delivery/journal.cpp:195-236 | the update trigger keeps the counters equal to recounts for any change of state and bytes |
| `Store.ArchiveKeepsCounters` | src/delivery/journal.cpp:195-236 | archiving an original with its index row keeps the archive counters equal to recounts |
| `Store.UnresolvedCounted` | src/delivery/journal.cpp:195-236 | the unresolved counter is the number of archived originals that were refused or name no entity |
| `Store.RetainedIsHeld` | src/delivery/journal.cpp:246-252 | the retained size computed from counters is the number of bytes really held in all tables |
| `Store.QuotaSeesHeld` | src/delivery/journal.cpp:246-252 | in every sound state the quota arithmetic sees the bytes held, which are within the limit |
| `Store.InsertKeepsSound` | src/delivery/journal.cpp:284-305 | an admitted insert keeps the whole database sound and adds exactly its bytes |
| `Store.ArchiveKeepsSound` | src/delivery/journal.cpp:262-305 | an admitted original keeps the database sound and its index row matches its body |
| `Store.DeleteKeepsSound` | src/delivery/journal.cpp:758-784 | retiring a row keeps the database sound and frees exactly its bytes |
| `Store.UpdateKeepsSound` | src/delivery/journal.cpp:758-784 | burying a row with its reason keeps the database sound and accounts for the new bytes |
| `Store.AddCommandKeepsSound` | src/delivery/journal.cpp:889-919 | a newly received command keeps the database sound |
| `Store.SetCommandKeepsSound` | src/delivery/journal.cpp:938-986 | moving a command keeps the database sound when its new bytes are admitted |
| `Store.PutKeepsSound` | src/delivery/journal.cpp:443-453 | replacing a checkpoint keeps the database sound when the difference is admitted |
| `Store.CheckpointSubtractionSafe` | src/delivery/journal.cpp:444-445 | the unsigned subtraction of a replaced checkpoint's size never underflows |
| `Delivery.QueueHead` | src/delivery/journal.cpp:502-536 | the oldest waiting row is the head of its own protocol's queue |
| `Delivery.PlacesMean` | src/delivery/journal.cpp:506-516 | the queue of a protocol is the waiting rows of that protocol, at strictly rising positions of the table, none missing |
| `Delivery.BatchIsOldestRun` | src/delivery/journal.cpp:506-536 | the longest fitting prefix of the queue is what the table alone determines: the oldest waiting row first, then rising positions, no waiting row of the protocol skipped before a taken one, within both bounds and not with the next one |
| `Delivery.BatchWaits` | src/delivery/journal.cpp:502-536 | the lines of a batch are distinct and all still waiting |
| `Delivery.ReadReceipt` | src/delivery/journal.cpp:727-757 | a receipt is accepted if and only if its counts, reasons, line numbers and record identities all fit the batch, and then gives each line its verdict |
| `Delivery.RejectedCount` | src/delivery/journal.cpp:743-757 | a valid list of k rejections rejects exactly k lines |
| `Delivery.ReceiptAccountsForAll` | src/delivery/journal.cpp:735-742 | accepted, duplicate and rejected counts of a valid receipt partition the batch |
| `Delivery.BuryAt` | src/delivery/journal.cpp:758-784 | settling a rejected waiting line changes that row alone, to dead with its reason |
| `Delivery.RetireAt` | src/delivery/journal.cpp:758-784 | settling an acknowledged waiting line removes that row alone |
| `Delivery.SettledMeansFates` | src/delivery/journal.cpp:758-784 | settling line by line equals giving every row the fate of the first line that names it |
| `Delivery.ReceiptSettlesRows` | src/delivery/journal.cpp:743-784 | row by row of the table: a row on no line or not waiting stays; a rejected one stays dead with the reason name, a colon, a space and the detail, charged for that text; an acknowledged one is gone; and no row appears |
| `Delivery.BuriedSaysWhy` | src/delivery/journal.cpp:756-763 | a buried row keeps key, body and protocol and its reason reads as the receipt gave it |
| `Delivery.ReplaySettlesNothing` | src/delivery/journal.cpp:758-784 | settling the same batch again changes no row, whatever the rows were |
| `Delivery.OneLineCounts` | src/delivery/journal.cpp:758-784 | one waiting line settled is one fewer pending, and one more dead or one row fewer |
| `Delivery.WaitingBatchCounts` | src/delivery/journal.cpp:758-784 | n lines settled are n fewer pending, as many more dead as rejected, the rest gone |
| `Delivery.SettledStillWaiting` | src/delivery/journal.cpp:758-784 | a row still waiting after settlement is unchanged |
| `Delivery.QueueKeysDistinct` | src/delivery/journal.cpp:502-536 | a queue never lists one record twice |
| `Delivery.WireSizeGrows` | src/delivery/journal.cpp:519-532 | the wire size of a queue prefix never shrinks as lines are added |
| `Delivery.OversizedNotSent` | src/delivery/journal.cpp:519-532 | a line larger than the byte bound is in no batch chosen under it |
| `Delivery.OversizedSurvives` | src/delivery/journal.cpp:758-784 | such a line survives the settling of every batch chosen under the bound |
| `Checkpoints.RevisionCounts` | src/delivery/journal.cpp:403-430 | the stored revision text parses to the number of accepted entries of the source |
| `Checkpoints.RetryIsLast` | src/delivery/journal.cpp:432-435 | the stored row calls an attempt a retry only if it is the last accepted entry |
| `Checkpoints.NotRetry` | src/delivery/journal.cpp:432-435 | an attempt not called a retry is not the last accepted entry |
| `Checkpoints.PutKeepsLogged` | src/delivery/journal.cpp:448-453 | upserting the next checkpoint keeps every source's row equal to the end of its history |
| `Checkpoints.FindPut` | src/delivery/journal.cpp:448-453 | after an upsert the sources with a row are the old ones and this one |
| `Checkpoints.NoteKeeps` | src/delivery/journal.cpp:419-500 | one more attempt on a source extends its run and leaves every other source with its own |
| `Checkpoints.AcceptedStays` | src/delivery/journal.cpp:419-500 | whatever any caller was told was accepted is in the history of the source at its revision |
| `Journal.DurableJournal.Insert` | src/delivery/journal.cpp:262-305 | adds exactly the missing copies of a record, grows the bytes held by exactly them, and refuses for quota if and only if they do not fit |
| `Journal.DurableJournal.CheckLine` | src/delivery/journal.cpp:390-392 | a line is taken exactly when it is not blank, is a single line and is within the event limit |
| `Journal.DurableJournal.CheckSource` | src/delivery/journal.cpp:398-402 | a source name is taken exactly when it has 1 to 512 characters and no line break or null among them |
| `Journal.DurableJournal.Commit` | src/delivery/journal.cpp:64-72 | a failed commit changes nothing; one that only reports failure has happened |
| `Journal.DurableJournal.Append` | src/delivery/journal.cpp:390-397 | inserted once or unchanged, whatever the fault; refused exactly for a bad line, for bytes that do not fit or by a fault, and otherwise accepted |
| `Journal.DurableJournal.CompareRevision` | src/delivery/journal.cpp:428-441 | proceed, retry, conflict or source limit, decided exactly by the history of the source |
| `Journal.DurableJournal.StoreCheckpoint` | src/delivery/journal.cpp:443-453 | the checkpoint row is replaced, or refused for quota exactly when the difference does not fit |
| `Journal.DurableJournal.AppendCheckpointed` | src/delivery/journal.cpp:419-454 | record and checkpoint commit together or not at all, as one compare-and-swap recorded in the run of the source; other sources keep theirs; a conflict exactly when neither next nor retry; a retry of the last commit succeeds whatever the quota; without faults the next revision is refused exactly when an argument, the source count or the quota stands against it |
| `Journal.DurableJournal.AdvanceCheckpoint` | src/delivery/journal.cpp:456-500 | the same compare-and-swap without a record, with the same answers, touching nothing but checkpoints; refused for quota exactly when the cursor does not fit in place of the last one |
| `Journal.DurableJournal.Peek` | src/delivery/journal.cpp:502-536 | the oldest waiting row and the waiting rows of its protocol after it, in table order without skipping any, as many as both bounds allow; nothing exactly when nothing waits; an error exactly when the head alone is too large |
| `Journal.DurableJournal.SettleLine` | src/delivery/journal.cpp:761-782 | one line settled keeps the database sound and the sum of pending, dead and acknowledged |
| `Journal.DurableJournal.Acknowledge` | src/delivery/journal.cpp:727-784 | all lines settled or none, each row as the receipt says of its line; an invalid receipt changes nothing; refused growth buries nothing |
| `Journal.DurableJournal.Drain` | src/delivery/journal.cpp:502-784 | repeating peek and acknowledge ends, and empties the queue when every waiting line fits, unless the texts of a rejection do not fit the quota |
| `Journal.DurableJournal.QueryAncestry` | src/delivery/journal.cpp:613-725 | over any reachable journal the index is sound and complete: mismatches never happen, untruncated answers are exact, an answer is complete exactly when the reachable ancestry is within depth and node bounds unless its evidence exhausts a bound, and a refusal for size means an answer exceeds the bound |
| `Journal.DurableJournal.ReceiveCommand` | src/delivery/journal.cpp:889-919 | stored once; a repeat succeeds without effect; the same key with another scope or body is a collision; only a new command can meet the count limit or the quota |
| `Journal.DurableJournal.PendingCommands` | src/delivery/journal.cpp:921-936 | the oldest unfinished commands of the scope in table order, no older one omitted, all of them if they fit |
| `Journal.DurableJournal.BeginCommand` | src/delivery/journal.cpp:938-949 | true exactly for one durable move from received to executing |
| `Journal.DurableJournal.FinishCommand` | src/delivery/journal.cpp:951-973 | stores a result only for an executing command; the same result again succeeds without effect, another one is refused |
| `Journal.DurableJournal.MarkCommandOutboxed` | src/delivery/journal.cpp:975-986 | only a command with a result is closed, and closing it again succeeds without effect |
| `Journal.DurableJournal.AnyRun` | src/delivery/journal.cpp:195-252 | in every reachable state the counters are exact, the bytes held are within the limit, every record ever inserted is pending, dead or acknowledged, every stored revision counts the history of its source, and the attempts on each source form a run, so whatever a caller was told was accepted still is |
| `Journal.QuotaTest` | src/delivery/journal.cpp:284-287 | the overflow-free quota comparison equals the plain one for one and for two copies |
| `Journal.SizeOfLast` | src/delivery/journal.cpp:443-447 | the bytes a checkpoint replaces are those of the last accepted cursor of its source |
| `Journal.CountInserted` | src/delivery/journal.cpp:262-305 | an insertion moves the counters by exactly the rows it adds |
| `Journal.LongestFit` | src/delivery/journal.cpp:519-532 | the prefix where the batch loop stops is the longest that fits |
| `Journal.WaitingBatchSettled` | src/delivery/journal.cpp:758-784 | settling a peeked batch lowers pending by its size and raises dead and acknowledged by what the receipt says |
| `Journal.ReplayedReceiptSettlesNothing` | src/delivery/journal.cpp:758-784 | acknowledging the same batch twice settles nothing the second time |
| `Journal.UnfinishedMembers` | src/delivery/journal.cpp:921-936 | the work list holds exactly the scope's commands that are not closed |
| `Journal.UnfinishedPrefix` | src/delivery/journal.cpp:921-936 | the listed commands are rows at rising positions of the table, all of them unfinished in the scope, and no older unfinished one is left out |
| `Journal.DurableJournal.SourceCheckpoint` | src/delivery/journal.cpp:411-418 | the stored revision counts the accepted entries of the source and the stored value is the cursor of the last |
| `Journal.DurableJournal.NeverDrains` | src/delivery/journal.cpp:502-784 | while a line waits that is larger than every byte bound used, no alternation of peek and acknowledge, with any receipts and faults, brings pending to zero |
| `Journal.OversizedLineBlocks` | src/delivery/journal.cpp:174-176 | a journal configured for 8 MiB lines accepts one, after which every admissible peek fails |
| `Response.MoveKeeps` | src/delivery/journal.cpp:938-986 | a state move never reopens a dispatched command and keeps results with their commands |
| `Response.GrownMoved` | src/delivery/journal.cpp:938-986 | a move of a command that is not closed keeps its scope, body and any stored result, and every other row |
| `Response.StaysFinished` | src/main.cpp:777-828 | a closed command whose result is in the outbox stays so under everything that follows |
| `Response.WorkListIsOldest` | src/main.cpp:778-778 | one pass works through the oldest unfinished commands of the scope in table order, at most 32 |
| `Response.FinishKeeps` | src/main.cpp:821-824 | storing the pending result makes the serialized bytes durable |
| `Response.SerializeKeeps` | src/main.cpp:819-822 | a command without a stored result has not been serialized in this lifetime |
| `Response.HandKeeps` | src/main.cpp:779-783 | handing over the stored result keeps all hand-overs of a command equal |
| `Response.CrashKeeps` | src/main.cpp:777-882 | losing all memory keeps every invariant over the durable state |
| `Response.ResumeGuard` | src/main.cpp:809-810 | under the digest keying the resume test holds if and only if the key is a fixed point of the keyed digest |
| `Response.AddKeepsKeys` | src/main.cpp:869-875 | every stored command sits under the digest of its scope and id |
| `Response.ResponseRuntime.ExecuteCommand` | src/main.cpp:578-591 | a receipt that is no success is returned untouched; a fresh command that has expired by dispatch is refused as expired; otherwise it ends as the action does; each call is one fresh dispatch or one resumption in the trace |
| `Response.ResponseRuntime.Begin` | src/main.cpp:789-790 | a begun command is durably executing and was never dispatched; no row is dropped, rewritten or reopened |
| `Response.ResponseRuntime.Finish` | src/main.cpp:821-824 | done means the pending bytes are the stored result |
| `Response.ResponseRuntime.HandOver` | src/main.cpp:825-826 | the outbox gains the result at most once, and done means it did and the command is closed; the outbox is exactly the results handed over, in order |
| `Response.ResponseRuntime.Attempt` | src/main.cpp:784-818 | a received command is dispatched once after its durable begin and ends as gate, expiry and action say; an executing one is dispatched never, resumed exactly under the guard, and otherwise gets the indeterminate receipt under its own id |
| `Response.ResponseRuntime.Conclude` | src/main.cpp:819-826 | the receipt is serialized once, stored, and put into the outbox as the same bytes |
| `Response.ResponseRuntime.ProcessOne` | src/main.cpp:778-827 | a completed turn closes the command with its stored result last in the outbox, and touches no other; an interrupted one outside the guard is delivered as indeterminate |
| `Response.ResponseRuntime.ProcessDurableCommands` | src/main.cpp:777-828 | a completed pass has closed each of the oldest 32 unfinished commands and its stored result is in the outbox; without faults, with commands that parse and room for their results, the pass completes |
| `Response.ResponseRuntime.ReceiveAll` | src/main.cpp:866-878 | done means every polled command is on record under its keyed digest with its canonical body; without faults it fails only when the inbox has a reason not to take one |
| `Response.ResponseRuntime.RunResponseCycle` | src/main.cpp:830-882 | a completed cycle has stored the result left pending, finished the commands on record before it and recorded the polled ones; a result serialized in this lifetime never changes |
| `Response.ResponseRuntime.AnyRun` | src/main.cpp:777-882 | over all cycles, faults, crashes and restarts no command is freshly dispatched twice, each dispatched one durably began, all hand-overs of a command carry the same bytes, no stored body, scope or result ever changes, closed commands stay closed, the outbox only grows, resumption happens only at a digest fixed point, and never when no id is as long as a key |
| `Response.CallKeeps` | src/main.cpp:578-591 | a first dispatch of a begun command, or a resumption under a fixed point, keeps every invariant |
| `Response.OtherLengthNeverResumes` | src/main.cpp:809-810 | an interrupted acquisition whose id is not as long as a key never meets the guard |
| `SignedPolicy.EqualStrength` | src/configuration/policy.cpp:88-92 | two policies each of which upholds the other collect the same features under the same limits |
| `SignedPolicy.WeakensMeans` | src/configuration/policy.cpp:88-92 | a policy is refused as weaker exactly when it drops a feature, samples less, collects less often or lowers a ceiling |
| `SignedPolicy.VerifyMeans` | src/configuration/policy.cpp:93-109 | an envelope verifies exactly when it opens with a generation and a lifetime of at most thirty days, was issued at most five minutes from now and, when that is asked, has not expired |
| `SignedPolicy.UpholdsTransitive` | src/configuration/policy.cpp:88-92 | upholding is transitive, so checking each step suffices for a chain |
| `SignedPolicy.StepKeepsConsistent` | src/configuration/policy.cpp:143-157 | activation, confirmation and rollback keep the stored state consistent |
| `SignedPolicy.RollbackChangesNoStrength` | src/configuration/policy.cpp:148-151 | a rollback that is allowed at all changes no feature and no limit |
| `SignedPolicy.RunConsistent` | src/configuration/policy.cpp:143-157 | every state of every run is consistent |
| `SignedPolicy.RunMonotone` | src/configuration/policy.cpp:143-157 | over any run the highest generation never falls, one generation names one policy, and no later desired policy weakens an earlier one |
| `SignedPolicy.RollbackOncePerActivation` | src/configuration/policy.cpp:148-151 | between two rollbacks of a run there is an activation |
| `SignedPolicy.SnapshotNeverInconsistent` | src/configuration/policy.cpp:130-137 | a snapshot of a consistent state fails exactly when a policy it has to look at is issued more than five minutes from now |
| `SignedPolicy.SnapshotExactly` | src/configuration/policy.cpp:130-137 | whatever the stored record holds, a snapshot is given exactly when the desired policy opens to the recorded generation and digest and, unless it has expired, the effective one opens, is no newer and allows every active feature |
| `SignedPolicy.SnapshotHead` | src/configuration/policy.cpp:130-137 | authorization, expiry, rollback mark and the three generations of a report follow from the state and the clock |
| `SignedPolicy.SnapshotLabels` | src/configuration/policy.cpp:127-137 | the label of every feature follows from the state, the clock and the capabilities: unauthorized, expired, disabled, unsupported, pending or active, each in exactly one case |
| `SignedPolicy.EffectiveIsAuthorized` | src/configuration/policy.cpp:127-137 | a feature is reported effective, and labelled active, if and only if it was confirmed, is supported and both policies are unexpired; then both policies enable it |
| `SignedPolicy.PolicyStore.SaveState` | src/configuration/policy.cpp:118-126 | the state file is old or that of the next step of the run, and only a reported save counts as done |
| `SignedPolicy.PolicyStore.Activate` | src/configuration/policy.cpp:143-147 | accepted exactly when allowed or already current, and only unexpired; changes state exactly when allowed and saved; refused as replay, fork or weakening exactly for an older generation, another digest of the same one, or a newer policy that gives something up |
| `SignedPolicy.PolicyStore.Rollback` | src/configuration/policy.cpp:148-151 | swaps effective and previous policy exactly when allowed and saved, and only to an unexpired one, leaving generation and desired policy alone |
| `SignedPolicy.PolicyStore.ConfirmEffective` | src/configuration/policy.cpp:152-157 | replaces the active features exactly when the generation is current and both policies, unexpired, authorize the list |
| `SignedPolicy.PolicyStore.Current` | src/configuration/policy.cpp:158-158 | in every reachable state the snapshot fails only for a future issue time |
| `SignedPolicy.RemovedStaysDesired` | src/configuration/policy.cpp:127-157 | a feature removed by an accepted confirmation stays desired and every later snapshot reports it pending, unsupported or expired, never disabled |
| `SignedPolicy.PolicyStore.AnyRun` | src/configuration/policy.cpp:143-157 | over any calls, clocks and save outcomes the highest generation of the store never falls, one generation names one policy, no later desired policy weakens an earlier one, and between two rollbacks lies an activation |
| `UsnDecoder.CursorRoundTrip` | src/collectors/usn_decoder.cpp:30-41 | a cursor encodes to a text if and only if that text decodes to the cursor |
| `UsnDecoder.I64Reads` | src/collectors/usn_decoder.cpp:12-15 | the readers read little-endian numbers, the eight-byte one in two's complement |
| `UsnDecoder.BodyIsSaid` | src/collectors/usn_decoder.cpp:52-90 | a record body is accepted with an entry if and only if the bytes say that entry |
| `UsnDecoder.ReadIsDescription` | src/collectors/usn_decoder.cpp:47-91 | reading at an offset succeeds with an entry if and only if the entry describes the bytes there |
| `UsnDecoder.TilesUnique` | src/collectors/usn_decoder.cpp:42-98 | a buffer has at most one reading |
| `UsnDecoder.DecodingUnique` | src/collectors/usn_decoder.cpp:42-98 | a buffer has at most one decoding |
| `UsnDecoder.TilesCover` | src/collectors/usn_decoder.cpp:47-92 | the entries cover the buffer to its last byte |
| `UsnDecoder.TilesAt` | src/collectors/usn_decoder.cpp:47-92 | each entry lies inside the buffer, keeps uninterpreted bytes whole, and has its USN in the requested interval |
| `UsnDecoder.TilesOrdered` | src/collectors/usn_decoder.cpp:60-62 | interpreted USNs never fall |
| `UsnDecoder.DecodeUsnBuffer` | src/collectors/usn_decoder.cpp:42-98 | ends on every buffer, returns its one reading, and refuses exactly the buffers that have none |
| `UsnWorker.NothingSkipped` | src/collectors/usn_journal.cpp:392-456 | between two log positions without a gap record every USN passed lies in some committed batch of the same journal |
| `UsnWorker.SameInstance` | src/collectors/usn_journal.cpp:392-456 | without a gap record the journal instance stays and the cursor never goes back |
| `UsnWorker.FirstIsInitialGap` | src/collectors/usn_journal.cpp:398-408 | the first record of a source admits the unobserved history before it |
| `UsnWorker.Worker.Accept` | src/collectors/usn_journal.cpp:350-379 | accepted means this record is durably at this revision, despite refusals, false reports and racing workers; it gives up only after all its attempts; without faults and races it is accepted at once unless a limit of the journal stands against it |
| `UsnWorker.Worker.Load` | src/collectors/usn_journal.cpp:384-386 | the checkpoint read back from the journal is the revision and cursor of the last committed record |
| `UsnWorker.Worker.Resync` | src/collectors/usn_journal.cpp:396-414 | a completed one leaves the cursor inside what the native journal holds; a saved cursor outside it, or of another instance, has a gap record at its position naming it, what is wrong with it and the oldest retained USN, or the tail for a first one; one inside is recorded as resumed |
| `UsnWorker.Worker.Consume` | src/collectors/usn_journal.cpp:415-452 | the committed batch starts at the cursor and holds the decoding of the native buffer, or its very bytes exactly when it has none or one too large; nothing is committed exactly when nothing was read; it fails only for a bad read or an exhausted revision |
| `UsnWorker.Worker.Poll` | src/collectors/usn_journal.cpp:392-456 | a completed poll leaves the worker exactly at the USN the native read returned, and every batch it committed starts inside the range the native journal holds; it fails only for what the native calls returned or an exhausted revision, and without faults and races it stops only where a limit stands against the record it had to commit |
| `UsnWorker.Worker.Run` | src/collectors/usn_journal.cpp:380-471 | over every run on the durable journal each committed record starts where the one before ended or is a gap that says otherwise |
| `UsnWorker.CommitMirrored` | src/collectors/usn_journal.cpp:350-379 | a compare-and-swap on the journal is a compare-and-swap on what its entries say |
| `UsnWorker.Worker.Commit` | src/collectors/usn_journal.cpp:350-379 | one commit attempt through the durable journal, with any fault, appends this record at the expected revision or nothing; without faults the next revision is accepted exactly unless a limit of the journal stands against it |
| `UsnWorker.Worker.Interfere` | src/collectors/usn_journal.cpp:350-379 | whatever the rest of the program does to the journal in between, including other sources, commands and other workers of this source, the log stays chained and growing |
| `VolumeDiscovery.LessTrichotomy` | src/collectors/usn_journal.cpp:78-109 | the byte order of names is total |
| `VolumeDiscovery.LessMeans` | src/collectors/usn_journal.cpp:78-109 | the order of names is that of their first difference, a proper prefix first |
| `VolumeDiscovery.DifferenceIsDifference` | src/collectors/usn_journal.cpp:221-233 | merging two ordered lists yields exactly the set difference |
| `VolumeDiscovery.VolumeNameIdempotent` | src/collectors/usn_journal.cpp:30-40 | a canonical volume name is its own canonical form |
| `VolumeDiscovery.VolumeNameIs` | src/collectors/usn_journal.cpp:30-40 | exactly the volume GUID paths are accepted, and only upper-case digits are changed |
| `VolumeDiscovery.DecodeVolumesExact` | src/collectors/usn_journal.cpp:125-147 | a volume list decodes to itself if and only if its names are canonical and strictly ordered |
| `VolumeDiscovery.CheckpointRoundTrip` | src/collectors/usn_journal.cpp:110-147 | a checkpoint reads back if and only if it is storable |
| `VolumeDiscovery.PublishedAccounts` | src/collectors/usn_journal.cpp:207-256 | the record of a transition names exactly the volumes that came and went |
| `VolumeDiscovery.TransitionCatchesUp` | src/collectors/usn_journal.cpp:212-238 | a transition is recorded exactly when the checkpoint does not say what the scan said; its kind follows from the checkpoint and the scan, and the checkpoint after it says what the scan said |
| `VolumeDiscovery.ReplayReconstructs` | src/collectors/usn_journal.cpp:207-256 | replaying added and removed volumes of all records gives the checkpoint's set |
| `VolumeDiscovery.VolumesAreLastComplete` | src/collectors/usn_journal.cpp:212-235 | while blind, the checkpoint keeps the last complete enumeration |
| `VolumeDiscovery.BlindIntervalsPair` | src/collectors/usn_journal.cpp:207-256 | blind intervals open and close in pairs, and recovery names the record that opened its own |
| `VolumeDiscovery.SequencesCount` | src/collectors/usn_journal.cpp:196-256 | the transition sequence equals the number of records |
| `VolumeDiscovery.RepeatPoisons` | src/collectors/usn_journal.cpp:78-147 | publishing an enumeration with a repeated volume leaves a checkpoint that does not read back |
| `VolumeDiscovery.Publisher.Publish` | src/collectors/usn_journal.cpp:196-271 | appends at most the one record the scan calls for, of the fitting kind, despite refusals and false reports; durable means the last checkpoint holds the volumes of a complete scan, which is what replaying the log gives, or is blind after a failed one; without faults it is durable; after a poisoned checkpoint nothing is published |
| `FileIntegrity.PushOnce` | src/collectors/file_integrity.cpp:650-684 | a pushed directory is new, within the depth and within the count |
| `FileIntegrity.EmitCovers` | src/collectors/file_integrity.cpp:590-696 | coverage is claimed exactly while no record admits a gap |
| `FileIntegrity.ToldMore` | src/collectors/file_integrity.cpp:590-696 | every name considered keeps its record as the walk goes on |
| `FileIntegrity.FinishedMeans` | src/collectors/file_integrity.cpp:706-721 | an emptied stack with coverage claimed means the whole tree was covered |
| `FileIntegrity.Descend` | src/collectors/file_integrity.cpp:650-684 | a found directory is put on the stack, or skipped as outside or known, or refused by the depth or the count with a record that says so; the walk ends only when more directories are named than allowed |
| `FileIntegrity.Consider` | src/collectors/file_integrity.cpp:590-696 | the name leaves its record: refused, failed, skipped or a candidate, as what opening it shows; coverage survives it exactly when the name is sound and, as a directory to descend into, new, inside the root and not too deep; the walk ends only at a bound that is exceeded or for a stop |
| `FileIntegrity.Enumerate` | src/collectors/file_integrity.cpp:539-705 | coverage survives a directory exactly when it lists to its end with no flawed name; directories pushed are those it names |
| `FileIntegrity.Baseline` | src/collectors/file_integrity.cpp:525-721 | ends on every directory graph; takes up the root and directories named by earlier ones, each identity once, within depth and count; unless stopped it gives up only when names or directories exceed a bound, a listing breaks off or the root is replaced; the manifest claims coverage if and only if no record admits a gap, if and only if no directory taken up or name in it is flawed, and then the whole tree was listed and every name has its record; with a manifest, every name met has left its record and is counted; a stop request is looked for before every directory and name, and found by none of the looks |
| `FileIntegrity.HashFile` | src/collectors/file_integrity.cpp:261-294 | exactly the bytes read leave the shared budget, which is never overdrawn; every read follows a check that the path is unchanged; a digest is reported only for the whole unchanged file, and each other outcome only for its cause |
| `FileIntegrity.OverflowGrows` | src/collectors/file_integrity.cpp:590-684 | a bound exceeded by some names is exceeded by more of them |
| `FileIntegrity.StackStaysKnown` | src/collectors/file_integrity.cpp:650-684 | every directory waiting was named in the listing of one taken up before |
| `FileIntegrity.NamedIsKnown` | src/collectors/file_integrity.cpp:650-684 | while coverage is claimed in recursive mode, the directories known are exactly those named so far |
| `NotificationRing.RingPut` | src/collectors/network_state_change.cpp:191-218 | writing the slot after the last appends to the queue, across the wrap |
| `NotificationRing.RingTake` | src/collectors/network_state_change.cpp:400-405 | clearing the head slot and advancing removes exactly the first element |
| `NotificationRing.NotificationSource.OnChange` | src/collectors/network_state_change.cpp:191-218 | a callback is queued, rejected as stopping, dropped as full or counted as an error, exactly one of them, and always takes the next sequence number |
| `NotificationRing.NotificationSource.TakeFirst` | src/collectors/network_state_change.cpp:400-405 | the oldest notification leaves the ring and nothing else moves |
| `NotificationRing.NotificationSource.Drain` | src/collectors/network_state_change.cpp:392-407 | snapshots first, then notifications in order, up to the maximum, and all of them if they fit |
| `NotificationRing.NotificationSource.Start` | src/collectors/network_state_change.cpp:311-368 | starts once and only from idle; an interrupted start stays starting with its handles open; a failed one refuses callbacks while it cancels and is then stopped or stuck stopping |
| `NotificationRing.NotificationSource.RefuseAll` | src/collectors/network_state_change.cpp:191-203 | callbacks that arrive while subscriptions are cancelled are all counted as rejected and none is queued |
| `NotificationRing.NotificationSource.Stop` | src/collectors/network_state_change.cpp:370-390 | callbacks are refused from here on, also during the cancellation; stopped exactly when no subscription is left open, and stuck stopping otherwise |
| `ImageCache.LatestSplit` | src/collectors/process_image_cache.cpp:24-40 | the last identity of a history is looked up in its newer part first |
| `ImageCache.Split` | src/collectors/process_image_cache.cpp:11-40 | the hot generation, then the cold one, hold the last identity of a process, and a missing one was followed by a full generation of others |
| `ImageCache.RememberMore` | src/collectors/process_image_cache.cpp:29-29 | overwriting a generation's entry keeps it equal to the last identities of its events |
| `ImageCache.ProcessImageCache.Remember` | src/collectors/process_image_cache.cpp:11-30 | creations with an id extend the remembered history, anything else leaves it |
| `ImageCache.ProcessImageCache.Find` | src/collectors/process_image_cache.cpp:32-40 | never an outdated identity; never a miss before a generation's worth of other processes; never more than two generations held |
| `ImageCache.ProcessImageCache.Enrich` | src/collectors/process_image_cache.cpp:42-58 | adds the last known identity of the same process id and nothing else, and does so whenever it is still known and needed |

## Left out

- SQLite, DPAPI, BCrypt and Win32 calls: their results are parameters or arbitrary choices; rollback of an uncommitted transaction is taken as given.
- JSON text, signature and key parsing: functions given to the model; size bounds on encoded cursor and discovery checkpoint text (512 and 8192 bytes) are not modelled.
- Legacy import, the gaps table, sequence numbers of evicted rows, statistics and inspection paging of the journal: bookkeeping beside the invariants proved here.
- Disk-growth admission (`admit_growth`): only that it may refuse, not how it samples the disk.
- Unsigned wrap-around of statistics and sequence counters in the notification source; checkpoint revisions and discovery sequences do stop at the 64-bit maximum.
- Health and coverage JSON, inventory workers, Windows event log and XML decoders, HTTP transport, the replay ledger's file format and the query tool.
- Thread timing: locks become atomic steps, and racing writers of one source appear as other attempts in its log.
- File-integrity change batches (`process_batch`): only the baseline walk and the hashing budget are modelled.
- Response.ResponseRuntime.ExecuteCommand: the individual operating-system actions are a parameter, any receipt or an exception.
- Ancestry.ProcessAncestry: byte sizes of serialized nodes and edges are parameters; the empty answer is taken to be at most 4096 bytes.
- Journal.DurableJournal.Drain: assumes that every receipt is valid; an invalid one changes nothing.
- FileIntegrity.Enumerate: the reasons of a directory that is not enumerated share one text.
- Response.ResponseRuntime.HandOver: the outbox is everything ever put into it; what the manager has taken from it since is not modelled.
- FileIntegrity.Accept: durable acceptance of one record is one step that a stop request may end; its retry loop, revision and sequence are those of the change-journal worker and are modelled there.
- VolumeDiscovery.Publisher.Publish: its commits are modelled on the log of its source; only the change-journal worker is composed with the durable journal.
- NotificationRing.NotificationSource.OnChange: allocation failures inside the callback are not modelled.
- UsnDecoder.DecodeUsnBuffer: the two UTF-8 conversion calls on one name are taken to agree.

Nothing was executed: every statement above is about the model.
