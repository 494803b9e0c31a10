# Aworkit: a verified model of its stores, streams and gates

This project models the parts of Aworkit where correctness is hardest to see in the
code, and proves what they promise over every input, every run or every reachable state.

* **The local history store.** `Tables`, `Ledger`, `LedgerValidation`, `LedgerInvariant`,
  `LedgerVerify`, `LedgerHistory` and `LocalHistoryStores` model the SQLite tables and the one
  atomic commit, including what happens when SQLite's own answer is lost. `CommitConditions` and
  `Maintenance` say exactly when a commit succeeds and what purging, deleting and pruning leave.
  `Artifacts` and `ArtifactLaws` add staged content, promotion, orphan collection and range
  reads. `StoreRuns` puts every operation into one step machine with crashes and lost answers and
  proves what whole runs keep; `RunLaws` adds that no secret is ever committed, that a quarantine
  lasts and what versions count. `UncertainCommits` proves what the check of a lost commit answers
  when other work runs in between. `OutboxDelivery` adds a consumer that pages through the outbox.
  `SmallRuns` holds the commits from which concrete runs are put together. `Projections` models
  the replaceable query index and its cursors. `ExtensionInventories` and `InventoryLaws` model
  the record table, the contribution table and the audit log.
* **Streaming transformations.** `StreamingRedaction`, `StreamIsBatch`, `SingleSecret` and
  `TextStreams` (chunked redaction), `RedactionSets` and `ResidualSecrets` (leftmost-longest
  redaction), `JsonLines` (line framing), `ModelResult` and `Compaction` (a provider turn) are
  loops over chunks or events, each proved equal to a meaning of the whole input. `Occurrences`
  holds the shared theory of occurrences and of the marker text, `Utf8` the text encoding.
* **Codec and tree algorithms.** `BoundedCodec` and `CodecLaws` (run-length codec),
  `GlobPattern`, `GlobTexts`, `GlobWalk` and `GlobListing` (glob compiler, what pattern texts
  mean, directory walk and what a listing holds), `JsonPointer`, `ExportScrub`, `ExportPolicy`
  and `ExportLaws` (the export scrubber and its RFC 6901 pointers).
* **The admission gate.** `Gateway`.

Code that changes things in place is a class or a loop here as well; each such method is tied by
its `ensures` to a function on values, and the properties are lemmas about those functions.
A transaction is one atomic step. SHA-256 digests and authentication codes are modelled by what
they cover, so that they never collide; clocks, tokens, directory contents, chunk boundaries and
the fate of a commit are parameters. `dafny verify dfyconfig.toml` checks everything.

Some expectations turned out false of the code. In each case the code is modelled as it is, a
failing input is given and the condition under which the code meets the expectation is proved:

* A chunked redactor can show a secret. One secret is never shown exactly when it neither holds
  nor is part of a marker and cannot be completed by one (`SingleLeakFreeExactly`). For a set, no
  secret is shown while none can touch a marker, and one that is part of a marker always can be
  (`StreamLeakFreeExactly`).
* A chunked redactor can differ from redacting the whole text. For secrets that cannot touch a
  marker they agree on every chunking exactly when no secret can end inside one that an earlier
  pass replaces (`StreamIsBatchExactly`).
* An accepted redaction set can report a residual secret. It does on some text exactly when the
  markers put for its own secrets complete one of them (`ResidualExactly`).
* A delivery cursor can be handed out again. After a purge the next commit hands out only new
  ones exactly when the purge kept a row or found the newest undelivered (`FreshAfterPurge`);
  after a deletion, exactly when the chat did not hold the newest row (`FreshAfterDelete`). Two
  runs from the empty store show the failures.
* A projection page under a limit of 0 or above 512 can drop rows without a cursor
  (`PageLosesRowsExactly`, `PagesLoseRows`).
* A glob listing that is not full can miss a matching file. It has all of them exactly when no
  two matching files share a path text and differ (`EveryFileListedExactly`), which always holds
  without backslashes in names (`PlainTreesListed`).
* The check of a commit whose answer was lost runs later, on a new connection. A fenced commit
  that became durable is confirmed exactly when no other commit has since written into its
  stream, and otherwise quarantines the store (`LostApplied`, `LostAnswerQuarantines`). One that
  did not become durable is found absent exactly when no commit has since touched it
  (`LostUnapplied`); without an aggregate fence the expected version must also have been right.
* Acknowledging, purging and deleting keep delivery going exactly when they spare what the
  consumer still waits for and, where rows are removed, the newest row (`StepDelivers`).

## Model

| member | source | states |
|---|---|---|
| `Tables.InsertRows` | crates/aworkit-local-store/src/ledger.rs:1008-1034 | the row-by-row loop gives the table with all rows, or nothing if one is refused by a key or uniqueness constraint |
| `Tables.InsertedExactly` | crates/aworkit-local-store/src/ledger.rs:1008-1053 | inserting succeeds exactly when the keys are new and distinct and no row clashes |
| `LedgerValidation.ValidateExactly` | crates/aworkit-local-store/src/ledger.rs:1278-1334 | a batch is accepted exactly when it is local, in i64 range and not empty, every event and outbox entry has schema 1, a text of 1 to 256 bytes and no secret, every text of attempts, checkpoint and key is sound, and event, attempt, outbox and token ids are each distinct |
| `LedgerValidation.ValidateNames` | crates/aworkit-local-store/src/ledger.rs:1278-1334 | a rejected batch gets the error of the first bad part, and in a list of the first bad item after items in order |
| `LedgerValidation.FaultsNamed` | crates/aworkit-local-store/src/ledger.rs:1291-1324 | the own fault of an event or entry is its schema, then its text, then its secret |
| `CommitConditions.CommitsExactly` | crates/aworkit-local-store/src/ledger.rs:202-315 | in every reachable store a commit writes its batch exactly when the batch is sound, the store is not quarantined, the key is unused, run, head and version are as expected, no number outgrows i64, every id and attempt ordinal is new, and the artifacts can be finalized |
| `CommitConditions.ConflictsExactly` | crates/aworkit-local-store/src/ledger.rs:229-254 | a wrong run, head or version is reported in this order, with what was expected and what is there |
| `CommitConditions.FinalizesExactly` | crates/aworkit-local-store/src/ledger.rs:1121-1221 | an artifact is finalized exactly when its event is in the commit, its token stands unclaimed for just this content, and its object is intact; then the row, the artifact and the reference are as staged and nothing else changes |
| `LedgerInvariant.CommittingCases` | crates/aworkit-local-store/src/ledger.rs:202-288 | a commit writes one whole transaction, or returns the stored receipt of the same request, or leaves the tables alone |
| `LedgerInvariant.CommitKeepsValid` | crates/aworkit-local-store/src/ledger.rs:229-271 | after any commit each stream's events are numbered 1..head, aggregate versions stay at most the head, and no checkpoint, attempt or outbox row dangles |
| `LedgerInvariant.DeleteKeepsValid` | crates/aworkit-local-store/src/ledger.rs:710-731 | deleting a chat keeps all of that for the other streams and leaves nothing of the chat |
| `LedgerInvariant.PruneKeepsEvents` | crates/aworkit-local-store/src/ledger.rs:564-582 | pruning rewrites payloads and nothing else of any event |
| `LedgerInvariant.PruneKeepsValid` | crates/aworkit-local-store/src/ledger.rs:564-582 | pruning keeps the whole invariant |
| `Maintenance.PurgedExactly` | crates/aworkit-local-store/src/ledger.rs:654-682 | a row goes exactly when it is delivered and at least as many cursors as are to be kept lie above it, up to the greatest |
| `Maintenance.DeletedExactly` | crates/aworkit-local-store/src/ledger.rs:710-731 | every row of the chat goes from every table that names it and every row of another chat stays; deduplication and artifact rows stay |
| `Maintenance.PrunedExactly` | crates/aworkit-local-store/src/ledger.rs:564-582 | an event has the payload of the last update that names it, and its own otherwise |
| `LedgerVerify.BeforeCommit` | crates/aworkit-local-store/src/ledger.rs:809-901 | on the tables a commit started from, the durability check says Absent exactly when the batch expected the right aggregate version, and Partial otherwise |
| `LedgerVerify.AbsentBefore` | crates/aworkit-local-store/src/ledger.rs:809-901 | for a fenced commit the answer there is always Absent |
| `LedgerVerify.ExactAfter` | crates/aworkit-local-store/src/ledger.rs:809-901 | on the tables the commit wrote, in any reachable store, the answer is Exact |
| `LedgerVerify.AbsentMeansNothing` | crates/aworkit-local-store/src/ledger.rs:854-875 | on any tables at all, Absent means that no event, no outbox entry and no deduplication key of the batch is there |
| `LedgerVerify.FinalizeAllFinalizes` | crates/aworkit-local-store/src/ledger.rs:1121-1221 | after a commit each of its tokens is finalized for its event, with its artifact and reference stored and its object intact |
| `LedgerHistory.CommitAppends` | crates/aworkit-local-store/src/ledger.rs:984-1034 | a commit appends exactly its events to its own stream's history and leaves every other history alone |
| `LedgerHistory.ReceiptMeans` | crates/aworkit-local-store/src/ledger.rs:268-291 | a receipt tells the length of the history, the ids of its newest events, the stored aggregate version and checkpoint, and the ids whose rows have the returned cursors |
| `LedgerHistory.DeleteForgets` | crates/aworkit-local-store/src/ledger.rs:710-731 | deletion empties the histories of its chat and leaves every other history alone |
| `LedgerHistory.PruneKeepsHistory` | crates/aworkit-local-store/src/ledger.rs:556-582 | each event of a pruned history keeps its place, identity, schema and kind |
| `LocalHistoryStores.GreatestCursor` | crates/aworkit-local-store/src/ledger.rs:1083-1093 | the loop finds the greatest delivery cursor, 0 for an empty outbox |
| `LocalHistoryStores.CountPresentIds` | crates/aworkit-local-store/src/ledger.rs:1705-1723 | the loop counts the ids that have a row |
| `LocalHistoryStores.LoadOutboxCursors` | crates/aworkit-local-store/src/ledger.rs:1725-1741 | the loop loads the cursor of every id, or nothing at all if one row is missing |
| `LocalHistoryStores.FinalizeArtifacts` | crates/aworkit-local-store/src/ledger.rs:1121-1221 | the loop over artifact references is the fold of single finalizations, with the first failure deciding |
| `LocalHistoryStores.LocalHistoryStore.Build` | crates/aworkit-local-store/src/ledger.rs:229-284 | the rows of a new commit, inserted in the code's order, are the specified transaction, or the first error, the i64 limit on delivery cursors included |
| `LocalHistoryStores.LocalHistoryStore.Begin` | crates/aworkit-local-store/src/ledger.rs:207-260 | validation, quarantine, deduplication and fences decide in this order between error, stored receipt and new transaction |
| `LocalHistoryStores.LocalHistoryStore.Attempt` | crates/aworkit-local-store/src/ledger.rs:202-300 | the tables hold the whole batch or are untouched, whatever SQLite answers, and a lost answer leaves the receipt and cursors to look for |
| `LocalHistoryStores.LocalHistoryStore.VerifyDurableCommit` | crates/aworkit-local-store/src/ledger.rs:809-901 | the check with its counts and cursor loops gives the specified verdict on whatever tables it finds |
| `LocalHistoryStores.LocalHistoryStore.Resolve` | crates/aworkit-local-store/src/ledger.rs:302-312 | the caller is told Committed exactly on Exact, the SQL error exactly on Absent, and the store is quarantined exactly on Partial |
| `LocalHistoryStores.LocalHistoryStore.CommitInner` | crates/aworkit-local-store/src/ledger.rs:202-315 | when nothing else runs between a commit and its check, the caller is told Committed exactly when the batch became durable, and a fenced commit does not quarantine |
| `LocalHistoryStores.CommitDecided` | crates/aworkit-local-store/src/ledger.rs:298-314 | on the tables a commit started from and on those it wrote, the check tells the two sides apart |
| `LocalHistoryStores.LocalHistoryStore.PrunePayloads` | crates/aworkit-local-store/src/ledger.rs:564-582 | the update loop is the fold of single payload updates, counts the updates that found a row and keeps the invariant |
| `LocalHistoryStores.LocalHistoryStore.PurgeDeliveredOutbox` | crates/aworkit-local-store/src/ledger.rs:654-682 | removes exactly the delivered rows at or below the cutoff, returns their number and payload bytes, and keeps the invariant |
| `LocalHistoryStores.LocalHistoryStore.DeleteStream` | crates/aworkit-local-store/src/ledger.rs:710-731 | deleting table by table is deleting the chat, returns the number of removed events, and keeps the invariant |
| `LocalHistoryStores.FetchRows` | crates/aworkit-local-store/src/ledger.rs:749-792 | the ordered, limited query returns exactly the next events of the stream |
| `LocalHistoryStores.LocalHistoryStore.CommittedTimelinePage` | crates/aworkit-local-store/src/ledger.rs:749-807 | a page is the next slice of the history, with a cursor exactly when it is full |
| `LocalHistoryStores.LocalHistoryStore.Events` | crates/aworkit-local-store/src/ledger.rs:464-478 | the paging loop ends and returns the whole history |
| `Tables.TotalWithout` | crates/aworkit-local-store/src/artifacts.rs:136-143 | a sum over a table, such as the staging quota, does not depend on the order of the rows |
| `Artifacts.PrepareDetermined` | crates/aworkit-local-store/src/artifacts.rs:148-186 | a preparation has one result, whose generation exceeds every staged one of its artifact |
| `Artifacts.PrepareKeepsSafe` | crates/aworkit-local-store/src/artifacts.rs:103-201 | preparing, in every outcome, keeps an intact object behind every row and at most 512 MiB staged |
| `Artifacts.FinalizeKeepsSafe` | crates/aworkit-local-store/src/ledger.rs:1121-1221 | committing artifacts keeps both |
| `Artifacts.ExpireKeepsSafe` | crates/aworkit-local-store/src/artifacts.rs:293-315 | expiring staging rows keeps both |
| `Artifacts.StreamTemporary` | crates/aworkit-local-store/src/artifacts.rs:528-549 | reads the joined chunks up to an empty read, and fails exactly when they exceed 64 MiB |
| `Artifacts.SweepObjects` | crates/aworkit-local-store/src/artifacts.rs:346-396 | removes exactly the objects that no row names and that expired or are old, and counts them |
| `Artifacts.ArtifactStore.PrepareReader` | crates/aworkit-local-store/src/artifacts.rs:103-201 | quota, generation, promotion before the row, and the object left behind by a used token |
| `Artifacts.ArtifactStore.CollectOrphans` | crates/aworkit-local-store/src/artifacts.rs:293-330 | expired rows go, then exactly the unused objects; no row loses its object |
| `Artifacts.ArtifactStore.ReadRange` | crates/aworkit-local-store/src/artifacts.rs:256-289 | returns the slice of the very bytes the content hash names, and never reports corruption while every object is intact |
| `ArtifactLaws.PreparesExactly` | crates/aworkit-local-store/src/artifacts.rs:103-201 | a preparation succeeds exactly when its texts are sound, its size and the quota allow it, no damaged object is in its place and the token is new; then the row and the object are what was given |
| `ArtifactLaws.ExpiresExactly` | crates/aworkit-local-store/src/artifacts.rs:293-315 | a staging row expires exactly when it is unclaimed and was prepared before the bound |
| `ArtifactLaws.CollectsExactly` | crates/aworkit-local-store/src/artifacts.rs:293-396 | an object is left exactly when a remaining row names it, or it is as new as the bound and no row that expired named it |
| `ArtifactLaws.NothingOldLeft` | crates/aworkit-local-store/src/artifacts.rs:388-391 | after a collection no object older than the bound is left that no row names |
| `ArtifactLaws.ReadsUntilEmpty` | crates/aworkit-local-store/src/artifacts.rs:528-549 | an upload is its chunks before the first empty one |
| `ArtifactLaws.MarksExactly` | crates/aworkit-local-store/src/artifacts.rs:256-289 | a failed read marks its artifact and changes nothing else |
| `StoreRuns.RunsStayValid` | crates/aworkit-local-store/src/ledger.rs:202-731 | in every state of every run of commits, lost answers, acknowledgements, purges, deletions, prunes, preparations, crashes, expirations, sweeps and reads, the ledger invariant holds, every artifact row has its intact object and the quota holds |
| `StoreRuns.CommitEffect` | crates/aworkit-local-store/src/ledger.rs:202-315 | a commit step writes one whole transaction or leaves every table alone |
| `StoreRuns.RunRemembers` | crates/aworkit-local-store/src/ledger.rs:1223-1246 | a deduplication row, once written, survives every later step unchanged |
| `StoreRuns.ExactlyOnce` | crates/aworkit-local-store/src/ledger.rs:202-315 | in any run a deduplication key takes effect at most once, deletions included |
| `StoreRuns.RetriesAnswered` | crates/aworkit-local-store/src/ledger.rs:215-227 | a retry at any later point gets the original receipt and changes nothing; any other valid batch under the key is refused |
| `StoreRuns.HistoriesOnlyGrow` | crates/aworkit-local-store/src/ledger.rs:229-271 | until its chat is deleted, a stream keeps its run binding and its events as a prefix of every later history |
| `RunLaws.OutboxHoldsNoSecret` | crates/aworkit-local-store/src/ledger.rs:1278-1373 | in every state of every run no outbox row holds a secret |
| `RunLaws.EventsHoldNoSecret` | crates/aworkit-local-store/src/ledger.rs:1278-1373 | in every state of every run an event that holds a secret had its payload rewritten by a prune |
| `RunLaws.QuarantineLasts` | crates/aworkit-local-store/src/ledger.rs:211-213 | once quarantined a store stays so, and no later commit or acknowledgement changes it |
| `RunLaws.OnlyChecksQuarantine` | crates/aworkit-local-store/src/ledger.rs:301-314 | only a check that finds partial evidence quarantines a store |
| `RunLaws.AggregateCounts` | crates/aworkit-local-store/src/ledger.rs:258-264 | in every run the aggregate version of a stream is the number of its commits since its chat was deleted |
| `UncertainCommits.RunKeeps` | crates/aworkit-local-store/src/ledger.rs:202-451 | under the shared lease no step takes away an event, attempt, checkpoint, key, outbox entry or finalized artifact, and no head goes back |
| `UncertainCommits.LostUnapplied` | crates/aworkit-local-store/src/ledger.rs:301-314 | a commit lost before it became durable is found Absent at any later point of its lease exactly when its aggregate version was right and no commit since wrote into its stream, under its key or under one of its ids |
| `UncertainCommits.LostApplied` | crates/aworkit-local-store/src/ledger.rs:301-314 | a commit that became durable is found Exact at any later point of its lease exactly when no commit since wrote into its stream, and Partial otherwise |
| `UncertainCommits.ExactMeansNewest` | crates/aworkit-local-store/src/ledger.rs:876-901 | whatever ran in between, Exact means the whole batch is there, each entry under its own cursor, with its events the newest of their stream's history |
| `UncertainCommits.LostAnswerQuarantines` | crates/aworkit-local-store/src/ledger.rs:301-314 | a run from the empty store in which two fenced commits are durable and the check of the first quarantines the store |
| `OutboxDelivery.PendingOutbox` | crates/aworkit-local-store/src/ledger.rs:333-396 | returns the undelivered rows after the cursor, in cursor order, complete up to the clamped limit, unless one of them does not match its payload hash |
| `OutboxDelivery.PollIsNext` | crates/aworkit-local-store/src/ledger.rs:333-396 | a poll returns exactly the next entries of the commit log |
| `OutboxDelivery.ConsumerSeesTheLog` | crates/aworkit-local-store/src/ledger.rs:333-451 | in every run what the consumer has seen is a prefix of the commit log, the rest waits undelivered, and the i-th entry ever committed has cursor i + 1, so no cursor is reused |
| `OutboxDelivery.EmptyPollMeansDone` | crates/aworkit-local-store/src/ledger.rs:333-396 | an empty page means everything committed has been seen |
| `OutboxDelivery.StepDelivers` | crates/aworkit-local-store/src/ledger.rs:202-731 | a step of the store, whatever it is, keeps every unseen entry waiting under its own cursor exactly when an acknowledgement hits a seen row, a purge keeps the newest row, and a deleted chat has neither the newest nor an unseen row |
| `OutboxDelivery.PurgeDelivers` | crates/aworkit-local-store/src/ledger.rs:645-682 | a purge loses nothing the consumer waits for and no cursor exactly when it keeps a row or finds the newest undelivered |
| `OutboxDelivery.AcknowledgeDelivers` | crates/aworkit-local-store/src/ledger.rs:399-451 | marking a row delivered loses nothing exactly when the consumer has seen that row |
| `OutboxDelivery.NewestExists` | crates/aworkit-local-store/src/ledger.rs:1083-1119 | in a reachable, nonempty outbox exactly one row has the greatest cursor |
| `OutboxDelivery.FreshAfterPurge` | crates/aworkit-local-store/src/ledger.rs:654-682 | after a purge the next commit hands out only cursors above every earlier one exactly when the purge keeps a row or the newest is undelivered |
| `OutboxDelivery.FreshAfterDelete` | crates/aworkit-local-store/src/ledger.rs:719-724 | after a deletion it does exactly when the newest row is another chat's |
| `OutboxDelivery.PurgeRunReusesCursor` | crates/aworkit-local-store/src/ledger.rs:654-682 | a run from the empty store that delivers, purges all rows and hands cursor 1 out again |
| `OutboxDelivery.DeleteRunReusesCursor` | crates/aworkit-local-store/src/ledger.rs:710-731 | a run from the empty store that deletes the chat of the newest row and hands cursor 1 out again |
| `Projections.RebuildSucceedsExactly` | crates/aworkit-local-store/src/projections.rs:153-252 | a rebuild succeeds exactly when the stream exists and none of its events is indexed under another stream |
| `Projections.RebuiltRows` | crates/aworkit-local-store/src/projections.rs:179-260 | after a rebuild the stream's rows are exactly the source's events and every other row is as before |
| `Projections.RebuildShowsHistory` | crates/aworkit-local-store/src/projections.rs:153-357 | a rebuilt stream shows the source's history, other streams show what they did, and the generation moves on |
| `Projections.RebuildRecords` | crates/aworkit-local-store/src/projections.rs:325-353 | a rebuild records its own stream, how far it read and in which generation, and never conceals an interrupted full rebuild |
| `Projections.TouchKeepsExact` | crates/aworkit-local-store/src/projections.rs:384-406 | whatever changes a row of any stream also changes the generation |
| `Projections.PageIsNext` | crates/aworkit-local-store/src/projections.rs:652-675 | under a limit of 1 to 512 a page holds the next rows, and a cursor exactly when rows are left |
| `Projections.FinishedWalkIsComplete` | crates/aworkit-local-store/src/projections.rs:410-468 | however rebuilds and evictions interleave, a walk that finishes returned every row once and in order |
| `Projections.PageLosesRowsExactly` | crates/aworkit-local-store/src/projections.rs:844-862 | from any current cursor, a page drops rows without a cursor exactly for limit 0 with rows left, or a limit over 512 with more than 513 left |
| `Projections.PagesLoseRows` | crates/aworkit-local-store/src/projections.rs:844-862 | one row under limit 0 and 514 rows under limit 513 are such pages |
| `Projections.Republish` | crates/aworkit-local-store/src/projections.rs:196-266 | the loop over source pages of 256 inserts exactly the stream's events, or nothing if one is refused |
| `Projections.ProjectionStore.RebuildChat` | crates/aworkit-local-store/src/projections.rs:153-357 | publishes the rebuilt index whole, or leaves the old one |
| `Projections.ProjectionStore.RebuildAll` | crates/aworkit-local-store/src/projections.rs:360-381 | from a valid source it always succeeds, and the index then equals the source on every stream and is healthy |
| `Projections.ProjectionStore.EvictAll` | crates/aworkit-local-store/src/projections.rs:384-406 | afterwards every stream shows nothing, the index is exact and healthy, and every cursor handed out before is refused as stale |
| `Projections.ProjectionStore.TimelinePage` | crates/aworkit-local-store/src/projections.rs:426-468 | a stale cursor is refused; otherwise the page is the specified one, for every limit |
| `Projections.ProjectionStore.Timeline` | crates/aworkit-local-store/src/projections.rs:410-424 | the page loop returns every row of the stream |
| `ExtensionInventories.WriteKeepsConsistent` | crates/aworkit-local-store/src/extension_inventory.rs:169-292 | every write keeps records, contributions and audit in agreement and only appends to the audit |
| `ExtensionInventories.WriteFailsOnlyByCheck` | crates/aworkit-local-store/src/extension_inventory.rs:169-292 | a valid write succeeds exactly when its operation is known with the same request, or new with the right version and manifest; no table constraint ever refuses it |
| `ExtensionInventories.AuditReplays` | crates/aworkit-local-store/src/extension_inventory.rs:169-292 | after any run of writes, replaying the audit gives exactly the record table |
| `ExtensionInventories.VersionsCountUp` | crates/aworkit-local-store/src/extension_inventory.rs:203-227 | the n-th audit row of an identity has version n |
| `ExtensionInventories.VersionIsCount` | crates/aworkit-local-store/src/extension_inventory.rs:203-227 | the current version of a record is the number of its audit rows |
| `ExtensionInventories.NeighboursLink` | crates/aworkit-local-store/src/extension_inventory.rs:198-227 | neighbouring audit rows of an identity are linked by prior hash, version and manifest |
| `ExtensionInventories.ManifestNeverChanges` | crates/aworkit-local-store/src/extension_inventory.rs:221-227 | every audit row of an identity carries the manifest it still has |
| `ExtensionInventories.OperationsReplay` | crates/aworkit-local-store/src/extension_inventory.rs:184-202 | a repeated operation answers with the record it wrote and changes nothing, after any later writes; another request under its name conflicts |
| `InventoryLaws.RecordsExactly` | crates/aworkit-local-store/src/extension_inventory.rs:511-578 | a record is valid exactly when its version is in range, it is installed if enabled, its texts and hash have their form, and its contributions are at most 256 and sorted by distinct ids |
| `InventoryLaws.WritesExactly` | crates/aworkit-local-store/src/extension_inventory.rs:169-292 | in every reachable inventory a new operation is applied exactly when it is sound and starts at version 1 or follows the stored version with the same manifest |
| `InventoryLaws.RefusalsNamed` | crates/aworkit-local-store/src/extension_inventory.rs:208-227 | which version error a refused write gets |
| `InventoryLaws.AuditTellsWrites` | crates/aworkit-local-store/src/extension_inventory.rs:262-292 | after any run of writes each audit row tells one of them in every field, kind and detail included |
| `ExtensionInventories.LookupIsScan` | crates/aworkit-local-store/src/extension_inventory.rs:143-166 | looking up a contribution equals scanning the current manifests |
| `ExtensionInventories.ExtensionInventory.WriteRecord` | crates/aworkit-local-store/src/extension_inventory.rs:169-292 | the method computes the specified write or error, and refuses every write to a newer schema |
| `ExtensionInventories.ExtensionInventory.LoadRecord` | crates/aworkit-local-store/src/extension_inventory.rs:460-498 | returns the replayed record and never reports corruption |
| `ExtensionInventories.ExtensionInventory.Audit` | crates/aworkit-local-store/src/extension_inventory.rs:295-359 | returns the clamped slice of the log, and its own checks never fail |
| `StreamingRedaction.RedactClean` | crates/aworkit-capability-host/src/normalize.rs:43-48 | batch redaction leaves no secret, in any order of passes |
| `StreamingRedaction.StreamNeverLeaks` | crates/aworkit-capability-host/src/normalize.rs:50-91 | for every chunking no secret occurs in the whole emitted stream, across emission boundaries too |
| `StreamingRedaction.NoClashNeverLeaks` | crates/aworkit-capability-host/src/normalize.rs:50-91 | secrets that cannot touch a marker, brackets or not, are never shown by any stream |
| `StreamingRedaction.StreamLeakFreeExactly` | crates/aworkit-capability-host/src/normalize.rs:31-91 | when each secret cannot touch a marker or is part of it, no stream ever shows one exactly when none is part of it |
| `StreamingRedaction.BracketFreeLeakFreeExactly` | crates/aworkit-capability-host/src/normalize.rs:31-91 | for bracket-free secrets that is exactly when none is part of REDACTED |
| `StreamingRedaction.BracketedSecretLeaks` | crates/aworkit-capability-host/src/normalize.rs:31-91 | a secret with a bracket that is no part of a marker can be shown, on a concrete input |
| `SingleSecret.SingleLeakFreeExactly` | crates/aworkit-capability-host/src/normalize.rs:31-91 | any one secret is never shown by any stream exactly when it neither holds nor is part of a marker, does not begin with the end of one, and does not end with the beginning of one unless it is found earlier there |
| `SingleSecret.OverlapDoesNotDecide` | crates/aworkit-capability-host/src/normalize.rs:31-91 | of two secrets that overlap a marker, one can be shown and one cannot |
| `StreamIsBatch.PushKeepsMeaning` | crates/aworkit-capability-host/src/normalize.rs:65-84 | for harmless secrets emitted ++ redact(pending ++ rest) stays the redaction of everything, for every future |
| `StreamIsBatch.StreamIsBatchExactly` | crates/aworkit-capability-host/src/normalize.rs:31-91 | for secrets that cannot touch a marker, the stream equals the batch redaction on every chunking exactly when no secret can end inside one that an earlier pass replaces |
| `StreamIsBatch.SingleSecretStreamIsBatch` | crates/aworkit-capability-host/src/normalize.rs:50-91 | for one such secret it always does |
| `StreamingRedaction.NestedSecretsStreamDiffers` | crates/aworkit-capability-host/src/normalize.rs:50-91 | for nested secrets stream and batch differ, on a concrete input |
| `StreamingRedaction.NewRedactorNeverLeaks` | crates/aworkit-capability-host/src/normalize.rs:31-41 | the constructor's filtering and sorting loses no secret |
| `TextStreams.NewRedactorExactly` | crates/aworkit-capability-host/src/normalize.rs:31-41 | the constructor keeps every secret that is not empty, longest first, without equal neighbours, and the length of the longest |
| `Occurrences.SortStable` | crates/aworkit-capability-host/src/normalize.rs:33 | sorting by length keeps the order of secrets of one length |
| `TextStreams.BoundariesExactly` | crates/aworkit-capability-host/src/normalize.rs:76-79 | in valid UTF-8 a boundary is exactly a place where both sides are valid UTF-8 |
| `TextStreams.PushedIsText` | crates/aworkit-capability-host/src/normalize.rs:65-84 | of valid UTF-8 both what a push emits and what it keeps are valid UTF-8 |
| `TextStreams.StreamsEmitText` | crates/aworkit-capability-host/src/normalize.rs:50-91 | every single emission of every stream is valid UTF-8, and together they are the stream |
| `TextStreams.HeldBackBounded` | crates/aworkit-capability-host/src/normalize.rs:65-84 | a push holds back at most the longest secret less one and three bytes of a character, or a text whose redaction is that short |
| `Utf8.DecodeEncoded` | crates/aworkit-capability-host/src/normalize.rs:76-79 | decoding undoes encoding, for every text |
| `Utf8.EncodeDecoded` | crates/aworkit-capability-host/src/normalize.rs:76-79 | every byte string that decodes is the encoding of what it decodes to |
| `StreamingRedaction.StreamingRedactor.Push` | crates/aworkit-capability-host/src/normalize.rs:65-84 | the method computes the specified emission and pending text |
| `StreamingRedaction.StreamAll` | crates/aworkit-capability-host/src/normalize.rs:50-91 | pushing every chunk and finishing emits the specified stream |
| `RedactionSets.NewRedactionSet` | crates/aworkit-local-store/src/redaction.rs:71-111 | accepts exactly the sets that are small enough with acceptable secrets only, keeps each of them, longest first |
| `RedactionSets.RedactText` | crates/aworkit-local-store/src/redaction.rs:158-210 | the cursor loop returns the specified outcome, errors included |
| `RedactionSets.RedactedTextMeaning` | crates/aworkit-local-store/src/redaction.rs:158-210 | the output is the leftmost-longest replacement, of length input - matches + 10 per replacement |
| `RedactionSets.OutcomeExactly` | crates/aworkit-local-store/src/redaction.rs:158-210 | a text passes exactly when it has no zero byte, neither it nor its redaction is over 2 MiB and no secret is left; the answer is the redaction and the number of stretches replaced |
| `RedactionSets.SelectionUnique` | crates/aworkit-local-store/src/redaction.rs:168-186 | the leftmost-longest selection is unique |
| `RedactionSets.OrderOfSecretsIrrelevant` | crates/aworkit-local-store/src/redaction.rs:92-95 | sorting and deduplicating secrets cannot change any outcome |
| `ResidualSecrets.ShownIsCompleted` | crates/aworkit-local-store/src/redaction.rs:158-204 | every secret left in a redacted text was completed by a marker on its left, on its right or on both sides |
| `ResidualSecrets.ResidualExactly` | crates/aworkit-local-store/src/redaction.rs:71-204 | an accepted set reports a residual secret on some text exactly when the markers put for its own secrets can complete one of them |
| `ResidualSecrets.NeverResidual` | crates/aworkit-local-store/src/redaction.rs:198-204 | no accepted bracket-free set is ever reported as residual |
| `ResidualSecrets.ResidualWithBracket` | crates/aworkit-local-store/src/redaction.rs:198-204 | with a bracket the report does happen, on a concrete input |
| `ResidualSecrets.DoubleBracketNeverResidual` | crates/aworkit-local-store/src/redaction.rs:198-204 | a bracket alone does not decide it: one accepted secret of two brackets is never reported |
| `GlobPattern.GlobParts` | crates/aworkit-capability-host/src/files.rs:1033-1063 | the compiled parts accept exactly the names the text means |
| `GlobPattern.ExpandBraceAlternatives` | crates/aworkit-capability-host/src/files.rs:1065-1097 | the recursive expansion with its product loops gives the specified alternatives or fails at the same bound |
| `GlobPattern.ExpandMeans` | crates/aworkit-capability-host/src/files.rs:1065-1097 | a name matches some alternative exactly when the pattern denotes it, braces read as a union of choices |
| `GlobPattern.GlobSegments` | crates/aworkit-capability-host/src/files.rs:1011-1031 | fails exactly on patterns without a segment or with a bad brace group; otherwise every segment is compiled to its meaning |
| `GlobTexts.SplitJoins` | crates/aworkit-capability-host/src/files.rs:1013 | the pieces of a split hold no separator and joined by it are the text |
| `GlobTexts.SegmentsOf` | crates/aworkit-capability-host/src/files.rs:1011-1031 | a pattern has the segments of both sides of a slash in order; a text without a slash is its own segment |
| `GlobTexts.BracesExactly` | crates/aworkit-capability-host/src/files.rs:1065-1084 | a text without braces is plain, the first group of two or more plain choices is taken, and every other text with a brace is refused |
| `GlobTexts.ExpandsExactly` | crates/aworkit-capability-host/src/files.rs:1065-1097 | a segment is accepted exactly when its groups are good and stand for at most 32 texts |
| `GlobTexts.WildExactly` | crates/aworkit-capability-host/src/files.rs:989-1063 | `?` is any one character, `*` any text, and a text means what its parts mean side by side |
| `GlobTexts.PlainPatternsExact` | crates/aworkit-capability-host/src/files.rs:981-1031 | a pattern that writes out a path denotes that path and no other |
| `GlobTexts.AnyDepthExactly` | crates/aworkit-capability-host/src/files.rs:981-1031 | `**` and a name denote every path that ends in that name |
| `GlobTexts.BelowExactly` | crates/aworkit-capability-host/src/files.rs:981-1031 | a directory and `**` denote every path below it |
| `GlobTexts.RequestsExactly` | crates/aworkit-capability-host/src/files.rs:598-605 | a request is in order exactly for a pattern of 1 to 4096 bytes without a zero and 1 to 1000 entries |
| `GlobTexts.RenderedJoins` | crates/aworkit-capability-host/src/files.rs:718-721 | the reported text of a path is its names with slashes between them |
| `GlobWalk.CompiledPathsMatch` | crates/aworkit-capability-host/src/files.rs:981-1009 | matching compiled segments is matching what the pattern denotes, `**` as zero or more directories |
| `GlobWalk.Walk.Collect` | crates/aworkit-capability-host/src/files.rs:641-738 | the recursion ends, lists only matching files of the subtree, and every path text of them unless the maximum is reached, visiting no more entries than the patterns reach |
| `GlobWalk.List` | crates/aworkit-capability-host/src/files.rs:592-639 | fails as invalid exactly on a bad bound or pattern, otherwise succeeds unless cancelled or at least 100 000 entries are visited; a listing is sound, without repeated paths, newest first, and has every matching path text unless full |
| `GlobListing.EveryFileListedExactly` | crates/aworkit-capability-host/src/files.rs:641-738 | a listing that is not full has every matching file exactly when no two matching files share a path text and differ in size or time |
| `GlobListing.OwnEntriesExactly` | crates/aworkit-capability-host/src/files.rs:641-738 | each matching file has an entry of its own exactly when different matching paths have different texts |
| `GlobListing.PlainTreesListed` | crates/aworkit-capability-host/src/files.rs:592-738 | in a tree without backslashes in names, a listing that is not full has every matching file under its own entry |
| `GlobListing.RenderedInjective` | crates/aworkit-capability-host/src/files.rs:718-721 | names without backslashes are told apart by their path texts |
| `GlobListing.CollidingTreeLosesFile` | crates/aworkit-capability-host/src/files.rs:718-738 | every listing of one concrete tree that is not full has lost one of its two matching files |
| `GlobListing.CollidingListing` | crates/aworkit-capability-host/src/files.rs:718-738 | and such a listing exists, with one entry for the two files |
| `BoundedCodec.Compress` | crates/aworkit-local-store/src/bounded_codec.rs:12-41 | the loops emit the specified plan of runs and literals |
| `BoundedCodec.Decompress` | crates/aworkit-local-store/src/bounded_codec.rs:43-69 | the loop returns the specified bytes or error |
| `BoundedCodec.Decompressed` | crates/aworkit-local-store/src/bounded_codec.rs:43-69 | never more than the bound, on any input |
| `BoundedCodec.RoundTrip` | crates/aworkit-local-store/src/bounded_codec.rs:12-69 | decompressing what was compressed gives the input, or the limit error exactly when it is longer than the bound |
| `BoundedCodec.DecodeUnderLargerBound` | crates/aworkit-local-store/src/bounded_codec.rs:43-69 | a larger bound never changes a successful result |
| `BoundedCodec.CompressedSize` | crates/aworkit-local-store/src/bounded_codec.rs:12-41 | at most 8 + n + ceil(n / 128) bytes |
| `CodecLaws.FormatExactly` | crates/aworkit-local-store/src/bounded_codec.rs:12-69 | the block format in numbers: literals after their length less one, runs as their length less one with the high bit |
| `CodecLaws.CutBlocksRefused` | crates/aworkit-local-store/src/bounded_codec.rs:43-69 | a block that is not all there is reported, unless its length is already too much |
| `CodecLaws.BlocksExactly` | crates/aworkit-local-store/src/bounded_codec.rs:12-41 | three equal bytes in a row are never written out as a literal, and a run block takes all that fit |
| `JsonLines.ReadJsonLines` | crates/aworkit-capability-host/src/codex_app_server.rs:353-398 | for every cut into nonempty chunks the messages are the frames of the whole input, also when the receiver goes away |
| `JsonLines.WrittenIsRead` | crates/aworkit-capability-host/src/codex_app_server.rs:330-398 | what the writer sends, the reader gives back |
| `JsonLines.FramesExactly` | crates/aworkit-capability-host/src/codex_app_server.rs:353-398 | of lines and an unfinished one the reader reports the lines that are not blank, trimmed and in order, then the end |
| `JsonLines.OverlongStops` | crates/aworkit-capability-host/src/codex_app_server.rs:353-398 | a line over the bound ends the reading after the lines before it |
| `ModelResult.ProjectToolEvents` | crates/aworkit-capability-host/src/model_result.rs:85-108 | the builder loop gives the specified projection |
| `ModelResult.ProjectEvents` | crates/aworkit-capability-host/src/model_result.rs:62-81 | text-only projection equals tool projection of the converted events |
| `ModelResult.ProjectionBuilder.AddText` | crates/aworkit-capability-host/src/model_result.rs:136-202 | text joins its kind's entry, and raw reasoning its one slot |
| `ModelResult.ProjectionBuilder.AddCall` | crates/aworkit-capability-host/src/model_result.rs:204-210 | a call is appended to calls, content and compacted events |
| `ModelResult.ProjectionBuilder.AddUsage` | crates/aworkit-capability-host/src/model_result.rs:212-227 | the last usage replaces the earlier one in place |
| `ModelResult.CompactedUpdates` | crates/aworkit-capability-host/src/model_result.rs:174-178 | a later fragment changes its own entry of the first-occurrence form and no other |
| `Compaction.CallsConcat` | crates/aworkit-capability-host/src/model_result.rs:204-210 | the calls of a turn are those of its parts, in order |
| `Compaction.CallsAreRetained` | crates/aworkit-capability-host/src/model_result.rs:204-210 | the projected calls are the call items of the retained content, in their order |
| `Compaction.CompactedMeansTheSame` | crates/aworkit-capability-host/src/model_result.rs:136-227 | the compacted events have the same text of every kind, the same calls in the same order and the same usage, and compacting again changes nothing |
| `Compaction.ConvertedMeansTheSame` | crates/aworkit-capability-host/src/model_result.rs:62-81 | converting a text-only stream keeps every text in order and adds no call |
| `ModelResult.SplitInvariant` | crates/aworkit-capability-host/src/model_result.rs:136-202 | splitting any fragment of any kind anywhere leaves the projection as it is |
| `ModelResult.ContentShaped` | crates/aworkit-capability-host/src/model_result.rs:136-168 | retained content has no neighbouring texts and one reasoning place holding all raw reasoning |
| `ModelResult.ContentKeepsOrder` | crates/aworkit-capability-host/src/model_result.rs:136-210 | retained content holds every assistant character, call and the reasoning place in stream order |
| `ModelResult.ReprojectionIdentity` | crates/aworkit-capability-host/src/model_result.rs:136-210 | projecting the retained content gives it back |
| `JsonPointer.EscapeRoundTrip` | crates/aworkit-portable-store/src/export.rs:251-253 | reading undoes escaping for every token |
| `JsonPointer.RenderRoundTrip` | crates/aworkit-portable-store/src/export.rs:107-126 | a rendered pointer reads back as its tokens |
| `JsonPointer.IndexRoundTrip` | crates/aworkit-portable-store/src/export.rs:113-118 | a written array index reads back |
| `ExportScrub.ScrubIsDrop` | crates/aworkit-portable-store/src/export.rs:107-144 | scrubbing succeeds exactly when the value without its omitted members is clean at every depth, and then returns that value |
| `ExportScrub.ScrubIdempotent` | crates/aworkit-portable-store/src/export.rs:107-144 | the result is clean, and scrubbing it again changes and omits nothing |
| `ExportScrub.OmissionsAreExact` | crates/aworkit-portable-store/src/export.rs:107-144 | omission pointers are pairwise distinct, each resolves in the original to an omitted member, and deleting exactly those gives the result |
| `ExportPolicy.Scrubber.ScrubValue` | crates/aworkit-portable-store/src/export.rs:107-144 | the walk with its mutable omission list computes the specified scrub |
| `ExportPolicy.ScrubRecord` | crates/aworkit-portable-store/src/export.rs:42-52 | succeeds exactly on an allowed root whose dropped value is clean; omissions are those of the value, in order |
| `ExportPolicy.ExportAgain` | crates/aworkit-portable-store/src/export.rs:38-52 | exporting an export changes nothing, for every record class |
| `ExportLaws.KeysMean` | crates/aworkit-portable-store/src/export.rs:146-152 | letter case and any character that is no ASCII letter or digit do not matter to a key, and a name of small letters and digits stands for itself |
| `ExportLaws.EndingsRefused` | crates/aworkit-portable-store/src/export.rs:168-214 | whatever stands before it, a name that ends like a secret is refused |
| `ExportLaws.CredentialsRefused` | crates/aworkit-portable-store/src/export.rs:216-249 | key prefixes with sixteen letters or digits and private key heads are refused wherever they stand |
| `ExportLaws.MachinePathsRefused` | crates/aworkit-portable-store/src/export.rs:223-230 | home directories, network shares and drive letters are refused at the start of a text |
| `ExportLaws.RefusalsResolve` | crates/aworkit-portable-store/src/export.rs:107-144 | a refusal names a real offender: its pointer resolves in the value to a member or text of the kind it says |
| `ExportLaws.RecordsExactly` | crates/aworkit-portable-store/src/export.rs:60-105 | a typed record is let in exactly when it is an object all of whose keys are in its vocabulary; a refusal names a key that is not |
| `Gateway.RunsStayValid` | crates/aworkit-capability-host/src/gateway.rs:191-321 | in every run active and completed ids stay disjoint and active ones within the maximum |
| `Gateway.RunKeepsBound` | crates/aworkit-capability-host/src/gateway.rs:236-292 | an id once bound to a request stays bound to it |
| `Gateway.ExecutesOnce` | crates/aworkit-capability-host/src/gateway.rs:191-321 | each id is told to execute at most once, and every accepted envelope under it carries the same request |
| `Gateway.AdmittedExactly` | crates/aworkit-capability-host/src/gateway.rs:191-292 | a request is admitted exactly when schema, generation, tag, deadline, registry entry, kind, output bound, scopes, leases and payload are in order and its id is bound to it, or to nothing while there is room; the receipt names it |
| `Gateway.FirstFenceDecides` | crates/aworkit-capability-host/src/gateway.rs:196-235 | the refusal names the first fence, in order, that the request does not pass |
| `Gateway.BoundIsAuthentic` | crates/aworkit-capability-host/src/gateway.rs:191-292 | in every run whatever an id is bound to came before in an authentic envelope that passed every fence |
| `Gateway.LaterRequestsDecided` | crates/aworkit-capability-host/src/gateway.rs:236-270 | in every run, once an id was accepted, a later request under it that passes the fences is accepted exactly when it is the same one, however full the host is, and changes nothing |
| `Gateway.CancelledExactly` | crates/aworkit-capability-host/src/gateway.rs:325-344 | in every run an active invocation is cancelled exactly when some control was accepted for it since its admission |
| `Gateway.CapabilityHost.AdmitV1` | crates/aworkit-capability-host/src/gateway.rs:191-292 | the method decides as specified, in the order of its fences |
| `Gateway.CapabilityHost.ApplyControlV1` | crates/aworkit-capability-host/src/gateway.rs:325-344 | only an authentic control with the invocation's own token cancels it, and nothing else changes |
| `Gateway.CapabilityHost.Complete` | crates/aworkit-capability-host/src/gateway.rs:371-383 | moves the id from active to completed with its request hash |
| `Gateway.CapabilityHost.DispatchV1` | crates/aworkit-capability-host/src/gateway.rs:296-321 | the dispatcher runs exactly on Execute, and a terminal dispatch leaves the id completed |

## Left out

- SQLite, file locks, fsync and rename: a transaction is one atomic step, and a crash stops a run between steps.
- SHA-256, HMAC, serde and canonical JSON: digests and codes are modelled as injective; nothing cryptographic is claimed.
- Stable-identifier syntax checks (`stable`, `validate_id`): identifiers are texts taken as already valid.
- The secret-key scan of event payloads: a payload carries whether the scan rejects it.
- LocalHistoryStores.LocalHistoryStore.VerifyDurableCommit: its queries are read at one instant; the code issues them one after another on a connection of its own, without a transaction.
- LocalHistoryStores.LocalHistoryStore.CommitInner: says nothing about other work between the commit and its check; `LostUnapplied` and `LostApplied` do.
- Projections: the evidence, artifact and search tables, the chat title and full-text search; their rows follow the timeline's.
- Projections.ProjectionStore.RebuildAll: the source does not change between two streams of one full rebuild.
- ExtensionInventories: the manifest's dependencies, compatibility range, provenance, configuration hash and remaining descriptor fields are one compared text with a flag that says whether validation accepts them, and so are a record's integrity, quarantine and attestation; the encoded-size bound is part of that flag.
- ExtensionInventories.LookupIsScan: the order of the answer is not modelled, because it only sorts by the identity.
- StreamingRedaction.StreamLeakFreeExactly: one direction stays open for sets in which some secret overlaps a marker without being part of it; a shorter secret replaced inside it can then hide or complete it, pass by pass. For one secret the condition is exact (`SingleLeakFreeExactly`).
- StreamIsBatch.StreamIsBatchExactly: says nothing of secrets that can touch a marker; there a replacement made in one push can itself be replaced again in the next.
- RedactionSets.NewRedactionSet: the number and the syntax of forbidden field names are not modelled, nor their checks on JSON payloads, because they need Unicode trimming and lower-casing; the order among secrets of equal length is one no outcome depends on.
- GlobWalk: symbolic links and special files are entries that are neither files nor directories; names that are not valid Unicode are not modelled, and cancellation is the number of checks it takes to be seen.
- Gateway: `admissions` and `completed` are two mutexes taken one after the other; each call is one step here, so interleavings inside a call are not covered.
- Artifacts.ArtifactStore.CollectOrphans: stale temporary files, which the code also removes and counts, are outside the modelled store.
- Artifacts: sharding of object paths, and damage to object files from outside.
- `read_lines_v1`, `write_v1`, `edit_v1`, `search_v1`: would add easier members of the same kind.
- `event_ids`: reads only the first page; `events` is modelled instead.
- HTTP providers, process launching, the desktop front end, migrations and release scripts: plumbing around libraries that are not part of this model.
