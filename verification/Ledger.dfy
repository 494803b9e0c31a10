/** The local history store: its tables and its single atomic commit
    (`commit_v1`, `commit` and the helpers they run inside one transaction). */
module Ledger {
  import opened Base
  import opened Tables

  const SUPPORTED_SCHEMA: nat := 1

  type Id = string

  /** A JSON payload: its canonical text, and whether the secret-key scan rejects it. */
  datatype Payload = Payload(text: string, holdsSecret: bool)

  /** SHA-256 digests are modelled by what they digest, so that they never collide. */
  datatype TextHash = OfText(text: string)
  datatype ContentHash = OfBytes(bytes: Bytes)
  datatype RequestHash = OfBatch(batch: Batch)

  datatype Backend = LocalSqlite | PortableProject(repository: Id)

  datatype Event = Event(id: Id, schemaVersion: nat, kind: string, payload: Payload)
  datatype Attempt = Attempt(id: Id, operation: Id, ordinal: nat, outcome: string)
  datatype Checkpoint = Checkpoint(reducer: string, stateHash: string, snapshot: Option<Id>)
  datatype DedupKey = DedupKey(keyType: string, key: Id)
  datatype OutboxEntry = OutboxEntry(id: Id, destination: string, schemaVersion: nat, payload: Payload)
  datatype ArtifactRef =
    ArtifactRef(token: Id, artifact: Id, hash: ContentHash, size: nat, generation: nat, origin: Id)

  datatype StreamKey = StreamKey(chat: Id, branch: Id)

  datatype Batch = Batch(
    backend: Backend, chat: Id, run: Id, branch: Id,
    expectedHead: nat, expectedAggregate: nat,
    events: seq<Event>, attempts: seq<Attempt>, checkpoint: Option<Checkpoint>,
    dedup: Option<DedupKey>, outbox: seq<OutboxEntry>, artifacts: seq<ArtifactRef>)
  {
    function Key(): StreamKey { StreamKey(chat, branch) }
  }

  datatype Receipt = Receipt(
    head: nat, aggregate: nat, eventIds: seq<Id>, checkpointHash: Option<string>,
    outboxIds: seq<Id>, request: RequestHash)

  datatype CommitOutcome = Committed(receipt: Receipt) | Existing(receipt: Receipt)

  // --------------------------------------------------------------- stored rows

  datatype Stream = Stream(run: Id, head: nat, aggregate: nat)
  datatype EventRow = EventRow(stream: StreamKey, sequence: nat, event: Event)
  datatype AttemptRow = AttemptRow(stream: StreamKey, attempt: Attempt)
  datatype CheckpointKey = CheckpointKey(stream: StreamKey, sequence: nat)
  datatype DedupRow = DedupRow(request: RequestHash, stream: StreamKey, receipt: Receipt)
  datatype OutboxRow = OutboxRow(
    stream: StreamKey, commitSequence: nat, cursor: nat, entry: OutboxEntry, hash: TextHash, delivered: bool)
  datatype PreparedRow = PreparedRow(
    artifact: Id, hash: ContentHash, size: nat, mediaType: string, name: string,
    generation: nat, preparedAt: nat, finalized: Option<Id>)
  datatype ArtifactRow = ArtifactRow(
    hash: ContentHash, size: nat, mediaType: string, name: string, generation: nat, corrupt: bool)

  /** The tables that artifact finalization touches. */
  datatype Staging = Staging(
    prepared: map<Id, PreparedRow>, artifacts: map<Id, ArtifactRow>, references: set<(Id, Id)>)

  datatype Db = Db(
    streams: map<StreamKey, Stream>,
    events: map<Id, EventRow>,
    attempts: map<Id, AttemptRow>,
    checkpoints: map<CheckpointKey, Checkpoint>,
    dedup: map<DedupKey, DedupRow>,
    outbox: map<Id, OutboxRow>,
    staging: Staging,
    quarantined: bool)

  /** A content object on disk. */
  datatype ObjectFile = ObjectFile(bytes: Bytes, modified: nat)
  type Objects = map<ContentHash, ObjectFile>

  // -------------------------------------------------------------------- errors

  datatype StoreError =
    | WrongHistoryBackend | InvalidStoredData | InvalidEventBatch | UnsupportedSchemaVersion(version: nat)
    | InvalidText | ForbiddenSecretMaterial
    | DuplicateEventInBatch | DuplicateAttemptInBatch | DuplicateOutboxInBatch | DuplicateArtifactTokenInBatch
    | StoreQuarantined | DeduplicationKeyReused | BackendBindingMismatch
    | HeadConflict(expected: nat, actual: nat) | AggregateVersionConflict(expected: nat, actual: nat)
    | Sql
    | ArtifactOriginOutsideCommit | UnknownArtifactToken | ArtifactTokenMismatch | ArtifactTokenAlreadyFinalized
    | CorruptArtifact | ArtifactIdentityConflict
    | AmbiguousCommitQuarantined
    | UnknownOutbox | CorruptOutbox | OutboxCursorConflict(expectedCursor: nat, actualCursor: nat)
    | ArtifactTooLarge | ArtifactQuotaExceeded | UnknownArtifact | ArtifactRangeTooLarge
    | UnknownHistoryStream | StaleProjectionCursor

  datatype Result<+T> = Ok(value: T) | Err(error: StoreError) {
    predicate IsFailure() { Err? }
    function PropagateFailure<U>(): Result<U>
      requires Err?
    {
      Err(error)
    }
    function Extract(): T
      requires Ok?
    {
      value
    }
  }

  datatype Check = Pass | Fail(error: StoreError) {
    /** The first failing check decides. */
    function Then(next: Check): Check {
      if Fail? then this else next
    }
    predicate IsFailure() { Fail? }
    function PropagateFailure<U>(): Result<U>
      requires Fail?
    {
      Err(error)
    }
  }

  function Need(condition: bool, error: StoreError): Check {
    if condition then Pass else Fail(error)
  }

  function Stored<T>(inserted: Option<T>): Result<T> {
    match inserted
    case None => Err(Sql)
    case Some(table) => Ok(table)
  }

  // ---------------------------------------------------------------- validation

  predicate ValidText(text: string) {
    text != [] && Utf8Length(text) <= 256 && '\0' !in text
  }

  /** One loop of `validate_batch`: each item by itself, then against the ids before it. */
  function CheckItems<T>(items: seq<T>, check: T -> Check, id: T -> Id, duplicate: StoreError, seen: set<Id>): Check {
    if items == [] then Pass
    else if check(items[0]).Fail? then check(items[0])
    else if id(items[0]) in seen then Fail(duplicate)
    else CheckItems(items[1..], check, id, duplicate, seen + {id(items[0])})
  }

  function CheckEvent(e: Event): Check {
    Need(e.schemaVersion == SUPPORTED_SCHEMA, UnsupportedSchemaVersion(e.schemaVersion))
    .Then(Need(ValidText(e.kind), InvalidText))
    .Then(Need(!e.payload.holdsSecret, ForbiddenSecretMaterial))
  }

  function CheckAttempt(a: Attempt): Check {
    Need(ValidText(a.outcome), InvalidText)
  }

  function CheckEntry(o: OutboxEntry): Check {
    Need(o.schemaVersion == SUPPORTED_SCHEMA, UnsupportedSchemaVersion(o.schemaVersion))
    .Then(Need(ValidText(o.destination), InvalidText))
    .Then(Need(!o.payload.holdsSecret, ForbiddenSecretMaterial))
  }

  function CheckReference(a: ArtifactRef): Check {
    Need(a.size <= I64_MAX && a.generation <= I64_MAX, InvalidStoredData)
  }

  function EventId(e: Event): Id { e.id }
  function AttemptId(a: Attempt): Id { a.id }
  function EntryId(o: OutboxEntry): Id { o.id }
  function TokenId(a: ArtifactRef): Id { a.token }

  /** `validate_batch`. */
  function Validate(batch: Batch): (r: Check)
    ensures r.Pass? ==> batch.events != []
  {
    Need(batch.backend.LocalSqlite?, WrongHistoryBackend)
    .Then(Need(batch.expectedHead <= I64_MAX && batch.expectedAggregate <= I64_MAX, InvalidStoredData))
    .Then(Need(batch.events != [], InvalidEventBatch))
    .Then(CheckItems(batch.events, CheckEvent, EventId, DuplicateEventInBatch, {}))
    .Then(CheckItems(batch.attempts, CheckAttempt, AttemptId, DuplicateAttemptInBatch, {}))
    .Then(Need(batch.checkpoint.Some? ==>
                 ValidText(batch.checkpoint.value.reducer) && ValidText(batch.checkpoint.value.stateHash), InvalidText))
    .Then(Need(batch.dedup.Some? ==> ValidText(batch.dedup.value.keyType), InvalidText))
    .Then(CheckItems(batch.outbox, CheckEntry, EntryId, DuplicateOutboxInBatch, {}))
    .Then(CheckItems(batch.artifacts, CheckReference, TokenId, DuplicateArtifactTokenInBatch, {}))
  }

  // ------------------------------------------------------------- inserted rows

  function EventIds(events: seq<Event>): seq<Id> {
    seq(|events|, i requires 0 <= i < |events| => events[i].id)
  }

  function EventRows(key: StreamKey, head: nat, events: seq<Event>): seq<EventRow> {
    seq(|events|, i requires 0 <= i < |events| => EventRow(key, head + i + 1, events[i]))
  }

  predicate SameSequence(a: EventRow, b: EventRow) {
    a.stream == b.stream && a.sequence == b.sequence
  }

  function AttemptIds(attempts: seq<Attempt>): seq<Id> {
    seq(|attempts|, i requires 0 <= i < |attempts| => attempts[i].id)
  }

  function AttemptRows(key: StreamKey, attempts: seq<Attempt>): seq<AttemptRow> {
    seq(|attempts|, i requires 0 <= i < |attempts| => AttemptRow(key, attempts[i]))
  }

  predicate SameAttempt(a: AttemptRow, b: AttemptRow) {
    a.stream == b.stream && a.attempt.operation == b.attempt.operation && a.attempt.ordinal == b.attempt.ordinal
  }

  function OutboxIds(outbox: seq<OutboxEntry>): seq<Id> {
    seq(|outbox|, i requires 0 <= i < |outbox| => outbox[i].id)
  }

  function Cursors(last: nat, count: nat): seq<nat> {
    seq(count, i requires 0 <= i < count => last + i + 1)
  }

  function OutboxRows(key: StreamKey, head: nat, last: nat, outbox: seq<OutboxEntry>): seq<OutboxRow> {
    seq(|outbox|, i requires 0 <= i < |outbox| =>
      OutboxRow(key, head, last + i + 1, outbox[i], OfText(outbox[i].payload.text), false))
  }

  predicate SameCursor(a: OutboxRow, b: OutboxRow) {
    a.cursor == b.cursor
  }

  ghost predicate IsMaxCursor(outbox: map<Id, OutboxRow>, m: nat) {
    && (forall id :: id in outbox ==> outbox[id].cursor <= m)
    && (m == 0 || exists id :: id in outbox && outbox[id].cursor == m)
  }

  lemma {:induction false} MaxCursorExists(outbox: map<Id, OutboxRow>)
    ensures exists m: nat :: IsMaxCursor(outbox, m)
    decreases |outbox|
  {
    if outbox == map[] {
      assert IsMaxCursor(outbox, 0);
    } else {
      var id :| id in outbox;
      var rest := outbox - {id};
      assert |rest| < |outbox|;
      MaxCursorExists(rest);
      var m: nat :| IsMaxCursor(rest, m);
      var n := if outbox[id].cursor > m then outbox[id].cursor else m;
      forall k | k in outbox ensures outbox[k].cursor <= n {
        assert k == id || (k in rest && rest[k] == outbox[k]);
      }
      if n == m && m != 0 {
        var k :| k in rest && rest[k].cursor == m;
        assert k in outbox && outbox[k].cursor == n;
      }
      assert IsMaxCursor(outbox, n);
    }
  }

  /** `SELECT COALESCE(MAX(delivery_cursor), 0)`. */
  ghost function MaxCursor(outbox: map<Id, OutboxRow>): (m: nat)
    ensures IsMaxCursor(outbox, m)
  {
    MaxCursorExists(outbox);
    var m: nat :| IsMaxCursor(outbox, m);
    m
  }

  // ----------------------------------------------------- artifact finalization

  predicate ObjectIntact(objects: Objects, hash: ContentHash, size: nat) {
    hash in objects && OfBytes(objects[hash].bytes) == hash && |objects[hash].bytes| == size
  }

  /** One turn of the loop in `finalize_artifacts`. */
  function FinalizeOne(staging: Staging, objects: Objects, events: seq<Id>, ref: ArtifactRef): (r: Result<Staging>) {
    var committed := ref.origin in events;
    :- Need(committed, ArtifactOriginOutsideCommit);
    :- Need(ref.token in staging.prepared, UnknownArtifactToken);
    var row := staging.prepared[ref.token];
    :- Need(row.artifact == ref.artifact && row.hash == ref.hash && row.size == ref.size
            && row.generation == ref.generation, ArtifactTokenMismatch);
    :- Need(row.finalized.Some? ==> row.finalized.value == ref.origin, ArtifactTokenAlreadyFinalized);
    :- Need(ObjectIntact(objects, row.hash, ref.size), CorruptArtifact);
    :- Need(row.artifact in staging.artifacts ==>
              var known := staging.artifacts[row.artifact];
              known.hash == row.hash && known.size == ref.size && known.mediaType == row.mediaType
              && known.name == row.name, ArtifactIdentityConflict);
    var artifacts :=
      if row.artifact in staging.artifacts then staging.artifacts
      else staging.artifacts[row.artifact := ArtifactRow(row.hash, ref.size, row.mediaType, row.name, ref.generation, false)];
    Ok(Staging(staging.prepared[ref.token := row.(finalized := Some(ref.origin))], artifacts,
               staging.references + {(ref.artifact, ref.origin)}))
  }

  function FinalizeAll(staging: Staging, objects: Objects, events: seq<Id>, refs: seq<ArtifactRef>): (r: Result<Staging>)
    decreases |refs|
  {
    if refs == [] then Ok(staging)
    else
      var next :- FinalizeOne(staging, objects, events, refs[0]);
      FinalizeAll(next, objects, events, refs[1..])
  }

  // --------------------------------------------------------------- transaction

  function HeadOf(db: Db, key: StreamKey): nat {
    if key in db.streams then db.streams[key].head else 0
  }

  function AggregateOf(db: Db, key: StreamKey): nat {
    if key in db.streams then db.streams[key].aggregate else 0
  }

  function ReceiptFor(batch: Batch, aggregate: nat): Receipt {
    Receipt(NewHead(batch), aggregate, EventIds(batch.events),
            if batch.checkpoint.Some? then Some(batch.checkpoint.value.stateHash) else None,
            OutboxIds(batch.outbox), OfBatch(batch))
  }

  datatype Transaction = Transaction(db: Db, receipt: Receipt, cursors: seq<nat>)

  /** The fences a batch must pass before anything is written. */
  function Fence(db: Db, batch: Batch, enforce: bool): (r: Check)
    ensures r.Pass? ==> HeadOf(db, batch.Key()) == batch.expectedHead
  {
    var key := batch.Key();
    Need(key in db.streams ==> db.streams[key].run == batch.run, BackendBindingMismatch)
    .Then(Need(HeadOf(db, key) == batch.expectedHead, HeadConflict(batch.expectedHead, HeadOf(db, key))))
    .Then(Need(enforce ==> AggregateOf(db, key) == batch.expectedAggregate,
               AggregateVersionConflict(batch.expectedAggregate, AggregateOf(db, key))))
    .Then(Need(NewHead(batch) <= I64_MAX && AggregateOf(db, key) + 1 <= I64_MAX, InvalidStoredData))
  }

  function EventsAfter(db: Db, batch: Batch): Option<map<Id, EventRow>> {
    Inserted(db.events, EventIds(batch.events), EventRows(batch.Key(), batch.expectedHead, batch.events), SameSequence)
  }

  function AttemptsAfter(db: Db, batch: Batch): Option<map<Id, AttemptRow>> {
    Inserted(db.attempts, AttemptIds(batch.attempts), AttemptRows(batch.Key(), batch.attempts), SameAttempt)
  }

  function NewHead(batch: Batch): nat {
    batch.expectedHead + |batch.events|
  }

  function OutboxAfter(db: Db, batch: Batch, last: nat): Option<map<Id, OutboxRow>> {
    Inserted(db.outbox, OutboxIds(batch.outbox), OutboxRows(batch.Key(), NewHead(batch), last, batch.outbox), SameCursor)
  }

  /** How many of the batch's outbox rows still get a cursor that fits an i64. */
  function OutboxRoom(batch: Batch, last: nat): (n: nat)
    ensures n <= |batch.outbox|
  {
    if last + |batch.outbox| <= I64_MAX then |batch.outbox| else if last <= I64_MAX then I64_MAX - last else 0
  }

  /** The rows before the first cursor that does not fit are inserted first. */
  function FittingOutbox(db: Db, batch: Batch, last: nat): Option<map<Id, OutboxRow>> {
    var room := OutboxRoom(batch, last);
    Inserted(db.outbox, OutboxIds(batch.outbox)[..room],
             OutboxRows(batch.Key(), NewHead(batch), last, batch.outbox)[..room], SameCursor)
  }

  function CheckpointsAfter(db: Db, batch: Batch): map<CheckpointKey, Checkpoint> {
    if batch.checkpoint.Some? then db.checkpoints[CheckpointKey(batch.Key(), NewHead(batch)) := batch.checkpoint.value]
    else db.checkpoints
  }

  function DedupAfter(db: Db, batch: Batch, receipt: Receipt): map<DedupKey, DedupRow> {
    if batch.dedup.Some? then db.dedup[batch.dedup.value := DedupRow(OfBatch(batch), batch.Key(), receipt)] else db.dedup
  }

  /** Everything one new commit writes, or the reason it writes nothing. `last` is
      the greatest delivery cursor in the outbox. */
  function Transact(db: Db, objects: Objects, batch: Batch, enforce: bool, last: nat): (r: Result<Transaction>) {
    var fence := Fence(db, batch, enforce);
    :- fence;
    var events :- Stored(EventsAfter(db, batch));
    var attempts :- Stored(AttemptsAfter(db, batch));
    :- Need(batch.checkpoint.Some? ==> CheckpointKey(batch.Key(), NewHead(batch)) !in db.checkpoints, Sql);
    :- Need(FittingOutbox(db, batch, last).Some?, Sql);
    :- Need(OutboxRoom(batch, last) == |batch.outbox|, InvalidStoredData);
    var outbox :- Stored(OutboxAfter(db, batch, last));
    var staging :- FinalizeAll(db.staging, objects, EventIds(batch.events), batch.artifacts);
    var aggregate := AggregateOf(db, batch.Key()) + 1;
    var receipt := ReceiptFor(batch, aggregate);
    Ok(Transaction(
      Db(db.streams[batch.Key() := Stream(batch.run, NewHead(batch), aggregate)], events, attempts,
         CheckpointsAfter(db, batch), DedupAfter(db, batch, receipt), outbox, staging, db.quarantined),
      receipt, Cursors(last, |batch.outbox|)))
  }

  datatype Commit = Commit(db: Db, outcome: CommitOutcome)

  /** `commit_inner`, when the transaction's own commit does not fail. */
  ghost function Committing(db: Db, objects: Objects, batch: Batch, enforce: bool): (r: Result<Commit>) {
    var validated := Validate(batch);
    :- validated;
    :- Need(!db.quarantined, StoreQuarantined);
    if batch.dedup.Some? && batch.dedup.value in db.dedup then
      var known := db.dedup[batch.dedup.value];
      :- Need(known.request == OfBatch(batch) && known.stream == batch.Key(), DeduplicationKeyReused);
      Ok(Commit(db, Existing(known.receipt)))
    else
      var transaction :- Transact(db, objects, batch, enforce, MaxCursor(db.outbox));
      Ok(Commit(transaction.db, Committed(transaction.receipt)))
  }

  // ---------------------------------------------- acknowledging and maintenance

  /** `mark_outbox_delivered_v1`: fenced by the cursor the consumer saw. */
  function Acknowledged(db: Db, id: Id, cursor: nat): (r: Result<Db>) {
    if db.quarantined then Err(StoreQuarantined)
    else if id !in db.outbox then Err(UnknownOutbox)
    else if db.outbox[id].cursor != cursor then Err(OutboxCursorConflict(cursor, db.outbox[id].cursor))
    else Ok(db.(outbox := db.outbox[id := db.outbox[id].(delivered := true)]))
  }

  /** `mark_outbox_delivered`: the compatibility form without a cursor. */
  function AcknowledgedAny(db: Db, id: Id): (r: Result<Db>) {
    if db.quarantined then Err(StoreQuarantined)
    else if id !in db.outbox then Err(UnknownOutbox)
    else Ok(db.(outbox := db.outbox[id := db.outbox[id].(delivered := true)]))
  }

  /** `purge_delivered_outbox`: delivered rows at or below the cutoff go. */
  ghost function Purged(db: Db, keep: nat): (r: Db) {
    var cutoff := MaxCursor(db.outbox) - keep;
    if cutoff <= 0 then db
    else db.(outbox := map id | id in db.outbox && !(db.outbox[id].delivered && db.outbox[id].cursor <= cutoff) :: db.outbox[id])
  }

  /** `delete_stream`: every row of one chat, in each table that names it. The
      deduplication rows and the artifact tables stay. */
  function StreamDeleted(db: Db, chat: Id): (r: Db) {
    db.(events := map id | id in db.events && db.events[id].stream.chat != chat :: db.events[id],
        attempts := map id | id in db.attempts && db.attempts[id].stream.chat != chat :: db.attempts[id],
        checkpoints := map c | c in db.checkpoints && c.stream.chat != chat :: db.checkpoints[c],
        outbox := map id | id in db.outbox && db.outbox[id].stream.chat != chat :: db.outbox[id],
        streams := map k | k in db.streams && k.chat != chat :: db.streams[k])
  }

  datatype PayloadUpdate = PayloadUpdate(id: Id, payload: Payload)

  /** `prune_payloads`: each update rewrites the payload of the event it names, if any. */
  function Pruned(events: map<Id, EventRow>, updates: seq<PayloadUpdate>): (r: map<Id, EventRow>)
    decreases |updates|
  {
    if updates == [] then events
    else Pruned(PrunedOne(events, updates[0]), updates[1..])
  }

  function PrunedOne(events: map<Id, EventRow>, update: PayloadUpdate): (r: map<Id, EventRow>) {
    if update.id !in events then events
    else
      var row := events[update.id];
      events[update.id := row.(event := row.event.(payload := update.payload))]
  }
}
