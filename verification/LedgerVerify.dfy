/** Deciding after an uncertain commit whether it became durable
    (`verify_durable_commit`). */
module LedgerVerify {
  import opened Base
  import opened Tables
  import opened Ledger
  import opened LedgerInvariant

  datatype Verification = Exact | Absent | Partial

  // ------------------------------------------------------------ the comparisons

  /** `count_present_ids`. */
  function CountPresent<V>(ids: seq<Id>, table: map<Id, V>): (n: nat)
    ensures n <= |ids|
  {
    if ids == [] then 0 else (if ids[0] in table then 1 else 0) + CountPresent(ids[1..], table)
  }

  lemma {:induction false} CountsNone<V>(ids: seq<Id>, table: map<Id, V>)
    ensures CountPresent(ids, table) == 0 <==> forall i :: 0 <= i < |ids| ==> ids[i] !in table
  {
    if ids != [] {
      CountsNone(ids[1..], table);
      assert forall i :: 0 < i < |ids| ==> ids[i] == ids[1..][i - 1];
      assert forall i :: 0 <= i < |ids[1..]| ==> ids[1..][i] == ids[i + 1];
    }
  }

  lemma {:induction false} CountsAll<V>(ids: seq<Id>, table: map<Id, V>)
    ensures CountPresent(ids, table) == |ids| <==> forall i :: 0 <= i < |ids| ==> ids[i] in table
  {
    if ids != [] {
      CountsAll(ids[1..], table);
      assert forall i :: 0 < i < |ids| ==> ids[i] == ids[1..][i - 1];
      assert forall i :: 0 <= i < |ids[1..]| ==> ids[1..][i] == ids[i + 1];
    }
  }

  /** `load_outbox_cursors`: nothing at all if one row is missing. */
  function LoadCursors(outbox: map<Id, OutboxRow>, ids: seq<Id>): seq<nat> {
    if forall i | 0 <= i < |ids| :: ids[i] in outbox
    then seq(|ids|, i requires 0 <= i < |ids| && ids[i] in outbox => outbox[ids[i]].cursor)
    else []
  }

  predicate EventsMatch(db: Db, batch: Batch) {
    forall i | 0 <= i < |batch.events| ::
      && batch.events[i].id in db.events
      && db.events[batch.events[i].id] == EventRow(batch.Key(), batch.expectedHead + i + 1, batch.events[i])
  }

  predicate AttemptsMatch(db: Db, batch: Batch) {
    forall i | 0 <= i < |batch.attempts| ::
      && batch.attempts[i].id in db.attempts
      && db.attempts[batch.attempts[i].id] == AttemptRow(batch.Key(), batch.attempts[i])
  }

  predicate CheckpointMatches(db: Db, batch: Batch, head: nat) {
    var at := CheckpointKey(batch.Key(), head);
    if batch.checkpoint.Some? then at in db.checkpoints && db.checkpoints[at] == batch.checkpoint.value
    else at !in db.checkpoints
  }

  /** Every column is compared except `delivered`. */
  predicate OutboxMatch(db: Db, batch: Batch, cursors: seq<nat>) {
    && |batch.outbox| == |cursors|
    && forall i | 0 <= i < |batch.outbox| ::
         && batch.outbox[i].id in db.outbox
         && db.outbox[batch.outbox[i].id].(delivered := false)
            == OutboxRow(batch.Key(), NewHead(batch), cursors[i], batch.outbox[i], OfText(batch.outbox[i].payload.text), false)
  }

  /** The token is finalized for this event, and the artifact and its reference exist. */
  predicate Finalized(staging: Staging, ref: ArtifactRef) {
    && ref.token in staging.prepared
    && var row := staging.prepared[ref.token];
    && row.artifact == ref.artifact && row.hash == ref.hash && row.size == ref.size
    && row.generation == ref.generation && row.finalized == Some(ref.origin)
    && ref.artifact in staging.artifacts
    && staging.artifacts[ref.artifact].hash == ref.hash && staging.artifacts[ref.artifact].size == ref.size
    && (ref.artifact, ref.origin) in staging.references
  }

  predicate ArtifactsMatch(staging: Staging, objects: Objects, batch: Batch) {
    && (forall i | 0 <= i < |batch.artifacts| :: Finalized(staging, batch.artifacts[i]))
    && (forall i | 0 <= i < |batch.artifacts| ::
          ObjectIntact(objects, batch.artifacts[i].hash, batch.artifacts[i].size))
  }

  predicate StreamExact(db: Db, batch: Batch, receipt: Receipt) {
    batch.Key() in db.streams && db.streams[batch.Key()] == Stream(batch.run, receipt.head, receipt.aggregate)
  }

  predicate DedupPresent(db: Db, batch: Batch) {
    batch.dedup.Some? && batch.dedup.value in db.dedup
  }

  predicate DedupExact(db: Db, batch: Batch, receipt: Receipt) {
    batch.dedup.Some? ==>
      batch.dedup.value in db.dedup && db.dedup[batch.dedup.value] == DedupRow(OfBatch(batch), batch.Key(), receipt)
  }

  predicate NoEvidence(db: Db, batch: Batch, receipt: Receipt) {
    && (batch.Key() in db.streams ==>
          && db.streams[batch.Key()].head == batch.expectedHead
          && db.streams[batch.Key()].aggregate == batch.expectedAggregate)
    && CountPresent(receipt.eventIds, db.events) == 0
    && CountPresent(receipt.outboxIds, db.outbox) == 0
    && !DedupPresent(db, batch)
  }

  predicate RowsExact(db: Db, batch: Batch, receipt: Receipt, cursors: seq<nat>) {
    && CountPresent(receipt.eventIds, db.events) == |receipt.eventIds|
    && CountPresent(receipt.outboxIds, db.outbox) == |receipt.outboxIds|
    && LoadCursors(db.outbox, receipt.outboxIds) == cursors
    && EventsMatch(db, batch) && AttemptsMatch(db, batch)
    && CheckpointMatches(db, batch, receipt.head)
    && OutboxMatch(db, batch, cursors)
  }

  /** `verify_durable_commit`. */
  function Verify(db: Db, objects: Objects, batch: Batch, receipt: Receipt, cursors: seq<nat>): (v: Verification) {
    if DedupPresent(db, batch) && !DedupExact(db, batch, receipt) then Partial
    else if NoEvidence(db, batch, receipt) then Absent
    else if
      && DedupExact(db, batch, receipt)
      && StreamExact(db, batch, receipt)
      && RowsExact(db, batch, receipt, cursors)
      && ArtifactsMatch(db.staging, objects, batch)
    then Exact
    else Partial
  }

  // -------------------------------------------------------- before: it is absent

  /** The batch expected the aggregate version its stream has. */
  predicate AggregateExpected(db: Db, batch: Batch) {
    batch.Key() in db.streams ==> db.streams[batch.Key()].aggregate == batch.expectedAggregate
  }

  /** On the tables a commit started from, the answer is `Absent` exactly when the
      batch expected the aggregate version the stream had, and `Partial` otherwise. */
  lemma BeforeCommit(db: Db, objects: Objects, batch: Batch, enforce: bool, t: Transaction)
    requires Applied(db, objects, batch, enforce, t)
    ensures Verify(db, objects, batch, t.receipt, t.cursors) == if AggregateExpected(db, batch) then Absent else Partial
    ensures enforce ==> AggregateExpected(db, batch)
  {
    EventsExtended(db, batch);
    OutboxExtended(db, batch, MaxCursor(db.outbox));
    CountsNone(t.receipt.eventIds, db.events);
    CountsNone(t.receipt.outboxIds, db.outbox);
  }

  /** A fenced commit always gets `Absent` there. */
  lemma AbsentBefore(db: Db, objects: Objects, batch: Batch, t: Transaction)
    requires Applied(db, objects, batch, true, t)
    ensures Verify(db, objects, batch, t.receipt, t.cursors) == Absent
  {
    BeforeCommit(db, objects, batch, true, t);
  }

  // ---------------------------------------------------------- after: it is exact

  lemma FinalizeOneFinalizes(staging: Staging, objects: Objects, events: seq<Id>, ref: ArtifactRef)
    requires FinalizeOne(staging, objects, events, ref).Ok?
    ensures Finalized(FinalizeOne(staging, objects, events, ref).value, ref)
    ensures ObjectIntact(objects, ref.hash, ref.size)
  {
  }

  lemma FinalizeOneKeeps(staging: Staging, objects: Objects, events: seq<Id>, ref: ArtifactRef, other: ArtifactRef)
    requires FinalizeOne(staging, objects, events, ref).Ok?
    requires Finalized(staging, other) && other.token != ref.token
    ensures Finalized(FinalizeOne(staging, objects, events, ref).value, other)
  {
  }

  lemma {:induction false} FinalizeAllKeeps(staging: Staging, objects: Objects, events: seq<Id>, refs: seq<ArtifactRef>,
                                            other: ArtifactRef)
    requires FinalizeAll(staging, objects, events, refs).Ok?
    requires Finalized(staging, other) && forall i :: 0 <= i < |refs| ==> refs[i].token != other.token
    ensures Finalized(FinalizeAll(staging, objects, events, refs).value, other)
    decreases |refs|
  {
    if refs != [] {
      FinalizeOneKeeps(staging, objects, events, refs[0], other);
      FinalizeAllKeeps(FinalizeOne(staging, objects, events, refs[0]).value, objects, events, refs[1..], other);
    }
  }

  lemma {:induction false} FinalizeAllFinalizes(staging: Staging, objects: Objects, events: seq<Id>, refs: seq<ArtifactRef>, i: nat)
    requires FinalizeAll(staging, objects, events, refs).Ok? && DistinctTokens(refs) && i < |refs|
    ensures Finalized(FinalizeAll(staging, objects, events, refs).value, refs[i])
    ensures ObjectIntact(objects, refs[i].hash, refs[i].size)
    decreases |refs|
  {
    var next := FinalizeOne(staging, objects, events, refs[0]).value;
    if i == 0 {
      FinalizeOneFinalizes(staging, objects, events, refs[0]);
      FinalizeAllKeeps(next, objects, events, refs[1..], refs[0]);
    } else {
      assert DistinctTokens(refs[1..]) by {
        forall j, k | 0 <= j < k < |refs[1..]| ensures refs[1..][j].token != refs[1..][k].token {
          assert refs[1..][j] == refs[j + 1] && refs[1..][k] == refs[k + 1];
        }
      }
      FinalizeAllFinalizes(next, objects, events, refs[1..], i - 1);
    }
  }

  lemma RowsAfter(db: Db, objects: Objects, batch: Batch, enforce: bool, t: Transaction)
    requires Applied(db, objects, batch, enforce, t) && CheckpointsBehind(db.streams, db.checkpoints)
    ensures RowsExact(t.db, batch, t.receipt, t.cursors)
  {
    EventRowsAfter(db, batch, t.db.events, t.receipt);
    AttemptRowsAfter(db, batch, t.db.attempts);
    OutboxRowsAfter(db, batch, t.db.outbox, t.receipt);
    NoCheckpointAhead(db, batch);
  }

  lemma EventRowsAfter(db: Db, batch: Batch, events: map<Id, EventRow>, receipt: Receipt)
    requires EventsAfter(db, batch) == Some(events) && receipt.eventIds == EventIds(batch.events)
    ensures CountPresent(receipt.eventIds, events) == |receipt.eventIds|
    ensures forall i :: 0 <= i < |batch.events| ==>
              && batch.events[i].id in events
              && events[batch.events[i].id] == EventRow(batch.Key(), batch.expectedHead + i + 1, batch.events[i])
  {
    EventsExtended(db, batch);
    CountsAll(receipt.eventIds, events);
    forall i | 0 <= i < |batch.events|
      ensures batch.events[i].id in events
      ensures events[batch.events[i].id] == EventRow(batch.Key(), batch.expectedHead + i + 1, batch.events[i])
    {
      assert EventIds(batch.events)[i] == batch.events[i].id;
    }
  }

  lemma AttemptRowsAfter(db: Db, batch: Batch, attempts: map<Id, AttemptRow>)
    requires AttemptsAfter(db, batch) == Some(attempts)
    ensures forall i :: 0 <= i < |batch.attempts| ==>
              batch.attempts[i].id in attempts && attempts[batch.attempts[i].id] == AttemptRow(batch.Key(), batch.attempts[i])
  {
    AttemptsExtended(db, batch);
    forall i | 0 <= i < |batch.attempts|
      ensures batch.attempts[i].id in attempts && attempts[batch.attempts[i].id] == AttemptRow(batch.Key(), batch.attempts[i])
    {
      assert AttemptIds(batch.attempts)[i] == batch.attempts[i].id;
    }
  }

  lemma OutboxRowsAfter(db: Db, batch: Batch, outbox: map<Id, OutboxRow>, receipt: Receipt)
    requires var last := MaxCursor(db.outbox); OutboxAfter(db, batch, last) == Some(outbox)
    requires receipt.outboxIds == OutboxIds(batch.outbox)
    ensures var cursors := Cursors(MaxCursor(db.outbox), |batch.outbox|);
            && CountPresent(receipt.outboxIds, outbox) == |receipt.outboxIds|
            && LoadCursors(outbox, receipt.outboxIds) == cursors
            && forall i :: 0 <= i < |batch.outbox| ==>
                 && batch.outbox[i].id in outbox
                 && outbox[batch.outbox[i].id] ==
                    OutboxRow(batch.Key(), NewHead(batch), cursors[i], batch.outbox[i], OfText(batch.outbox[i].payload.text), false)
  {
    var last := MaxCursor(db.outbox);
    OutboxExtended(db, batch, last);
    CountsAll(receipt.outboxIds, outbox);
    forall i | 0 <= i < |batch.outbox|
      ensures batch.outbox[i].id in outbox
      ensures outbox[batch.outbox[i].id] ==
              OutboxRow(batch.Key(), NewHead(batch), last + i + 1, batch.outbox[i], OfText(batch.outbox[i].payload.text), false)
    {
      assert OutboxIds(batch.outbox)[i] == batch.outbox[i].id;
    }
  }

  lemma ArtifactsAfter(db: Db, objects: Objects, batch: Batch, after: Staging)
    requires FinalizeAll(db.staging, objects, EventIds(batch.events), batch.artifacts) == Ok(after)
    requires DistinctTokens(batch.artifacts)
    ensures ArtifactsMatch(after, objects, batch)
  {
    forall i | 0 <= i < |batch.artifacts|
      ensures Finalized(after, batch.artifacts[i])
      ensures ObjectIntact(objects, batch.artifacts[i].hash, batch.artifacts[i].size)
    {
      FinalizeAllFinalizes(db.staging, objects, EventIds(batch.events), batch.artifacts, i);
    }
  }

  /** On the tables the commit wrote, the answer is `Exact`. */
  lemma ExactAfter(db: Db, objects: Objects, batch: Batch, enforce: bool, t: Transaction)
    requires Valid(db) && Applied(db, objects, batch, enforce, t)
    ensures Verify(t.db, objects, batch, t.receipt, t.cursors) == Exact
  {
    RowsAfter(db, objects, batch, enforce, t);
    ArtifactsAfter(db, objects, batch, t.db.staging);
    assert !NoEvidence(t.db, batch, t.receipt);
  }

  lemma NoCheckpointAhead(db: Db, batch: Batch)
    requires CheckpointsBehind(db.streams, db.checkpoints) && HeadOf(db, batch.Key()) == batch.expectedHead && batch.events != []
    ensures CheckpointKey(batch.Key(), NewHead(batch)) !in db.checkpoints
  {
  }

  // -------------------------------------------------------- what `Exact` is worth

  /** The whole batch is in the tables, whoever put it there: every event in its place
      of the stream, every entry under its own delivery cursor. */
  ghost predicate Durable(db: Db, objects: Objects, batch: Batch, receipt: Receipt, cursors: seq<nat>) {
    && EventsMatch(db, batch)
    && (forall a :: a in batch.attempts ==> a.id in db.attempts && db.attempts[a.id] == AttemptRow(batch.Key(), a))
    && (batch.checkpoint.Some? ==>
          CheckpointKey(batch.Key(), receipt.head) in db.checkpoints
          && db.checkpoints[CheckpointKey(batch.Key(), receipt.head)] == batch.checkpoint.value)
    && OutboxMatch(db, batch, cursors)
    && (batch.dedup.Some? ==> Remembers(db, batch.dedup.value, DedupRow(OfBatch(batch), batch.Key(), receipt)))
    && (forall a :: a in batch.artifacts ==> Finalized(db.staging, a) && ObjectIntact(objects, a.hash, a.size))
    && StreamExact(db, batch, receipt)
  }

  ghost predicate Remembers(db: Db, key: DedupKey, row: DedupRow) {
    key in db.dedup && db.dedup[key] == row
  }

  /** On any tables at all, `Exact` means that the whole batch is there. */
  lemma ExactMeansDurable(db: Db, objects: Objects, batch: Batch, receipt: Receipt, cursors: seq<nat>)
    requires Verify(db, objects, batch, receipt, cursors) == Exact
    ensures Durable(db, objects, batch, receipt, cursors)
  {
  }

  /** `Absent` means that none of it is there. */
  lemma AbsentMeansNothing(db: Db, objects: Objects, batch: Batch, receipt: Receipt, cursors: seq<nat>)
    requires Verify(db, objects, batch, receipt, cursors) == Absent
    requires receipt.eventIds == EventIds(batch.events) && receipt.outboxIds == OutboxIds(batch.outbox)
    ensures forall e :: e in batch.events ==> e.id !in db.events
    ensures forall o :: o in batch.outbox ==> o.id !in db.outbox
    ensures batch.dedup.Some? ==> batch.dedup.value !in db.dedup
  {
    CountsNone(receipt.eventIds, db.events);
    CountsNone(receipt.outboxIds, db.outbox);
    forall e | e in batch.events ensures e.id !in db.events {
      var i :| 0 <= i < |batch.events| && batch.events[i] == e;
      assert EventIds(batch.events)[i] == e.id;
    }
    forall o | o in batch.outbox ensures o.id !in db.outbox {
      var i :| 0 <= i < |batch.outbox| && batch.outbox[i] == o;
      assert OutboxIds(batch.outbox)[i] == o.id;
    }
  }
}
