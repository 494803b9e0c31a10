/** Exactly when a commit writes its batch, and which conflict it reports otherwise. */
module CommitConditions {
  import opened Base
  import opened Tables
  import opened Ledger
  import opened LedgerValidation
  import opened LedgerInvariant

  // ---------------------------------------------------------------------- new rows

  ghost predicate NewEvents(db: Db, batch: Batch) {
    forall e :: e in batch.events ==> e.id !in db.events
  }

  ghost predicate NewEntries(db: Db, batch: Batch) {
    forall o :: o in batch.outbox ==> o.id !in db.outbox
  }

  /** One attempt per operation and ordinal of a stream. */
  ghost predicate NewAttempts(db: Db, batch: Batch) {
    && (forall a :: a in batch.attempts ==> a.id !in db.attempts)
    && (forall a, id :: a in batch.attempts && id in db.attempts && db.attempts[id].stream == batch.Key() ==>
          db.attempts[id].attempt.operation != a.operation || db.attempts[id].attempt.ordinal != a.ordinal)
    && (forall i, j :: 0 <= i < j < |batch.attempts| ==>
          batch.attempts[i].operation != batch.attempts[j].operation || batch.attempts[i].ordinal != batch.attempts[j].ordinal)
  }

  /** Where no two rows can clash, only used keys are refused. */
  lemma OnlyKeysRefused<V>(table: map<Id, V>, keys: seq<Id>, rows: seq<V>, clash: (V, V) -> bool)
    requires |keys| == |rows|
    requires forall k, i :: k in table && 0 <= i < |rows| ==> !clash(table[k], rows[i])
    requires forall i, j :: 0 <= i < j < |rows| ==> keys[i] != keys[j] && !clash(rows[i], rows[j])
    ensures Inserted(table, keys, rows, clash).Some? <==> forall i :: 0 <= i < |keys| ==> keys[i] !in table
  {
    InsertedExactly(table, keys, rows, clash);
  }

  /** Behind the head of a stream no sequence number is taken, so only ids can clash. */
  lemma EventsFit(db: Db, batch: Batch)
    requires Valid(db) && HeadOf(db, batch.Key()) == batch.expectedHead && SoundEvents(batch.events)
    ensures EventsAfter(db, batch).Some? <==> NewEvents(db, batch)
  {
    var ids, rows := EventIds(batch.events), EventRows(batch.Key(), batch.expectedHead, batch.events);
    OnlyKeysRefused(db.events, ids, rows, SameSequence);
    if forall i :: 0 <= i < |ids| ==> ids[i] !in db.events {
      forall e | e in batch.events ensures e.id !in db.events {
        var i :| 0 <= i < |batch.events| && batch.events[i] == e;
        assert ids[i] == e.id;
      }
    }
  }

  lemma AttemptRefused(db: Db, batch: Batch, i: nat)
    requires i < |batch.attempts|
    ensures var a := batch.attempts[i];
            Refused(db.attempts, a.id, AttemptRow(batch.Key(), a), SameAttempt)
            <==> a.id in db.attempts
                 || exists id :: id in db.attempts && db.attempts[id].stream == batch.Key()
                       && db.attempts[id].attempt.operation == a.operation && db.attempts[id].attempt.ordinal == a.ordinal
  {
  }

  lemma AttemptsFit(db: Db, batch: Batch)
    requires SoundAttempts(batch.attempts)
    ensures AttemptsAfter(db, batch).Some? <==> NewAttempts(db, batch)
  {
    var ids, rows := AttemptIds(batch.attempts), AttemptRows(batch.Key(), batch.attempts);
    InsertedExactly(db.attempts, ids, rows, SameAttempt);
    if NewAttempts(db, batch) {
      forall i | 0 <= i < |ids| ensures !Refused(db.attempts, ids[i], rows[i], SameAttempt) {
        AttemptRefused(db, batch, i);
      }
      assert Insertable(db.attempts, ids, rows, SameAttempt);
    }
    if Insertable(db.attempts, ids, rows, SameAttempt) {
      InsertableNewAttempts(db, batch, ids, rows);
    }
  }

  lemma InsertableNewAttempts(db: Db, batch: Batch, ids: seq<Id>, rows: seq<AttemptRow>)
    requires ids == AttemptIds(batch.attempts) && rows == AttemptRows(batch.Key(), batch.attempts)
    requires Insertable(db.attempts, ids, rows, SameAttempt)
    ensures NewAttempts(db, batch)
  {
    forall a | a in batch.attempts
      ensures a.id !in db.attempts
      ensures forall id :: id in db.attempts && db.attempts[id].stream == batch.Key() ==>
                db.attempts[id].attempt.operation != a.operation || db.attempts[id].attempt.ordinal != a.ordinal
    {
      var i :| 0 <= i < |batch.attempts| && batch.attempts[i] == a;
      assert !Refused(db.attempts, ids[i], rows[i], SameAttempt);
      AttemptRefused(db, batch, i);
    }
    forall i, j | 0 <= i < j < |batch.attempts|
      ensures batch.attempts[i].operation != batch.attempts[j].operation || batch.attempts[i].ordinal != batch.attempts[j].ordinal
    {
      assert !SameAttempt(rows[i], rows[j]);
    }
  }

  /** Above the greatest cursor none is taken, so only ids can clash. */
  lemma OutboxFits(db: Db, batch: Batch, last: nat)
    requires IsMaxCursor(db.outbox, last) && SoundOutbox(batch.outbox)
    ensures OutboxAfter(db, batch, last).Some? <==> NewEntries(db, batch)
  {
    var ids, rows := OutboxIds(batch.outbox), OutboxRows(batch.Key(), NewHead(batch), last, batch.outbox);
    OnlyKeysRefused(db.outbox, ids, rows, SameCursor);
    if forall i :: 0 <= i < |ids| ==> ids[i] !in db.outbox {
      forall o | o in batch.outbox ensures o.id !in db.outbox {
        var i :| 0 <= i < |batch.outbox| && batch.outbox[i] == o;
        assert ids[i] == o.id;
      }
    }
  }

  // ---------------------------------------------------------------- the whole commit

  /** The stream is bound to the batch's run and stands where the batch expects it. */
  ghost predicate Expects(db: Db, batch: Batch, enforce: bool) {
    && (batch.Key() in db.streams ==> db.streams[batch.Key()].run == batch.run)
    && HeadOf(db, batch.Key()) == batch.expectedHead
    && (enforce ==> AggregateOf(db, batch.Key()) == batch.expectedAggregate)
  }

  /** Nothing outgrows 63 bits. */
  ghost predicate InRange(db: Db, batch: Batch) {
    && batch.expectedHead + |batch.events| <= I64_MAX && AggregateOf(db, batch.Key()) + 1 <= I64_MAX
    && (batch.outbox != [] ==> MaxCursor(db.outbox) + |batch.outbox| <= I64_MAX)
  }

  ghost predicate Commits(db: Db, objects: Objects, batch: Batch, enforce: bool) {
    var r := Committing(db, objects, batch, enforce);
    r.Ok? && r.value.outcome.Committed?
  }

  lemma FencesExactly(db: Db, batch: Batch, enforce: bool)
    ensures Fence(db, batch, enforce).Pass? <==>
              Expects(db, batch, enforce) && NewHead(batch) <= I64_MAX && AggregateOf(db, batch.Key()) + 1 <= I64_MAX
  {
  }

  /** Past its fences a transaction fails only where a row does not fit. */
  lemma TransactsWhen(db: Db, objects: Objects, batch: Batch, enforce: bool, last: nat)
    ensures Transact(db, objects, batch, enforce, last).Ok? <==>
              && Fence(db, batch, enforce).Pass? && EventsAfter(db, batch).Some? && AttemptsAfter(db, batch).Some?
              && (batch.checkpoint.Some? ==> CheckpointKey(batch.Key(), NewHead(batch)) !in db.checkpoints)
              && FittingOutbox(db, batch, last).Some? && OutboxRoom(batch, last) == |batch.outbox|
              && OutboxAfter(db, batch, last).Some?
              && FinalizeAll(db.staging, objects, EventIds(batch.events), batch.artifacts).Ok?
  {
  }

  lemma OutboxFitsExactly(db: Db, batch: Batch, last: nat)
    requires IsMaxCursor(db.outbox, last) && SoundOutbox(batch.outbox)
    ensures FittingOutbox(db, batch, last).Some? && OutboxRoom(batch, last) == |batch.outbox|
              && OutboxAfter(db, batch, last).Some?
       <==> (batch.outbox == [] || last + |batch.outbox| <= I64_MAX) && NewEntries(db, batch)
  {
    OutboxFits(db, batch, last);
    RoomExactly(batch, last);
    if OutboxRoom(batch, last) == |batch.outbox| {
      AllRowsFit(db, batch, last);
    }
  }

  lemma TransactsExactly(db: Db, objects: Objects, batch: Batch, enforce: bool)
    requires Valid(db) && SoundBatch(batch)
    ensures Transact(db, objects, batch, enforce, MaxCursor(db.outbox)).Ok? <==>
              && Expects(db, batch, enforce) && InRange(db, batch)
              && NewEvents(db, batch) && NewAttempts(db, batch) && NewEntries(db, batch)
              && FinalizeAll(db.staging, objects, EventIds(batch.events), batch.artifacts).Ok?
  {
    var last := MaxCursor(db.outbox);
    TransactsWhen(db, objects, batch, enforce, last);
    FencesExactly(db, batch, enforce);
    AttemptsFit(db, batch);
    OutboxFitsExactly(db, batch, last);
    if Expects(db, batch, enforce) {
      EventsFit(db, batch);
      NoCheckpointThere(db, batch);
    }
  }

  lemma RoomExactly(batch: Batch, last: nat)
    ensures OutboxRoom(batch, last) == |batch.outbox| <==> batch.outbox == [] || last + |batch.outbox| <= I64_MAX
  {
  }

  lemma NoCheckpointThere(db: Db, batch: Batch)
    requires CheckpointsBehind(db.streams, db.checkpoints) && HeadOf(db, batch.Key()) == batch.expectedHead && batch.events != []
    ensures CheckpointKey(batch.Key(), NewHead(batch)) !in db.checkpoints
  {
  }

  /** In every reachable store a commit writes its batch exactly when the batch is sound, the
      store is not quarantined, its key is unused, its stream stands where it expects, no
      number outgrows its range, every id is new, and its artifacts can be finalized. */
  lemma CommitsExactly(db: Db, objects: Objects, batch: Batch, enforce: bool)
    requires Valid(db)
    ensures Commits(db, objects, batch, enforce) <==>
              && SoundBatch(batch) && !db.quarantined
              && (batch.dedup.Some? ==> batch.dedup.value !in db.dedup)
              && Expects(db, batch, enforce) && InRange(db, batch)
              && NewEvents(db, batch) && NewAttempts(db, batch) && NewEntries(db, batch)
              && FinalizeAll(db.staging, objects, EventIds(batch.events), batch.artifacts).Ok?
  {
    CommitsWhen(db, objects, batch, enforce);
    ValidateExactly(batch);
    if SoundBatch(batch) {
      TransactsExactly(db, objects, batch, enforce);
    }
  }

  lemma CommitsWhen(db: Db, objects: Objects, batch: Batch, enforce: bool)
    ensures Commits(db, objects, batch, enforce) <==>
              && Validate(batch).Pass? && !db.quarantined && (batch.dedup.Some? ==> batch.dedup.value !in db.dedup)
              && Transact(db, objects, batch, enforce, MaxCursor(db.outbox)).Ok?
  {
  }

  /** The conflicts a caller can act on name what was expected and what is there, after a
      wrong run and before everything else. */
  lemma ConflictsExactly(db: Db, objects: Objects, batch: Batch, enforce: bool)
    requires SoundBatch(batch) && !db.quarantined && (batch.dedup.Some? ==> batch.dedup.value !in db.dedup)
    ensures var r, key := Committing(db, objects, batch, enforce), batch.Key();
            var bound := key in db.streams && db.streams[key].run != batch.run;
            && (bound ==> r == Err(BackendBindingMismatch))
            && (!bound && HeadOf(db, key) != batch.expectedHead ==> r == Err(HeadConflict(batch.expectedHead, HeadOf(db, key))))
            && (!bound && HeadOf(db, key) == batch.expectedHead && enforce && AggregateOf(db, key) != batch.expectedAggregate ==>
                  r == Err(AggregateVersionConflict(batch.expectedAggregate, AggregateOf(db, key))))
  {
    ValidateExactly(batch);
  }

  // ------------------------------------------------------------- finalizing artifacts

  /** The token stands for just this content, and no other event has claimed it. */
  ghost predicate Claimable(staging: Staging, ref: ArtifactRef) {
    && ref.token in staging.prepared
    && var row := staging.prepared[ref.token];
       && row.artifact == ref.artifact && row.hash == ref.hash && row.size == ref.size && row.generation == ref.generation
       && (row.finalized == None || row.finalized == Some(ref.origin))
       && (ref.artifact in staging.artifacts ==>
             var known := staging.artifacts[ref.artifact];
             known.hash == row.hash && known.size == row.size && known.mediaType == row.mediaType && known.name == row.name)
  }

  /** One artifact is finalized exactly when its event is in the commit, its token can be
      claimed and its object is intact; then the token is claimed, the artifact is known as it
      was staged, the reference is stored, and nothing else changes. */
  lemma FinalizesExactly(staging: Staging, objects: Objects, events: seq<Id>, ref: ArtifactRef)
    ensures FinalizeOne(staging, objects, events, ref).Ok? <==>
              ref.origin in events && Claimable(staging, ref) && ObjectIntact(objects, ref.hash, ref.size)
    ensures FinalizeOne(staging, objects, events, ref).Ok? ==>
              var row, after := staging.prepared[ref.token], FinalizeOne(staging, objects, events, ref).value;
              && after.prepared == staging.prepared[ref.token := row.(finalized := Some(ref.origin))]
              && after.references == staging.references + {(ref.artifact, ref.origin)}
              && after.artifacts.Keys == staging.artifacts.Keys + {ref.artifact}
              && (forall a :: a in staging.artifacts ==> after.artifacts[a] == staging.artifacts[a])
              && (ref.artifact !in staging.artifacts ==>
                    after.artifacts[ref.artifact]
                    == ArtifactRow(ref.hash, ref.size, row.mediaType, row.name, ref.generation, false))
  {
  }
}
