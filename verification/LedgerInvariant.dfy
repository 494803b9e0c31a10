/** What every commit, acknowledgement, purge, prune and deletion keeps true of
    the history tables. */
module LedgerInvariant {
  import opened Base
  import opened Tables
  import opened Ledger
  import opened LedgerValidation

  // ------------------------------------------------------- what a commit writes

  /** A new commit took the store from one set of tables to the next. */
  ghost predicate Applied(db: Db, objects: Objects, batch: Batch, enforce: bool, t: Transaction) {
    var key, last := batch.Key(), MaxCursor(db.outbox);
    && HeadOf(db, key) == batch.expectedHead && batch.events != []
    && (key in db.streams ==> db.streams[key].run == batch.run)
    && (enforce ==> AggregateOf(db, key) == batch.expectedAggregate)
    && t.db.streams == db.streams[key := Stream(batch.run, NewHead(batch), AggregateOf(db, key) + 1)]
    && EventsAfter(db, batch) == Some(t.db.events)
    && AttemptsAfter(db, batch) == Some(t.db.attempts)
    && (batch.checkpoint.Some? ==> CheckpointKey(key, NewHead(batch)) !in db.checkpoints)
    && t.db.checkpoints == CheckpointsAfter(db, batch)
    && OutboxAfter(db, batch, last) == Some(t.db.outbox)
    && FinalizeAll(db.staging, objects, EventIds(batch.events), batch.artifacts) == Ok(t.db.staging)
    && t.db.quarantined == db.quarantined
    && (batch.dedup.Some? ==> batch.dedup.value !in db.dedup)
    && t.db.dedup == DedupAfter(db, batch, t.receipt)
    && t.receipt == ReceiptFor(batch, AggregateOf(db, key) + 1)
    && t.cursors == Cursors(last, |batch.outbox|)
    && DistinctTokens(batch.artifacts)
  }

  ghost predicate DistinctTokens(artifacts: seq<ArtifactRef>) {
    forall i, j :: 0 <= i < j < |artifacts| ==> artifacts[i].token != artifacts[j].token
  }

  lemma TransactApplied(db: Db, objects: Objects, batch: Batch, enforce: bool)
    requires Validate(batch).Pass? && (batch.dedup.Some? ==> batch.dedup.value !in db.dedup)
    requires Transact(db, objects, batch, enforce, MaxCursor(db.outbox)).Ok?
    ensures Applied(db, objects, batch, enforce, Transact(db, objects, batch, enforce, MaxCursor(db.outbox)).value)
  {
    ValidTokens(batch);
  }

  /** When every cursor fits, the rows that fit are all of them. */
  lemma AllRowsFit(db: Db, batch: Batch, last: nat)
    requires OutboxRoom(batch, last) == |batch.outbox|
    ensures FittingOutbox(db, batch, last) == OutboxAfter(db, batch, last)
  {
    var ids, rows := OutboxIds(batch.outbox), OutboxRows(batch.Key(), NewHead(batch), last, batch.outbox);
    assert ids[..|ids|] == ids && rows[..|rows|] == rows;
  }

  lemma ValidTokens(batch: Batch)
    requires Validate(batch).Pass?
    ensures DistinctTokens(batch.artifacts)
  {
    ValidateExactly(batch);
  }

  /** A commit either writes a whole transaction or leaves the tables alone. */
  lemma CommittingCases(db: Db, objects: Objects, batch: Batch, enforce: bool)
    ensures match Committing(db, objects, batch, enforce)
            case Err(_) => true
            case Ok(Commit(after, Existing(receipt))) =>
              && after == db && batch.dedup.Some? && batch.dedup.value in db.dedup
              && db.dedup[batch.dedup.value] == DedupRow(OfBatch(batch), batch.Key(), receipt)
            case Ok(Commit(after, Committed(receipt))) =>
              exists t :: Applied(db, objects, batch, enforce, t) && after == t.db && receipt == t.receipt
  {
    var r := Committing(db, objects, batch, enforce);
    if r.Ok? && r.value.outcome.Committed? {
      TransactApplied(db, objects, batch, enforce);
    }
  }

  lemma EventsExtended(db: Db, batch: Batch)
    requires EventsAfter(db, batch).Some?
    ensures Extends(db.events, EventIds(batch.events), EventRows(batch.Key(), batch.expectedHead, batch.events),
                    EventsAfter(db, batch).value)
  {
    InsertedExtends(db.events, EventIds(batch.events), EventRows(batch.Key(), batch.expectedHead, batch.events), SameSequence);
  }

  lemma AttemptsExtended(db: Db, batch: Batch)
    requires AttemptsAfter(db, batch).Some?
    ensures Extends(db.attempts, AttemptIds(batch.attempts), AttemptRows(batch.Key(), batch.attempts),
                    AttemptsAfter(db, batch).value)
  {
    InsertedExtends(db.attempts, AttemptIds(batch.attempts), AttemptRows(batch.Key(), batch.attempts), SameAttempt);
  }

  lemma OutboxExtended(db: Db, batch: Batch, last: nat)
    requires OutboxAfter(db, batch, last).Some?
    ensures Extends(db.outbox, OutboxIds(batch.outbox), OutboxRows(batch.Key(), NewHead(batch), last, batch.outbox),
                    OutboxAfter(db, batch, last).value)
  {
    InsertedExtends(db.outbox, OutboxIds(batch.outbox), OutboxRows(batch.Key(), NewHead(batch), last, batch.outbox), SameCursor);
  }

  // -------------------------------------------------------------- the invariant

  ghost predicate HasEvent(events: map<Id, EventRow>, key: StreamKey, sequence: nat) {
    exists id :: id in events && events[id].stream == key && events[id].sequence == sequence
  }

  /** The events of each stream are numbered exactly 1..head. */
  ghost predicate EventsExact(streams: map<StreamKey, Stream>, events: map<Id, EventRow>) {
    && (forall id :: id in events ==>
          && events[id].event.id == id && events[id].stream in streams
          && 1 <= events[id].sequence <= streams[events[id].stream].head)
    && (forall a, b :: a in events && b in events && SameSequence(events[a], events[b]) ==> a == b)
    && (forall key, n: nat :: key in streams && 1 <= n <= streams[key].head ==> HasEvent(events, key, n))
  }

  ghost predicate AggregatesBounded(streams: map<StreamKey, Stream>) {
    forall key :: key in streams ==> 1 <= streams[key].aggregate <= streams[key].head
  }

  ghost predicate CheckpointsBehind(streams: map<StreamKey, Stream>, checkpoints: map<CheckpointKey, Checkpoint>) {
    forall c :: c in checkpoints ==> c.stream in streams && 1 <= c.sequence <= streams[c.stream].head
  }

  ghost predicate AttemptsLive(streams: map<StreamKey, Stream>, attempts: map<Id, AttemptRow>) {
    forall id :: id in attempts ==> attempts[id].attempt.id == id && attempts[id].stream in streams
  }

  /** Outbox rows belong to live streams and carry distinct positive cursors. */
  ghost predicate OutboxLive(streams: map<StreamKey, Stream>, outbox: map<Id, OutboxRow>) {
    && (forall id :: id in outbox ==>
          && outbox[id].entry.id == id && outbox[id].stream in streams && outbox[id].cursor >= 1
          && outbox[id].commitSequence <= streams[outbox[id].stream].head
          && outbox[id].hash == OfText(outbox[id].entry.payload.text))
    && (forall a, b :: a in outbox && b in outbox && SameCursor(outbox[a], outbox[b]) ==> a == b)
  }

  ghost predicate Valid(db: Db) {
    && EventsExact(db.streams, db.events)
    && AggregatesBounded(db.streams)
    && CheckpointsBehind(db.streams, db.checkpoints)
    && AttemptsLive(db.streams, db.attempts)
    && OutboxLive(db.streams, db.outbox)
  }

  // ------------------------------------------------------------ commit keeps it

  /** A stream grown by consecutive events. */
  lemma EventsGrow(streams: map<StreamKey, Stream>, events: map<Id, EventRow>, key: StreamKey, stream: Stream,
                   added: seq<Event>, result: map<Id, EventRow>)
    requires EventsExact(streams, events)
    requires var head := if key in streams then streams[key].head else 0;
             && stream.head == head + |added|
             && Extends(events, EventIds(added), EventRows(key, head, added), result)
    ensures EventsExact(streams[key := stream], result)
  {
    var head := if key in streams then streams[key].head else 0;
    var ids, rows := EventIds(added), EventRows(key, head, added);
    forall id | id in result ensures
      && result[id].event.id == id && result[id].stream in streams[key := stream]
      && 1 <= result[id].sequence <= streams[key := stream][result[id].stream].head
    {
      if id !in events {
        var i :| 0 <= i < |ids| && ids[i] == id;
        assert result[id] == rows[i];
      }
    }
    forall n: nat, k | k in streams[key := stream] && 1 <= n <= streams[key := stream][k].head ensures HasEvent(result, k, n) {
      if k == key && n > head {
        assert result[ids[n - head - 1]] == rows[n - head - 1];
      } else {
        assert HasEvent(events, k, n);
        var id :| id in events && events[id].stream == k && events[id].sequence == n;
        assert result[id] == events[id];
      }
    }
    forall a, b | a in result && b in result && SameSequence(result[a], result[b]) ensures a == b {
      GrownUnique(streams, events, key, added, result, a, b);
    }
  }

  lemma GrownUnique(streams: map<StreamKey, Stream>, events: map<Id, EventRow>, key: StreamKey,
                    added: seq<Event>, result: map<Id, EventRow>, a: Id, b: Id)
    requires EventsExact(streams, events)
    requires var head := if key in streams then streams[key].head else 0;
             Extends(events, EventIds(added), EventRows(key, head, added), result)
    requires a in result && b in result && SameSequence(result[a], result[b])
    ensures a == b
  {
    var head := if key in streams then streams[key].head else 0;
    var ids, rows := EventIds(added), EventRows(key, head, added);
    if a !in events {
      var i :| 0 <= i < |ids| && ids[i] == a;
      assert result[a] == rows[i];
    }
    if b !in events {
      var j :| 0 <= j < |ids| && ids[j] == b;
      assert result[b] == rows[j];
    }
  }

  lemma OutboxGrows(streams: map<StreamKey, Stream>, outbox: map<Id, OutboxRow>, key: StreamKey, stream: Stream,
                    last: nat, added: seq<OutboxEntry>, result: map<Id, OutboxRow>)
    requires OutboxLive(streams, outbox) && IsMaxCursor(outbox, last)
    requires key in streams ==> streams[key].head <= stream.head
    requires Extends(outbox, OutboxIds(added), OutboxRows(key, stream.head, last, added), result)
    ensures OutboxLive(streams[key := stream], result)
  {
    var ids, rows := OutboxIds(added), OutboxRows(key, stream.head, last, added);
    forall id | id in result && id !in outbox
      ensures exists i :: 0 <= i < |ids| && ids[i] == id && result[id] == rows[i]
    {
      var i :| 0 <= i < |ids| && ids[i] == id;
    }
    forall a, b | a in result && b in result && SameCursor(result[a], result[b]) ensures a == b {
      GrownCursorsUnique(outbox, key, stream.head, last, added, result, a, b);
    }
  }

  lemma GrownCursorsUnique(outbox: map<Id, OutboxRow>, key: StreamKey, head: nat, last: nat,
                           added: seq<OutboxEntry>, result: map<Id, OutboxRow>, a: Id, b: Id)
    requires forall x, y :: x in outbox && y in outbox && SameCursor(outbox[x], outbox[y]) ==> x == y
    requires IsMaxCursor(outbox, last)
    requires Extends(outbox, OutboxIds(added), OutboxRows(key, head, last, added), result)
    requires a in result && b in result && SameCursor(result[a], result[b])
    ensures a == b
  {
    var ids, rows := OutboxIds(added), OutboxRows(key, head, last, added);
    if a !in outbox {
      var i :| 0 <= i < |ids| && ids[i] == a;
      assert result[a] == rows[i];
    }
    if b !in outbox {
      var j :| 0 <= j < |ids| && ids[j] == b;
      assert result[b] == rows[j];
    }
  }

  lemma AttemptsGrow(streams: map<StreamKey, Stream>, attempts: map<Id, AttemptRow>, key: StreamKey, stream: Stream,
                     added: seq<Attempt>, result: map<Id, AttemptRow>)
    requires AttemptsLive(streams, attempts)
    requires Extends(attempts, AttemptIds(added), AttemptRows(key, added), result)
    ensures AttemptsLive(streams[key := stream], result)
  {
    var ids, rows := AttemptIds(added), AttemptRows(key, added);
    forall id | id in result && id !in attempts
      ensures exists i :: 0 <= i < |ids| && ids[i] == id && result[id] == rows[i]
    {
      var i :| 0 <= i < |ids| && ids[i] == id;
    }
  }

  /** Every commit keeps the invariant. */
  lemma CommitKeepsValid(db: Db, objects: Objects, batch: Batch, enforce: bool, t: Transaction)
    requires Valid(db) && Applied(db, objects, batch, enforce, t)
    ensures Valid(t.db)
  {
    EventsKept(db, objects, batch, enforce, t);
    OutboxKept(db, objects, batch, enforce, t);
    AttemptsExtended(db, batch);
    AttemptsGrow(db.streams, db.attempts, batch.Key(), t.db.streams[batch.Key()], batch.attempts, t.db.attempts);
  }

  lemma EventsKept(db: Db, objects: Objects, batch: Batch, enforce: bool, t: Transaction)
    requires EventsExact(db.streams, db.events) && Applied(db, objects, batch, enforce, t)
    ensures EventsExact(t.db.streams, t.db.events)
  {
    EventsExtended(db, batch);
    EventsGrow(db.streams, db.events, batch.Key(), t.db.streams[batch.Key()], batch.events, t.db.events);
  }

  lemma OutboxKept(db: Db, objects: Objects, batch: Batch, enforce: bool, t: Transaction)
    requires OutboxLive(db.streams, db.outbox) && Applied(db, objects, batch, enforce, t)
    ensures OutboxLive(t.db.streams, t.db.outbox)
  {
    var last := MaxCursor(db.outbox);
    OutboxExtended(db, batch, last);
    OutboxGrows(db.streams, db.outbox, batch.Key(), t.db.streams[batch.Key()], last, batch.outbox, t.db.outbox);
  }

  // -------------------------------------------------- the other operations keep it

  lemma AcknowledgeKeepsValid(db: Db, id: Id)
    requires Valid(db) && id in db.outbox
    ensures Valid(db.(outbox := db.outbox[id := db.outbox[id].(delivered := true)]))
  {
  }

  lemma PurgeKeepsValid(db: Db, keep: nat)
    requires Valid(db)
    ensures Valid(Purged(db, keep))
  {
  }

  /** Deleting a chat leaves the other streams numbered 1..head and no orphan row. */
  lemma DeleteKeepsValid(db: Db, chat: Id)
    requires Valid(db)
    ensures Valid(StreamDeleted(db, chat))
    ensures forall key :: key in StreamDeleted(db, chat).streams ==> key.chat != chat
  {
    var after := StreamDeleted(db, chat);
    forall key, n: nat | key in after.streams && 1 <= n <= after.streams[key].head ensures HasEvent(after.events, key, n) {
      assert HasEvent(db.events, key, n);
      var id :| id in db.events && db.events[id].stream == key && db.events[id].sequence == n;
      assert id in after.events && after.events[id] == db.events[id];
    }
  }

  /** The same events, except for their payloads. */
  ghost predicate SameButPayloads(before: map<Id, EventRow>, after: map<Id, EventRow>) {
    && after.Keys == before.Keys
    && forall id :: id in before ==>
         after[id] == before[id].(event := before[id].event.(payload := after[id].event.payload))
  }

  /** Pruning touches payloads only: identity, kind, stream and sequence of every event stay. */
  lemma {:induction false} PruneKeepsEvents(events: map<Id, EventRow>, updates: seq<PayloadUpdate>)
    ensures SameButPayloads(events, Pruned(events, updates))
    decreases |updates|
  {
    if updates != [] {
      var next := PrunedOne(events, updates[0]);
      assert next.Keys == events.Keys;
      PruneKeepsEvents(next, updates[1..]);
      PayloadsCompose(events, next, Pruned(events, updates));
    }
  }

  lemma PayloadsCompose(a: map<Id, EventRow>, b: map<Id, EventRow>, c: map<Id, EventRow>)
    requires SameButPayloads(a, b) && SameButPayloads(b, c)
    ensures SameButPayloads(a, c)
  {
  }

  lemma PruneKeepsValid(db: Db, updates: seq<PayloadUpdate>)
    requires Valid(db)
    ensures Valid(db.(events := Pruned(db.events, updates)))
  {
    PruneKeepsEvents(db.events, updates);
    PayloadsKeepExact(db.streams, db.events, Pruned(db.events, updates));
  }

  lemma PayloadsKeepExact(streams: map<StreamKey, Stream>, before: map<Id, EventRow>, after: map<Id, EventRow>)
    requires EventsExact(streams, before) && SameButPayloads(before, after)
    ensures EventsExact(streams, after)
  {
    forall key, n: nat | key in streams && 1 <= n <= streams[key].head ensures HasEvent(after, key, n) {
      assert HasEvent(before, key, n);
      var id :| id in before && before[id].stream == key && before[id].sequence == n;
      assert id in after && after[id].stream == key && after[id].sequence == n;
    }
  }
}
