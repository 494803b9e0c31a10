/** The event history of one stream, and what each operation does to it. */
module LedgerHistory {
  import opened Base
  import opened Tables
  import opened Ledger
  import opened LedgerInvariant

  /** The event a stream holds at one sequence number. */
  ghost function EventAt(events: map<Id, EventRow>, key: StreamKey, n: nat): (e: Event)
    requires HasEvent(events, key, n)
  {
    var id :| id in events && events[id].stream == key && events[id].sequence == n;
    events[id].event
  }

  /** All events of a stream, in sequence order. */
  ghost function History(db: Db, key: StreamKey): (h: seq<Event>)
    requires EventsExact(db.streams, db.events)
    ensures |h| == HeadOf(db, key)
  {
    seq(HeadOf(db, key), i requires 0 <= i < HeadOf(db, key) =>
      assert HasEvent(db.events, key, i + 1); EventAt(db.events, key, i + 1))
  }

  /** A row with sequence n holds the n-th event. */
  lemma HistoryRow(db: Db, key: StreamKey, id: Id)
    requires EventsExact(db.streams, db.events) && id in db.events && db.events[id].stream == key
    ensures var n := db.events[id].sequence;
            1 <= n <= HeadOf(db, key) && History(db, key)[n - 1] == db.events[id].event
  {
    var n := db.events[id].sequence;
    assert HasEvent(db.events, key, n);
    var other :| other in db.events && db.events[other].stream == key && db.events[other].sequence == n
                 && EventAt(db.events, key, n) == db.events[other].event;
    assert SameSequence(db.events[id], db.events[other]);
  }

  /** The n-th event has a row with sequence n. */
  lemma HistoryHasRow(db: Db, key: StreamKey, n: nat)
    requires EventsExact(db.streams, db.events) && 1 <= n <= HeadOf(db, key)
    ensures var e := History(db, key)[n - 1]; e.id in db.events && db.events[e.id] == EventRow(key, n, e)
  {
    assert HasEvent(db.events, key, n);
    var id :| id in db.events && db.events[id].stream == key && db.events[id].sequence == n;
    HistoryRow(db, key, id);
  }

  /** A history is fixed by the rows behind it. */
  lemma HistoryIs(db: Db, key: StreamKey, h: seq<Event>)
    requires EventsExact(db.streams, db.events) && |h| == HeadOf(db, key)
    requires forall i :: 0 <= i < |h| ==> h[i].id in db.events && db.events[h[i].id] == EventRow(key, i + 1, h[i])
    ensures History(db, key) == h
  {
    forall i | 0 <= i < |h| ensures History(db, key)[i] == h[i] {
      HistoryRow(db, key, h[i].id);
    }
  }

  /** A commit appends its events to its own stream and leaves every other stream alone. */
  lemma CommitAppends(db: Db, objects: Objects, batch: Batch, enforce: bool, t: Transaction, key: StreamKey)
    requires Valid(db) && Applied(db, objects, batch, enforce, t)
    ensures Valid(t.db)
    ensures History(t.db, key) == if key == batch.Key() then History(db, key) + batch.events else History(db, key)
  {
    CommitKeepsValid(db, objects, batch, enforce, t);
    EventsExtended(db, batch);
    HistoryExtended(db, t.db, batch, key);
  }

  lemma HistoryExtended(db: Db, after: Db, batch: Batch, key: StreamKey)
    requires EventsExact(db.streams, db.events) && EventsExact(after.streams, after.events)
    requires HeadOf(db, batch.Key()) == batch.expectedHead
    requires HeadOf(after, key) == if key == batch.Key() then NewHead(batch) else HeadOf(db, key)
    requires Extends(db.events, EventIds(batch.events), EventRows(batch.Key(), batch.expectedHead, batch.events), after.events)
    ensures History(after, key) == if key == batch.Key() then History(db, key) + batch.events else History(db, key)
  {
    var before := History(db, key);
    var h := if key == batch.Key() then before + batch.events else before;
    forall i | 0 <= i < |before| ensures h[i].id in after.events && after.events[h[i].id] == EventRow(key, i + 1, h[i]) {
      HistoryHasRow(db, key, i + 1);
    }
    forall i | |before| <= i < |h| ensures h[i].id in after.events && after.events[h[i].id] == EventRow(key, i + 1, h[i]) {
      AppendedRow(db, after, batch, i - |before|);
    }
    HistoryIs(after, key, h);
  }

  lemma AppendedRow(db: Db, after: Db, batch: Batch, i: nat)
    requires i < |batch.events|
    requires Extends(db.events, EventIds(batch.events), EventRows(batch.Key(), batch.expectedHead, batch.events), after.events)
    ensures batch.events[i].id in after.events
    ensures after.events[batch.events[i].id] == EventRow(batch.Key(), batch.expectedHead + i + 1, batch.events[i])
  {
    assert EventIds(batch.events)[i] == batch.events[i].id;
  }

  /** Deleting a chat empties its histories and leaves every other one alone. */
  lemma DeleteForgets(db: Db, chat: Id, key: StreamKey)
    requires Valid(db)
    ensures Valid(StreamDeleted(db, chat))
    ensures History(StreamDeleted(db, chat), key) == if key.chat == chat then [] else History(db, key)
  {
    DeleteKeepsValid(db, chat);
    var after := StreamDeleted(db, chat);
    if key.chat != chat {
      var h := History(db, key);
      forall i | 0 <= i < |h| ensures h[i].id in after.events && after.events[h[i].id] == EventRow(key, i + 1, h[i]) {
        HistoryHasRow(db, key, i + 1);
      }
      HistoryIs(after, key, h);
    }
  }

  /** Pruning rewrites payloads in place: every other part of every event stays. */
  lemma PruneKeepsHistory(db: Db, updates: seq<PayloadUpdate>, key: StreamKey, i: nat)
    requires Valid(db) && i < HeadOf(db, key)
    ensures var after := db.(events := Pruned(db.events, updates));
            && Valid(after)
            && |History(after, key)| == |History(db, key)|
            && History(after, key)[i] == History(db, key)[i].(payload := History(after, key)[i].payload)
  {
    PruneKeepsValid(db, updates);
    PruneKeepsEvents(db.events, updates);
    HistoryHasRow(db, key, i + 1);
    HistoryRow(db.(events := Pruned(db.events, updates)), key, History(db, key)[i].id);
  }

  /** A receipt tells what the tables then hold: the length of the history, the ids of its
      newest events, the aggregate version, the checkpoint and the delivery cursors. */
  lemma ReceiptMeans(db: Db, objects: Objects, batch: Batch, enforce: bool, t: Transaction)
    requires Valid(db) && Applied(db, objects, batch, enforce, t)
    ensures Valid(t.db) && batch.Key() in t.db.streams
    ensures t.receipt.head == |History(t.db, batch.Key())| && batch.expectedHead < t.receipt.head
    ensures t.receipt.eventIds == EventIds(History(t.db, batch.Key())[batch.expectedHead..])
    ensures t.receipt.aggregate == t.db.streams[batch.Key()].aggregate == AggregateOf(db, batch.Key()) + 1
    ensures t.receipt.checkpointHash.Some? <==> CheckpointKey(batch.Key(), t.receipt.head) in t.db.checkpoints
    ensures t.receipt.checkpointHash.Some? ==>
              t.receipt.checkpointHash.value == t.db.checkpoints[CheckpointKey(batch.Key(), t.receipt.head)].stateHash
    ensures |t.receipt.outboxIds| == |t.cursors| == |batch.outbox|
    ensures forall i :: 0 <= i < |t.cursors| ==>
              && t.receipt.outboxIds[i] in t.db.outbox && t.db.outbox[t.receipt.outboxIds[i]].cursor == t.cursors[i]
              && t.db.outbox[t.receipt.outboxIds[i]].entry == batch.outbox[i]
    ensures t.receipt.request == OfBatch(batch)
  {
    CommitAppends(db, objects, batch, enforce, t, batch.Key());
    var h := History(t.db, batch.Key());
    assert h[batch.expectedHead..] == batch.events;
    OutboxExtended(db, batch, MaxCursor(db.outbox));
  }
}
