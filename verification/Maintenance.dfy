/** Exactly what purging, deleting and pruning leave behind. */
module Maintenance {
  import opened Base
  import opened Ledger
  import opened LedgerInvariant

  /** A purge removes a row exactly when it is delivered and at least `keep` cursors lie
      above it, up to the greatest; nothing else changes. */
  lemma PurgedExactly(db: Db, keep: nat, id: Id)
    requires OutboxLive(db.streams, db.outbox)
    ensures Purged(db, keep) == db.(outbox := Purged(db, keep).outbox)
    ensures id in Purged(db, keep).outbox <==>
              id in db.outbox && (!db.outbox[id].delivered || MaxCursor(db.outbox) - db.outbox[id].cursor < keep)
    ensures id in Purged(db, keep).outbox ==> Purged(db, keep).outbox[id] == db.outbox[id]
  {
  }

  /** The same rows, except those of one chat. */
  ghost predicate OnlyChatGone<K(!new), V>(before: map<K, V>, after: map<K, V>, chat: Id, chatOf: (K, V) -> Id) {
    && (forall k :: k in after <==> k in before && chatOf(k, before[k]) != chat)
    && (forall k :: k in after ==> after[k] == before[k])
  }

  /** A deletion takes every row of its chat from every table that names it, and no row of
      another; deduplication and artifact rows stay. */
  lemma DeletedExactly(db: Db, chat: Id)
    ensures var after := StreamDeleted(db, chat);
            && OnlyChatGone(db.events, after.events, chat, (id: Id, row: EventRow) => row.stream.chat)
            && OnlyChatGone(db.attempts, after.attempts, chat, (id: Id, row: AttemptRow) => row.stream.chat)
            && OnlyChatGone(db.checkpoints, after.checkpoints, chat, (at: CheckpointKey, row: Checkpoint) => at.stream.chat)
            && OnlyChatGone(db.outbox, after.outbox, chat, (id: Id, row: OutboxRow) => row.stream.chat)
            && OnlyChatGone(db.streams, after.streams, chat, (key: StreamKey, row: Stream) => key.chat)
            && after.dedup == db.dedup && after.staging == db.staging && after.quarantined == db.quarantined
  {
  }

  /** Update `k` is the last that names the event. */
  ghost predicate LastNaming(updates: seq<PayloadUpdate>, k: nat, id: Id) {
    k < |updates| && updates[k].id == id && forall j :: k < j < |updates| ==> updates[j].id != id
  }

  ghost predicate Names(updates: seq<PayloadUpdate>, id: Id) {
    exists u :: u in updates && u.id == id
  }

  /** An event has the payload of the last update that names it, and its own otherwise;
      nothing else of it changes. */
  lemma {:induction false} PrunedExactly(events: map<Id, EventRow>, updates: seq<PayloadUpdate>, id: Id)
    requires id in events
    ensures id in Pruned(events, updates)
    ensures !Names(updates, id) ==> Pruned(events, updates)[id] == events[id]
    ensures forall k: nat :: LastNaming(updates, k, id) ==>
              Pruned(events, updates)[id] == events[id].(event := events[id].event.(payload := updates[k].payload))
    decreases |updates|
  {
    if updates != [] {
      var next, rest := PrunedOne(events, updates[0]), updates[1..];
      PrunedExactly(next, rest, id);
      assert Names(rest, id) ==> Names(updates, id);
      forall k: nat | LastNaming(updates, k, id)
        ensures Pruned(events, updates)[id] == events[id].(event := events[id].event.(payload := updates[k].payload))
      {
        if k > 0 {
          assert LastNaming(rest, k - 1, id);
        } else {
          assert !Names(rest, id);
        }
      }
      if !Names(updates, id) {
        assert updates[0] in updates;
      }
    }
  }
}
