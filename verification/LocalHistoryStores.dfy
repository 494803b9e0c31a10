/** The store object: transactions built row by row, an uncertain commit resolved
    by looking at what became durable, and paged reads. */
module LocalHistoryStores {
  import opened Base
  import opened Tables
  import opened Ledger
  import opened LedgerInvariant
  import opened LedgerVerify
  import opened LedgerHistory

  const MAX_PAGE_SIZE: nat := 512

  function Clamp(limit: nat): nat {
    if limit < 1 then 1 else if limit > MAX_PAGE_SIZE then MAX_PAGE_SIZE else limit
  }

  /** What SQLite's own commit did: it answered, or it reported an error after
      the transaction did or did not become durable. */
  datatype Fate = Answered | Lost(applied: bool)

  /** The tables a commit leaves: a whole transaction, or what it found. */
  ghost function CommitStepped(db: Db, objects: Objects, batch: Batch, enforce: bool, fate: Fate): Db {
    match Committing(db, objects, batch, enforce)
    case Err(_) => db
    case Ok(Commit(_, Existing(_))) => db
    case Ok(Commit(after, Committed(_))) => if fate == Lost(false) then db else after
  }

  /** The tables the check of a lost commit leaves. */
  function Checked(db: Db, objects: Objects, batch: Batch, receipt: Receipt, cursors: seq<nat>): Db {
    if Verify(db, objects, batch, receipt, cursors).Partial? then db.(quarantined := true) else db
  }

  datatype Begun = Known(receipt: Receipt) | Fresh(transaction: Transaction)

  /** A commit whose answer came, or one that has yet to be looked for. */
  datatype Attempted = Settled(outcome: CommitOutcome) | Uncertain(receipt: Receipt, cursors: seq<nat>)

  /** What the check after a lost answer finds, on either side of the commit. */
  lemma CommitDecided(db: Db, objects: Objects, batch: Batch, enforce: bool, t: Transaction)
    requires Valid(db) && Applied(db, objects, batch, enforce, t)
    ensures Valid(t.db) && (enforce ==> AggregateExpected(db, batch)) && t.db.quarantined == db.quarantined
    ensures Verify(db, objects, batch, t.receipt, t.cursors) == if AggregateExpected(db, batch) then Absent else Partial
    ensures Verify(t.db, objects, batch, t.receipt, t.cursors) == Exact
  {
    CommitKeepsValid(db, objects, batch, enforce, t);
    BeforeCommit(db, objects, batch, enforce, t);
    ExactAfter(db, objects, batch, enforce, t);
  }

  /** What the check finds when nothing else runs between a commit and its check. */
  lemma LostVerdict(db: Db, objects: Objects, batch: Batch, enforce: bool, applied: bool, t: Transaction)
    requires Valid(db) && Applied(db, objects, batch, enforce, t)
    requires Committing(db, objects, batch, enforce) == Ok(Commit(t.db, Committed(t.receipt)))
    ensures enforce ==> AggregateExpected(db, batch)
    ensures var left := CommitStepped(db, objects, batch, enforce, Lost(applied));
            && left == (if applied then t.db else db) && left.quarantined == db.quarantined
            && Verify(left, objects, batch, t.receipt, t.cursors)
               == if applied then Exact else if AggregateExpected(db, batch) then Absent else Partial
  {
    CommitDecided(db, objects, batch, enforce, t);
  }

  function PayloadSize(row: OutboxRow): nat {
    Utf8Length(row.entry.payload.text)
  }

  function UpdatedIds(updates: seq<PayloadUpdate>): seq<Id> {
    seq(|updates|, i requires 0 <= i < |updates| => updates[i].id)
  }

  datatype TimelinePage = TimelinePage(entries: seq<Event>, next: Option<nat>)

  lemma MaxCursorUnique(outbox: map<Id, OutboxRow>, m: nat, n: nat)
    requires IsMaxCursor(outbox, m) && IsMaxCursor(outbox, n)
    ensures m == n
  {
  }

  lemma Fewer<V>(part: map<Id, V>, whole: map<Id, V>)
    requires part.Keys <= whole.Keys
    ensures |part| <= |whole|
  {
    var rest := whole.Keys - part.Keys;
    assert whole.Keys == part.Keys + rest;
    assert |part| == |part.Keys| && |whole| == |whole.Keys|;
  }

  method GreatestCursor(outbox: map<Id, OutboxRow>) returns (m: nat)
    ensures m == MaxCursor(outbox)
  {
    m := 0;
    var rest := outbox.Keys;
    while rest != {}
      invariant rest <= outbox.Keys
      invariant forall id :: id in outbox.Keys - rest ==> outbox[id].cursor <= m
      invariant m == 0 || exists id :: id in outbox && outbox[id].cursor == m
    {
      var id :| id in rest;
      if outbox[id].cursor > m {
        m := outbox[id].cursor;
      }
      rest := rest - {id};
    }
    assert forall id :: id in outbox ==> id in outbox.Keys - rest;
    MaxCursorUnique(outbox, m, MaxCursor(outbox));
  }

  method FinalizeArtifacts(staging: Staging, objects: Objects, events: seq<Id>, refs: seq<ArtifactRef>)
    returns (r: Result<Staging>)
    ensures r == FinalizeAll(staging, objects, events, refs)
  {
    var current := staging;
    for i := 0 to |refs|
      invariant FinalizeAll(current, objects, events, refs[i..]) == FinalizeAll(staging, objects, events, refs)
    {
      assert refs[i..][1..] == refs[i + 1..];
      var next := FinalizeOne(current, objects, events, refs[i]);
      if next.Err? {
        return Err(next.error);
      }
      current := next.value;
    }
    return Ok(current);
  }

  method CountPresentIds<V>(ids: seq<Id>, table: map<Id, V>) returns (count: nat)
    ensures count == CountPresent(ids, table)
  {
    count := 0;
    for i := 0 to |ids|
      invariant count + CountPresent(ids[i..], table) == CountPresent(ids, table)
    {
      assert ids[i..][1..] == ids[i + 1..];
      if ids[i] in table {
        count := count + 1;
      }
    }
  }

  method LoadOutboxCursors(outbox: map<Id, OutboxRow>, ids: seq<Id>) returns (cursors: seq<nat>)
    ensures cursors == LoadCursors(outbox, ids)
  {
    cursors := [];
    for i := 0 to |ids|
      invariant |cursors| == i && forall j | 0 <= j < i :: ids[j] in outbox && cursors[j] == outbox[ids[j]].cursor
    {
      if ids[i] !in outbox {
        return [];
      }
      cursors := cursors + [outbox[ids[i]].cursor];
    }
  }

  class LocalHistoryStore {
    var db: Db
    var objects: Objects

    constructor ()
      ensures db == Db(map[], map[], map[], map[], map[], map[], Staging(map[], map[], {}), false)
      ensures objects == map[] && Valid(db)
    {
      db := Db(map[], map[], map[], map[], map[], map[], Staging(map[], map[], {}), false);
      objects := map[];
    }

    /** The rows of one new commit, inserted in the order of `commit_inner`. */
    method Build(batch: Batch, enforce: bool) returns (r: Result<Transaction>)
      ensures r == Transact(db, objects, batch, enforce, MaxCursor(db.outbox))
    {
      var fence := Fence(db, batch, enforce);
      if fence.Fail? { return Err(fence.error); }
      var key, aggregate := batch.Key(), AggregateOf(db, batch.Key()) + 1;
      var streams := db.streams[key := Stream(batch.run, NewHead(batch), aggregate)];
      var events := InsertRows(db.events, EventIds(batch.events), EventRows(key, batch.expectedHead, batch.events), SameSequence);
      if events.None? { return Err(Sql); }
      var attempts := InsertRows(db.attempts, AttemptIds(batch.attempts), AttemptRows(key, batch.attempts), SameAttempt);
      if attempts.None? { return Err(Sql); }
      var checkpoints := db.checkpoints;
      if batch.checkpoint.Some? {
        var at := CheckpointKey(key, NewHead(batch));
        if at in checkpoints { return Err(Sql); }
        checkpoints := checkpoints[at := batch.checkpoint.value];
      }
      var last := GreatestCursor(db.outbox);
      var room := OutboxRoom(batch, last);
      var ids, rows := OutboxIds(batch.outbox), OutboxRows(key, NewHead(batch), last, batch.outbox);
      var outbox := InsertRows(db.outbox, ids[..room], rows[..room], SameCursor);
      if outbox.None? { return Err(Sql); }
      if room < |batch.outbox| { return Err(InvalidStoredData); }
      assert ids[..room] == ids && rows[..room] == rows;
      var staging := FinalizeArtifacts(db.staging, objects, EventIds(batch.events), batch.artifacts);
      if staging.Err? { return Err(staging.error); }
      var receipt := ReceiptFor(batch, aggregate);
      var dedup := db.dedup;
      if batch.dedup.Some? {
        dedup := dedup[batch.dedup.value := DedupRow(OfBatch(batch), key, receipt)];
      }
      return Ok(Transaction(
        Db(streams, events.value, attempts.value, checkpoints, dedup, outbox.value, staging.value, db.quarantined),
        receipt, Cursors(last, |batch.outbox|)));
    }

    /** Validation, quarantine, deduplication, and then the rows of a new commit. */
    method Begin(batch: Batch, enforce: bool) returns (r: Result<Begun>)
      ensures match Committing(db, objects, batch, enforce)
              case Err(error) => r == Err(error)
              case Ok(Commit(_, Existing(receipt))) => r == Ok(Known(receipt))
              case Ok(Commit(after, Committed(receipt))) =>
                && r.Ok? && r.value.Fresh? && Applied(db, objects, batch, enforce, r.value.transaction)
                && after == r.value.transaction.db && receipt == r.value.transaction.receipt
    {
      var validated := Validate(batch);
      if validated.Fail? { return Err(validated.error); }
      if db.quarantined { return Err(StoreQuarantined); }
      if batch.dedup.Some? && batch.dedup.value in db.dedup {
        var known := db.dedup[batch.dedup.value];
        if known.request != OfBatch(batch) || known.stream != batch.Key() { return Err(DeduplicationKeyReused); }
        return Ok(Known(known.receipt));
      }
      var built := Build(batch, enforce);
      if built.Err? { return Err(built.error); }
      TransactApplied(db, objects, batch, enforce);
      return Ok(Fresh(built.value));
    }

    /** `commit_inner` up to the answer of SQLite's own commit. */
    method Attempt(batch: Batch, enforce: bool, fate: Fate) returns (r: Result<Attempted>)
      requires Valid(db)
      modifies this`db
      ensures Valid(db) && db == CommitStepped(old(db), objects, batch, enforce, fate)
      ensures match old(Committing(db, objects, batch, enforce))
              case Err(error) => r == Err(error)
              case Ok(Commit(_, Existing(receipt))) =>
                r == if fate.Answered? then Ok(Settled(Existing(receipt))) else Err(Sql)
              case Ok(Commit(after, Committed(receipt))) =>
                if fate.Answered? then r == Ok(Settled(Committed(receipt)))
                else
                  && r.Ok? && r.value.Uncertain? && r.value.receipt == receipt
                  && Applied(old(db), objects, batch, enforce, Transaction(after, r.value.receipt, r.value.cursors))
    {
      var begun := Begin(batch, enforce);
      if begun.Err? { return Err(begun.error); }
      match begun.value {
        case Known(receipt) =>
          return if fate.Answered? then Ok(Settled(Existing(receipt))) else Err(Sql);
        case Fresh(t) =>
          CommitDecided(db, objects, batch, enforce, t);
          if fate != Lost(false) {
            db := t.db;
          }
          return if fate.Answered? then Ok(Settled(Committed(t.receipt))) else Ok(Uncertain(t.receipt, t.cursors));
      }
    }

    /** `verify_durable_commit`. */
    method VerifyDurableCommit(batch: Batch, receipt: Receipt, cursors: seq<nat>) returns (v: Verification)
      ensures v == Verify(db, objects, batch, receipt, cursors)
    {
      var dedupExact := DedupExact(db, batch, receipt);
      if DedupPresent(db, batch) && !dedupExact { return Partial; }
      var events := CountPresentIds(receipt.eventIds, db.events);
      var outbox := CountPresentIds(receipt.outboxIds, db.outbox);
      var key := batch.Key();
      var streamBefore := key in db.streams ==>
        db.streams[key].head == batch.expectedHead && db.streams[key].aggregate == batch.expectedAggregate;
      if streamBefore && events == 0 && outbox == 0 && !DedupPresent(db, batch) { return Absent; }
      var loaded := LoadOutboxCursors(db.outbox, receipt.outboxIds);
      var exact :=
        && dedupExact && StreamExact(db, batch, receipt)
        && events == |receipt.eventIds| && outbox == |receipt.outboxIds| && loaded == cursors
        && EventsMatch(db, batch) && AttemptsMatch(db, batch) && CheckpointMatches(db, batch, receipt.head)
        && OutboxMatch(db, batch, cursors) && ArtifactsMatch(db.staging, objects, batch);
      return if exact then Exact else Partial;
    }

    /** The rest of `commit_inner` after a lost answer, on the tables it then finds. */
    method Resolve(batch: Batch, receipt: Receipt, cursors: seq<nat>) returns (r: Result<CommitOutcome>)
      requires Valid(db)
      modifies this`db
      ensures Valid(db) && db == Checked(old(db), objects, batch, receipt, cursors)
      ensures r == match Verify(old(db), objects, batch, receipt, cursors)
                   case Exact => Ok(Committed(receipt))
                   case Absent => Err(Sql)
                   case Partial => Err(AmbiguousCommitQuarantined)
    {
      var verdict := VerifyDurableCommit(batch, receipt, cursors);
      match verdict {
        case Exact => return Ok(Committed(receipt));
        case Absent => return Err(Sql);
        case Partial =>
          db := db.(quarantined := true);
          return Err(AmbiguousCommitQuarantined);
      }
    }

    /** `commit_inner` when nothing else runs between the commit and the check of a lost
        answer: the caller of a fenced commit is told `Committed` exactly when the batch
        is in the tables. */
    method CommitInner(batch: Batch, enforce: bool, fate: Fate) returns (r: Result<CommitOutcome>)
      requires Valid(db)
      modifies this`db
      ensures Valid(db)
      ensures match old(Committing(db, objects, batch, enforce))
              case Err(error) => r == Err(error) && db == old(db)
              case Ok(Commit(_, Existing(receipt))) =>
                r == (if fate.Answered? then Ok(Existing(receipt)) else Err(Sql)) && db == old(db)
              case Ok(Commit(after, Committed(receipt))) =>
                if fate != Lost(false) then r == Ok(Committed(receipt)) && db == after
                else if AggregateExpected(old(db), batch) then r == Err(Sql) && db == old(db)
                else r == Err(AmbiguousCommitQuarantined) && db == old(db).(quarantined := true)
      ensures enforce ==> db.quarantined == old(db).quarantined
    {
      ghost var begun := Committing(db, objects, batch, enforce);
      var attempted := Attempt(batch, enforce, fate);
      if attempted.Err? { return Err(attempted.error); }
      match attempted.value {
        case Settled(outcome) => return Ok(outcome);
        case Uncertain(receipt, cursors) =>
          LostVerdict(old(db), objects, batch, enforce, fate.applied, Transaction(begun.value.db, receipt, cursors));
          r := Resolve(batch, receipt, cursors);
      }
    }

    /** `prune_payloads`. */
    method PrunePayloads(updates: seq<PayloadUpdate>) returns (changed: nat)
      requires Valid(db)
      modifies this`db
      ensures Valid(db) && db == old(db).(events := Pruned(old(db).events, updates))
      ensures changed == CountPresent(UpdatedIds(updates), old(db).events)
    {
      PruneKeepsValid(db, updates);
      var events := db.events;
      changed := 0;
      for i := 0 to |updates|
        invariant Pruned(events, updates[i..]) == Pruned(db.events, updates)
        invariant db == old(db) && events.Keys == db.events.Keys
        invariant changed + CountPresent(UpdatedIds(updates)[i..], db.events) == CountPresent(UpdatedIds(updates), db.events)
      {
        assert updates[i..][1..] == updates[i + 1..];
        assert UpdatedIds(updates)[i..][1..] == UpdatedIds(updates)[i + 1..];
        if updates[i].id in events {
          changed := changed + 1;
        }
        events := PrunedOne(events, updates[i]);
      }
      db := db.(events := events);
    }

    /** `purge_delivered_outbox`: undelivered rows and the newest rows stay. */
    method PurgeDeliveredOutbox(keep: nat) returns (removed: nat, bytes: nat)
      requires Valid(db)
      modifies this`db
      ensures Valid(db) && db == Purged(old(db), keep)
      ensures removed == |old(db).outbox| - |db.outbox|
      ensures bytes == Total(old(db).outbox - db.outbox.Keys, PayloadSize)
    {
      PurgeKeepsValid(db, keep);
      removed, bytes := 0, 0;
      var maximum := GreatestCursor(db.outbox);
      var cutoff := maximum - keep;
      if cutoff > 0 {
        var outbox := map id | id in db.outbox && !(db.outbox[id].delivered && db.outbox[id].cursor <= cutoff) :: db.outbox[id];
        Fewer(outbox, db.outbox);
        bytes := SumRows(db.outbox - outbox.Keys, PayloadSize);
        removed := |db.outbox| - |outbox|;
        db := db.(outbox := outbox);
      } else {
        assert db.outbox - db.outbox.Keys == map[];
      }
    }

    /** `delete_stream`, table by table. */
    method DeleteStream(chat: Id) returns (removed: nat)
      requires Valid(db)
      modifies this`db
      ensures Valid(db) && db == StreamDeleted(old(db), chat)
      ensures removed == |old(db).events| - |db.events|
    {
      DeleteKeepsValid(db, chat);
      var tx := db;
      tx := tx.(events := map id | id in tx.events && tx.events[id].stream.chat != chat :: tx.events[id]);
      Fewer(tx.events, db.events);
      removed := |db.events| - |tx.events|;
      tx := tx.(attempts := map id | id in tx.attempts && tx.attempts[id].stream.chat != chat :: tx.attempts[id]);
      tx := tx.(checkpoints := map c | c in tx.checkpoints && c.stream.chat != chat :: tx.checkpoints[c]);
      tx := tx.(outbox := map id | id in tx.outbox && tx.outbox[id].stream.chat != chat :: tx.outbox[id]);
      tx := tx.(streams := map k | k in tx.streams && k.chat != chat :: tx.streams[k]);
      db := tx;
    }

    /** `committed_timeline_page`: the next events of a stream; a cursor follows a full page only. */
    method CommittedTimelinePage(key: StreamKey, after: nat, limit: nat) returns (page: TimelinePage)
      requires Valid(db)
      ensures var h := History(db, key);
              page.entries == h[Min(after, |h|)..Min(after + Clamp(limit), |h|)]
      ensures page.next == if |page.entries| == Clamp(limit) then Some(after + Clamp(limit)) else None
    {
      var entries := FetchRows(db, key, after, Clamp(limit));
      return TimelinePage(entries, if |entries| == Clamp(limit) then Some(after + |entries|) else None);
    }

    /** `events`: paging from the start returns the whole history. */
    method Events(key: StreamKey) returns (events: seq<Event>)
      requires Valid(db)
      ensures events == History(db, key)
    {
      var cursor := 0;
      events := [];
      ghost var h := History(db, key);
      var more := true;
      while more
        invariant cursor <= |h| || !more
        invariant events == h[..if more then cursor else |h|]
        decreases more, |h| - cursor
      {
        var page := CommittedTimelinePage(key, cursor, MAX_PAGE_SIZE);
        events := events + page.entries;
        match page.next {
          case None => more := false;
          case Some(next) => cursor := next;
        }
      }
    }
  }

  /** `ORDER BY sequence LIMIT 1` beyond a cursor. */
  predicate IsNext(db: Db, key: StreamKey, cursor: nat, id: Id)
    requires id in db.events
  {
    && db.events[id].stream == key && db.events[id].sequence > cursor
    && forall o | o in db.events ::
         db.events[o].stream == key && db.events[o].sequence > cursor ==> db.events[id].sequence <= db.events[o].sequence
  }

  lemma NextIsSuccessor(db: Db, key: StreamKey, cursor: nat, id: Id)
    requires EventsExact(db.streams, db.events) && id in db.events && IsNext(db, key, cursor, id)
    ensures cursor < HeadOf(db, key) && db.events[id] == EventRow(key, cursor + 1, History(db, key)[cursor])
  {
    HistoryRow(db, key, id);
    HistoryHasRow(db, key, cursor + 1);
  }

  lemma NoNextIsEnd(db: Db, key: StreamKey, cursor: nat)
    requires EventsExact(db.streams, db.events)
    ensures HeadOf(db, key) <= cursor || exists id :: id in db.events && IsNext(db, key, cursor, id)
  {
    if HeadOf(db, key) > cursor {
      HistoryHasRow(db, key, cursor + 1);
      assert IsNext(db, key, cursor, History(db, key)[cursor].id);
    }
  }

  /** The row a stream holds next after a cursor. */
  method NextRow(db: Db, key: StreamKey, cursor: nat) returns (row: Option<EventRow>)
    requires EventsExact(db.streams, db.events)
    ensures row == if cursor < HeadOf(db, key) then Some(EventRow(key, cursor + 1, History(db, key)[cursor])) else None
  {
    if exists id | id in db.events :: IsNext(db, key, cursor, id) {
      var id :| id in db.events && IsNext(db, key, cursor, id);
      NextIsSuccessor(db, key, cursor, id);
      return Some(db.events[id]);
    }
    NoNextIsEnd(db, key, cursor);
    return None;
  }

  /** `WHERE sequence > ? ORDER BY sequence LIMIT ?` on the events of one stream. */
  method FetchRows(db: Db, key: StreamKey, after: nat, limit: nat) returns (entries: seq<Event>)
    requires EventsExact(db.streams, db.events)
    ensures var h := History(db, key); entries == h[Min(after, |h|)..Min(after + limit, |h|)]
  {
    var cursor := after;
    ghost var h := History(db, key);
    entries := [];
    while |entries| < limit
      invariant |entries| <= limit && cursor == after + |entries|
      invariant entries == h[Min(after, |h|)..Min(cursor, |h|)]
      decreases limit - |entries|
    {
      var row := NextRow(db, key, cursor);
      if row.None? {
        return;
      }
      entries := entries + [row.value.event];
      cursor := row.value.sequence;
    }
  }
}
