/** Delivery from the outbox: what a consumer sees that pages from its last
    cursor while commits, acknowledgements and purges go on around it. */
module OutboxDelivery {
  import opened Base
  import opened Tables
  import opened Ledger
  import opened LedgerInvariant
  import opened LocalHistoryStores
  import opened Artifacts
  import opened StoreRuns
  import opened SmallRuns

  // ------------------------------------------------------------------ pending pages

  predicate Pending(outbox: map<Id, OutboxRow>, after: nat, id: Id) {
    id in outbox && !outbox[id].delivered && outbox[id].cursor > after
  }

  /** `WHERE delivered = 0 AND delivery_cursor > ? ORDER BY delivery_cursor LIMIT ?`. */
  ghost predicate IsPendingPage(outbox: map<Id, OutboxRow>, after: nat, limit: nat, page: seq<Id>) {
    && |page| <= limit
    && (forall i :: 0 <= i < |page| ==> Pending(outbox, after, page[i]))
    && (forall i, j :: 0 <= i < j < |page| ==> outbox[page[i]].cursor < outbox[page[j]].cursor)
    && (forall id :: Pending(outbox, after, id) ==>
          id in page || (|page| == limit && forall i :: 0 <= i < |page| ==> outbox[page[i]].cursor <= outbox[id].cursor))
  }

  predicate IsLeastPending(outbox: map<Id, OutboxRow>, after: nat, id: Id) {
    && Pending(outbox, after, id)
    && forall o | o in outbox :: Pending(outbox, after, o) ==> outbox[id].cursor <= outbox[o].cursor
  }

  lemma {:induction false} LeastPendingExists(outbox: map<Id, OutboxRow>, after: nat, some: Id)
    requires Pending(outbox, after, some)
    ensures exists id :: IsLeastPending(outbox, after, id)
    decreases outbox[some].cursor
  {
    if !IsLeastPending(outbox, after, some) {
      var o :| o in outbox && Pending(outbox, after, o) && outbox[o].cursor < outbox[some].cursor;
      LeastPendingExists(outbox, after, o);
    }
  }

  /** The page holds exactly the pending rows up to a cursor, in order. */
  ghost predicate PageUpTo(outbox: map<Id, OutboxRow>, after: nat, page: seq<Id>, cursor: nat) {
    && after <= cursor
    && (forall i :: 0 <= i < |page| ==> Pending(outbox, after, page[i]) && outbox[page[i]].cursor <= cursor)
    && (forall i, j :: 0 <= i < j < |page| ==> outbox[page[i]].cursor < outbox[page[j]].cursor)
    && (forall id :: Pending(outbox, after, id) && outbox[id].cursor <= cursor ==> id in page)
  }

  lemma PageGrows(outbox: map<Id, OutboxRow>, after: nat, page: seq<Id>, cursor: nat, id: Id)
    requires forall a, b :: a in outbox && b in outbox && SameCursor(outbox[a], outbox[b]) ==> a == b
    requires PageUpTo(outbox, after, page, cursor) && IsLeastPending(outbox, cursor, id)
    ensures PageUpTo(outbox, after, page + [id], outbox[id].cursor)
  {
    forall o | Pending(outbox, after, o) && outbox[o].cursor <= outbox[id].cursor ensures o in page + [id] {
      if outbox[o].cursor > cursor {
        assert Pending(outbox, cursor, o);
        assert SameCursor(outbox[o], outbox[id]);
      }
    }
  }

  predicate HashRight(row: OutboxRow) {
    row.hash == OfText(row.entry.payload.text)
  }

  /** `pending_outbox_v1`: the rows in cursor order, unless one of them does not match
      its hash, which no reachable outbox has. */
  method PendingOutbox(outbox: map<Id, OutboxRow>, after: nat, limit: nat) returns (r: Result<seq<Id>>)
    requires forall a, b :: a in outbox && b in outbox && SameCursor(outbox[a], outbox[b]) ==> a == b
    ensures r.Ok? ==> IsPendingPage(outbox, after, Clamp(limit), r.value)
    ensures r.Err? ==> r == Err(CorruptOutbox) && exists id :: Pending(outbox, after, id) && !HashRight(outbox[id])
  {
    var page: seq<Id>, cursor := [], after;
    while |page| < Clamp(limit)
      invariant PageUpTo(outbox, after, page, cursor) && |page| <= Clamp(limit)
      decreases Clamp(limit) - |page|
    {
      if some: Id :| some in outbox && Pending(outbox, cursor, some) {
        LeastPendingExists(outbox, cursor, some);
        var id :| id in outbox && IsLeastPending(outbox, cursor, id);
        if !HashRight(outbox[id]) {
          assert Pending(outbox, after, id);
          return Err(CorruptOutbox);
        }
        PageGrows(outbox, after, page, cursor, id);
        page := page + [id];
        cursor := outbox[id].cursor;
      } else {
        assert forall id :: Pending(outbox, after, id) ==> !Pending(outbox, cursor, id);
        return Ok(page);
      }
    }
    return Ok(page);
  }

  // ------------------------------------------------------------------- the consumer

  /** The store, the entries ever committed in commit order, and one consumer. */
  datatype System = System(store: Store, log: seq<OutboxEntry>, cursor: nat, seen: seq<OutboxEntry>)

  datatype Action = StoreAction(step: Step) | Poll(limit: nat)

  /** The store step goes on and the log with it; the consumer stands still. */
  ghost predicate Stepped(system: System, step: Step, after: System) {
    && Next(system.store, step, after.store)
    && after.log == (if TookEffect(system.store, step) then system.log + step.batch.outbox else system.log)
    && after.cursor == system.cursor && after.seen == system.seen
  }

  /** An acknowledgement that succeeds hits a row that was seen; a purge keeps a row,
      or finds the newest one undelivered; a deleted chat has neither the newest row
      nor one that was not seen. */
  ghost predicate Allowed(system: System, step: Step) {
    var db := system.store.db;
    match step
    case DoAcknowledge(id, cursor) => Acknowledged(db, id, cursor).Ok? ==> cursor <= system.cursor
    case DoAcknowledgeAny(id) => AcknowledgedAny(db, id).Ok? ==> db.outbox[id].cursor <= system.cursor
    case DoPurge(keep) =>
      keep >= 1 || forall id :: id in db.outbox && db.outbox[id].cursor == MaxCursor(db.outbox) ==> !db.outbox[id].delivered
    case DoDelete(chat) =>
      forall id :: id in db.outbox && db.outbox[id].stream.chat == chat ==>
        db.outbox[id].cursor < MaxCursor(db.outbox) && db.outbox[id].cursor <= system.cursor
    case _ => true
  }

  ghost predicate NextSystem(system: System, action: Action, after: System) {
    match action
    case StoreAction(step) => Allowed(system, step) && Stepped(system, step, after)
    case Poll(limit) =>
      exists page :: Polled(system, limit, page, after)
  }

  ghost predicate Polled(system: System, limit: nat, page: seq<Id>, after: System) {
    var outbox := system.store.db.outbox;
    && IsPendingPage(outbox, system.cursor, Clamp(limit), page)
    && after == system.(seen := system.seen + Entries(outbox, page),
                        cursor := if page == [] then system.cursor else outbox[page[|page| - 1]].cursor)
  }

  ghost function Entries(outbox: map<Id, OutboxRow>, page: seq<Id>): seq<OutboxEntry>
    requires forall i :: 0 <= i < |page| ==> page[i] in outbox
  {
    seq(|page|, i requires 0 <= i < |page| => outbox[page[i]].entry)
  }

  ghost predicate SystemRun(states: seq<System>, actions: seq<Action>) {
    && |states| == |actions| + 1
    && forall i: nat :: i < |actions| ==> ActsAt(states, actions, i)
  }

  ghost predicate ActsAt(states: seq<System>, actions: seq<Action>, i: nat)
    requires |states| == |actions| + 1 && i < |actions|
  {
    NextSystem(states[i], actions[i], states[i + 1])
  }

  // ------------------------------------------------------------------ the invariant

  /** The i-th entry ever committed has cursor i + 1. */
  ghost predicate Numbered(outbox: map<Id, OutboxRow>, log: seq<OutboxEntry>) {
    && MaxCursor(outbox) == |log|
    && forall id :: id in outbox ==>
         1 <= outbox[id].cursor <= |log| && outbox[id].entry == log[outbox[id].cursor - 1] && outbox[id].entry.id == id
  }

  /** The i-th entry ever committed is still there, undelivered. */
  ghost predicate WaitsAt(outbox: map<Id, OutboxRow>, log: seq<OutboxEntry>, i: nat)
    requires i < |log|
  {
    log[i].id in outbox && outbox[log[i].id].cursor == i + 1 && !outbox[log[i].id].delivered
  }

  ghost predicate Waiting(outbox: map<Id, OutboxRow>, log: seq<OutboxEntry>, from: nat) {
    forall i: nat :: from <= i < |log| ==> WaitsAt(outbox, log, i)
  }

  ghost predicate Delivering(system: System) {
    var outbox := system.store.db.outbox;
    && Numbered(outbox, system.log)
    && system.cursor <= |system.log| && system.seen == system.log[..system.cursor]
    && Waiting(outbox, system.log, system.cursor)
  }

  // ------------------------------------------------------------------------- a poll

  /** A poll returns the very next entries of the log. */
  lemma PollIsNext(system: System, limit: nat, page: seq<Id>, after: System)
    requires Delivering(system) && Polled(system, limit, page, after)
    ensures Delivering(after)
    ensures after.cursor == Min(system.cursor + Clamp(limit), |system.log|)
  {
    PageIsSlice(system.store.db.outbox, system.log, system.cursor, Clamp(limit), page);
    SliceAfterPrefix(system.log, system.cursor, |page|);
  }

  lemma SliceAfterPrefix<T>(s: seq<T>, cursor: nat, n: nat)
    requires cursor + n <= |s|
    ensures s[..cursor] + s[cursor..cursor + n] == s[..cursor + n]
  {
  }

  lemma PageIsSlice(outbox: map<Id, OutboxRow>, log: seq<OutboxEntry>, cursor: nat, limit: nat, page: seq<Id>)
    requires Numbered(outbox, log) && Waiting(outbox, log, cursor) && cursor <= |log|
    requires IsPendingPage(outbox, cursor, limit, page)
    ensures cursor + |page| == Min(cursor + limit, |log|)
    ensures Entries(outbox, page) == log[cursor..cursor + |page|]
    ensures page != [] ==> outbox[page[|page| - 1]].cursor == cursor + |page|
  {
    forall i | 0 <= i < |page| ensures outbox[page[i]].cursor == cursor + i + 1 {
      PageIsConsecutive(outbox, log, cursor, limit, page, i);
    }
    PageReaches(outbox, log, cursor, limit, page);
    forall i | 0 <= i < |page| ensures Entries(outbox, page)[i] == log[cursor + i] {
    }
  }

  lemma {:induction false} PageIsConsecutive(outbox: map<Id, OutboxRow>, log: seq<OutboxEntry>, cursor: nat, limit: nat,
                                             page: seq<Id>, i: nat)
    requires Numbered(outbox, log) && Waiting(outbox, log, cursor) && IsPendingPage(outbox, cursor, limit, page) && i < |page|
    ensures outbox[page[i]].cursor == cursor + i + 1
  {
    if i > 0 {
      PageIsConsecutive(outbox, log, cursor, limit, page, i - 1);
      assert outbox[page[i - 1]].cursor < outbox[page[i]].cursor;
    }
    assert Pending(outbox, cursor, page[i]);
    // The log entry in this place is pending, so the page cannot skip it.
    var id := log[cursor + i].id;
    assert WaitsAt(outbox, log, cursor + i);
    assert Pending(outbox, cursor, id);
    forall j | 0 <= j < i ensures page[j] != id {
      assert j < i - 1 ==> outbox[page[j]].cursor < outbox[page[i - 1]].cursor;
    }
    if id in page {
      var j :| i <= j < |page| && page[j] == id;
    }
  }

  lemma PageReaches(outbox: map<Id, OutboxRow>, log: seq<OutboxEntry>, cursor: nat, limit: nat, page: seq<Id>)
    requires Numbered(outbox, log) && Waiting(outbox, log, cursor) && IsPendingPage(outbox, cursor, limit, page)
    requires cursor <= |log| && forall i :: 0 <= i < |page| ==> outbox[page[i]].cursor == cursor + i + 1
    ensures cursor + |page| == Min(cursor + limit, |log|)
  {
    if page != [] {
      assert Pending(outbox, cursor, page[|page| - 1]);
    }
    if cursor + |page| < |log| {
      var id := log[cursor + |page|].id;
      assert WaitsAt(outbox, log, cursor + |page|);
      assert Pending(outbox, cursor, id);
      assert id !in page;
    }
  }

  // ------------------------------------------------------------------ the other steps

  lemma LogNumbered(outbox: map<Id, OutboxRow>, log: seq<OutboxEntry>, batch: Batch, after: map<Id, OutboxRow>)
    requires Numbered(outbox, log)
    requires Extends(outbox, OutboxIds(batch.outbox), OutboxRows(batch.Key(), NewHead(batch), |log|, batch.outbox), after)
    ensures Numbered(after, log + batch.outbox)
  {
    var grown := log + batch.outbox;
    forall id | id in after
      ensures 1 <= after[id].cursor <= |grown| && after[id].entry == grown[after[id].cursor - 1] && after[id].entry.id == id
    {
      GrownRow(outbox, |log|, batch, after, id);
    }
    if batch.outbox != [] {
      AddedRow(outbox, |log|, batch, after, |batch.outbox| - 1);
    }
    GrownMaximum(outbox, after, |log|, |grown|);
  }

  lemma LogWaiting(outbox: map<Id, OutboxRow>, log: seq<OutboxEntry>, batch: Batch, after: map<Id, OutboxRow>, cursor: nat)
    requires Waiting(outbox, log, cursor) && cursor <= |log|
    requires Extends(outbox, OutboxIds(batch.outbox), OutboxRows(batch.Key(), NewHead(batch), |log|, batch.outbox), after)
    ensures Waiting(after, log + batch.outbox, cursor)
  {
    var grown := log + batch.outbox;
    forall i: nat | cursor <= i < |grown| ensures WaitsAt(after, grown, i) {
      if i < |log| {
        assert grown[i] == log[i] && WaitsAt(outbox, log, i);
      } else {
        AddedRow(outbox, |log|, batch, after, i - |log|);
      }
    }
  }

  lemma GrownMaximum(outbox: map<Id, OutboxRow>, after: map<Id, OutboxRow>, m: nat, n: nat)
    requires MaxCursor(outbox) == m <= n && forall id :: id in outbox ==> id in after && after[id] == outbox[id]
    requires forall id :: id in after ==> after[id].cursor <= n
    requires n > m ==> exists id :: id in after && after[id].cursor == n
    ensures MaxCursor(after) == n
  {
    if n == m && m != 0 {
      var k :| k in outbox && outbox[k].cursor == m;
      assert k in after && after[k].cursor == n;
    }
    MaxCursorUnique(after, MaxCursor(after), n);
  }

  lemma AddedRow(outbox: map<Id, OutboxRow>, last: nat, batch: Batch, after: map<Id, OutboxRow>, i: nat)
    requires Extends(outbox, OutboxIds(batch.outbox), OutboxRows(batch.Key(), NewHead(batch), last, batch.outbox), after)
    requires i < |batch.outbox|
    ensures batch.outbox[i].id in after
    ensures var row := after[batch.outbox[i].id]; row.cursor == last + i + 1 && row.entry == batch.outbox[i] && !row.delivered
  {
    assert OutboxIds(batch.outbox)[i] == batch.outbox[i].id;
  }

  lemma GrownRow(outbox: map<Id, OutboxRow>, last: nat, batch: Batch, after: map<Id, OutboxRow>, id: Id)
    requires Extends(outbox, OutboxIds(batch.outbox), OutboxRows(batch.Key(), NewHead(batch), last, batch.outbox), after)
    requires id in after
    ensures id in outbox ==> after[id] == outbox[id]
    ensures id !in outbox ==>
              exists i :: 0 <= i < |batch.outbox| && batch.outbox[i].id == id
                           && after[id].cursor == last + i + 1 && after[id].entry == batch.outbox[i]
  {
    if id !in outbox {
      var ids := OutboxIds(batch.outbox);
      var i :| 0 <= i < |ids| && ids[i] == id;
      AddedRow(outbox, last, batch, after, i);
    }
  }

  lemma CommitDelivers(system: System, batch: Batch, enforce: bool, t: Transaction, after: System)
    requires Delivering(system) && Applied(system.store.db, system.store.objects, batch, enforce, t)
    requires after.store.db == t.db && after.log == system.log + batch.outbox
    requires after.cursor == system.cursor && after.seen == system.seen
    ensures Delivering(after)
  {
    OutboxExtended(system.store.db, batch, |system.log|);
    LogNumbered(system.store.db.outbox, system.log, batch, t.db.outbox);
    LogWaiting(system.store.db.outbox, system.log, batch, t.db.outbox, system.cursor);
    assert after.log[..system.cursor] == system.log[..system.cursor];
  }

  lemma SameOutboxDelivers(system: System, after: System)
    requires Delivering(system) && after.store.db.outbox == system.store.db.outbox
    requires after.log == system.log && after.cursor == system.cursor && after.seen == system.seen
    ensures Delivering(after)
  {
  }

  /** Marking a row delivered loses nothing exactly when the consumer has seen that row. */
  lemma AcknowledgeDelivers(outbox: map<Id, OutboxRow>, log: seq<OutboxEntry>, cursor: nat, id: Id)
    requires Numbered(outbox, log) && Waiting(outbox, log, cursor) && id in outbox
    ensures var marked := outbox[id := outbox[id].(delivered := true)];
            Numbered(marked, log) && (Waiting(marked, log, cursor) <==> outbox[id].cursor <= cursor)
  {
    var marked := outbox[id := outbox[id].(delivered := true)];
    MaxCursorKept(outbox, marked, id);
    MarkedWaits(outbox, log, cursor, id, marked);
  }

  lemma MarkedWaits(outbox: map<Id, OutboxRow>, log: seq<OutboxEntry>, cursor: nat, id: Id, marked: map<Id, OutboxRow>)
    requires Waiting(outbox, log, cursor) && id in outbox && marked == outbox[id := outbox[id].(delivered := true)]
    requires 1 <= outbox[id].cursor <= |log| && log[outbox[id].cursor - 1].id == id
    ensures Waiting(marked, log, cursor) <==> outbox[id].cursor <= cursor
  {
    var at := outbox[id].cursor;
    if at > cursor {
      assert !WaitsAt(marked, log, at - 1);
    } else {
      forall i: nat | cursor <= i < |log| ensures WaitsAt(marked, log, i) {
        assert WaitsAt(outbox, log, i);
      }
    }
  }

  lemma MaxCursorKept(outbox: map<Id, OutboxRow>, marked: map<Id, OutboxRow>, id: Id)
    requires id in outbox && marked == outbox[id := outbox[id].(delivered := true)]
    ensures MaxCursor(marked) == MaxCursor(outbox)
  {
    var m := MaxCursor(outbox);
    if m != 0 {
      var k :| k in outbox && outbox[k].cursor == m;
      assert k in marked && marked[k].cursor == m;
    }
    assert IsMaxCursor(marked, m);
    MaxCursorUnique(marked, MaxCursor(marked), m);
  }

  /** A part of the outbox that still holds the newest row. */
  lemma NewestKept(outbox: map<Id, OutboxRow>, kept: map<Id, OutboxRow>)
    requires forall id :: id in kept ==> id in outbox && kept[id] == outbox[id]
    requires forall id :: id in outbox && outbox[id].cursor == MaxCursor(outbox) ==> id in kept
    ensures MaxCursor(kept) == MaxCursor(outbox)
  {
    var m := MaxCursor(outbox);
    if m != 0 {
      var k :| k in outbox && outbox[k].cursor == m;
      assert k in kept && kept[k].cursor == m;
    }
    MaxCursorUnique(kept, MaxCursor(kept), m);
  }

  /** A part of the outbox with the newest row and every row the consumer has not seen. */
  ghost predicate KeepsNeeded(outbox: map<Id, OutboxRow>, cursor: nat, kept: map<Id, OutboxRow>) {
    forall id :: id in outbox && (outbox[id].cursor == MaxCursor(outbox) || outbox[id].cursor > cursor) ==> id in kept
  }

  /** Removing rows loses nothing, now or later, exactly when those are kept. */
  lemma RemovalDelivers(outbox: map<Id, OutboxRow>, log: seq<OutboxEntry>, cursor: nat, kept: map<Id, OutboxRow>)
    requires Numbered(outbox, log) && Waiting(outbox, log, cursor)
    requires forall id :: id in kept ==> id in outbox && kept[id] == outbox[id]
    ensures Numbered(kept, log) && Waiting(kept, log, cursor) <==> KeepsNeeded(outbox, cursor, kept)
  {
    if KeepsNeeded(outbox, cursor, kept) {
      NewestKept(outbox, kept);
      forall i: nat | cursor <= i < |log| ensures WaitsAt(kept, log, i) {
        assert WaitsAt(outbox, log, i);
      }
    }
    if Numbered(kept, log) && Waiting(kept, log, cursor) {
      forall id | id in outbox && (outbox[id].cursor == MaxCursor(outbox) || outbox[id].cursor > cursor) ensures id in kept {
        NeededIsKept(outbox, log, cursor, kept, id);
      }
    }
  }

  lemma NeededIsKept(outbox: map<Id, OutboxRow>, log: seq<OutboxEntry>, cursor: nat, kept: map<Id, OutboxRow>, id: Id)
    requires Numbered(outbox, log) && Numbered(kept, log) && Waiting(kept, log, cursor)
    requires id in outbox && (outbox[id].cursor == MaxCursor(outbox) || outbox[id].cursor > cursor)
    ensures id in kept
  {
    var at := outbox[id].cursor;
    if at > cursor {
      assert WaitsAt(kept, log, at - 1);
    } else {
      var k :| k in kept && kept[k].cursor == at;
    }
  }

  /** Rows the consumer has not seen are undelivered. */
  lemma UnseenUndelivered(outbox: map<Id, OutboxRow>, log: seq<OutboxEntry>, cursor: nat, id: Id)
    requires Numbered(outbox, log) && Waiting(outbox, log, cursor) && id in outbox && outbox[id].cursor > cursor
    ensures !outbox[id].delivered
  {
    assert WaitsAt(outbox, log, outbox[id].cursor - 1);
  }

  /** A purge loses nothing exactly when it keeps the newest row. */
  lemma PurgeDelivers(system: System, keep: nat)
    requires Delivering(system)
    ensures var kept := Purged(system.store.db, keep).outbox;
            Numbered(kept, system.log) && Waiting(kept, system.log, system.cursor) <==> Allowed(system, DoPurge(keep))
  {
    var outbox, kept := system.store.db.outbox, Purged(system.store.db, keep).outbox;
    RemovalDelivers(outbox, system.log, system.cursor, kept);
    forall id | id in outbox && outbox[id].cursor > system.cursor ensures id in kept {
      UnseenUndelivered(outbox, system.log, system.cursor, id);
      PurgeKeepsUndelivered(system.store.db, keep, id);
    }
    forall id | id in outbox && outbox[id].cursor == MaxCursor(outbox)
      ensures id in kept <==> keep >= 1 || !outbox[id].delivered
    {
      PurgeKeepsRow(system.store.db, keep, id);
    }
  }

  lemma PurgeKeepsUndelivered(db: Db, keep: nat, id: Id)
    requires id in db.outbox && !db.outbox[id].delivered
    ensures id in Purged(db, keep).outbox
  {
  }

  lemma DeleteDelivers(system: System, chat: Id)
    requires Delivering(system)
    ensures var kept := StreamDeleted(system.store.db, chat).outbox;
            Numbered(kept, system.log) && Waiting(kept, system.log, system.cursor) <==> Allowed(system, DoDelete(chat))
  {
    RemovalDelivers(system.store.db.outbox, system.log, system.cursor, StreamDeleted(system.store.db, chat).outbox);
  }

  /** The steps that leave the outbox alone. */
  lemma OtherStepDelivers(system: System, step: Step, after: System)
    requires Delivering(system) && Stepped(system, step, after)
    requires step.DoVerify? || step.DoPrune? || ArtifactWork(step)
    ensures Delivering(after)
  {
    OutboxUntouched(system.store, step, after.store);
    SameOutboxDelivers(system, after);
  }

  lemma CommitStepDelivers(system: System, step: Step, after: System)
    requires Delivering(system) && Stepped(system, step, after) && step.DoCommit?
    ensures Delivering(after)
  {
    CommitEffect(system.store, step, after.store);
    if TookEffect(system.store, step) {
      var t :| Applied(system.store.db, system.store.objects, step.batch, step.enforce, t) && after.store.db == t.db;
      CommitDelivers(system, step.batch, step.enforce, t, after);
    } else {
      SameOutboxDelivers(system, after);
    }
  }

  lemma MaintenanceDelivers(system: System, step: Step, after: System)
    requires Delivering(system) && Stepped(system, step, after)
    requires step.DoAcknowledge? || step.DoAcknowledgeAny? || step.DoPurge? || step.DoDelete?
    ensures Delivering(after) <==> Allowed(system, step)
  {
    var db := system.store.db;
    match step
    case DoAcknowledge(id, cursor) =>
      if Acknowledged(db, id, cursor).Ok? { AcknowledgeDelivers(db.outbox, system.log, system.cursor, id); }
    case DoAcknowledgeAny(id) =>
      if AcknowledgedAny(db, id).Ok? { AcknowledgeDelivers(db.outbox, system.log, system.cursor, id); }
    case DoPurge(keep) => PurgeDelivers(system, keep);
    case DoDelete(chat) => DeleteDelivers(system, chat);
  }

  /** A step of the store, whatever it is, keeps delivery going exactly when it is allowed. */
  lemma StepDelivers(system: System, step: Step, after: System)
    requires Delivering(system) && Stepped(system, step, after)
    ensures Delivering(after) <==> Allowed(system, step)
  {
    if step.DoCommit? {
      CommitStepDelivers(system, step, after);
    } else if step.DoAcknowledge? || step.DoAcknowledgeAny? || step.DoPurge? || step.DoDelete? {
      MaintenanceDelivers(system, step, after);
    } else {
      OtherStepDelivers(system, step, after);
    }
  }

  lemma NextDelivers(states: seq<System>, actions: seq<Action>, i: nat)
    requires SystemRun(states, actions) && i < |actions| && Delivering(states[i])
    ensures Delivering(states[i + 1])
  {
    assert ActsAt(states, actions, i);
    match actions[i]
    case StoreAction(step) => StepDelivers(states[i], step, states[i + 1]);
    case Poll(limit) =>
      var page :| Polled(states[i], limit, page, states[i + 1]);
      PollIsNext(states[i], limit, page, states[i + 1]);
  }

  /** In every run from the empty store, what the consumer has seen is exactly the
      first entries ever committed, in commit order, each once; the rest is waiting
      undelivered; and the i-th entry ever committed got cursor i + 1, so that no
      cursor is ever given out twice. */
  lemma {:induction false} ConsumerSeesTheLog(states: seq<System>, actions: seq<Action>, i: nat)
    requires SystemRun(states, actions) && states[0] == System(EMPTY, [], 0, []) && i < |states|
    ensures Delivering(states[i])
  {
    if i > 0 {
      ConsumerSeesTheLog(states, actions, i - 1);
      NextDelivers(states, actions, i - 1);
    } else {
      MaxCursorUnique(map[], MaxCursor(map[]), 0);
    }
  }

  /** A poll that returns nothing has nothing left to return. */
  lemma EmptyPollMeansDone(system: System, limit: nat, after: System)
    requires Delivering(system) && Polled(system, limit, [], after)
    ensures system.seen == system.log
  {
    PollIsNext(system, limit, [], after);
  }

  // -------------------------------------------------- when a cursor can be given again

  ghost predicate IsNewest(outbox: map<Id, OutboxRow>, newest: Id) {
    newest in outbox && forall id :: id in outbox && id != newest ==> outbox[id].cursor < outbox[newest].cursor
  }

  /** In a reachable outbox some row is the newest, unless it is empty. */
  lemma NewestExists(db: Db)
    requires Valid(db) && db.outbox != map[]
    ensures exists id :: IsNewest(db.outbox, id)
  {
    var m := MaxCursor(db.outbox);
    var some :| some in db.outbox;
    var newest :| newest in db.outbox && db.outbox[newest].cursor == m;
    forall id | id in db.outbox && id != newest ensures db.outbox[id].cursor < m {
      assert !SameCursor(db.outbox[id], db.outbox[newest]);
    }
    assert IsNewest(db.outbox, newest);
  }

  /** Every cursor the next commit gives out is above every cursor in the outbox. */
  ghost predicate AllFresh(outbox: map<Id, OutboxRow>, cursors: seq<nat>) {
    forall c, id :: c in cursors && id in outbox ==> outbox[id].cursor < c
  }

  /** After rows were removed, the next cursors are all new exactly when the newest row was kept. */
  lemma FreshExactly(outbox: map<Id, OutboxRow>, newest: Id, kept: map<Id, OutboxRow>, count: nat)
    requires IsNewest(outbox, newest) && outbox[newest].cursor >= 1 && count >= 1
    requires forall id :: id in kept ==> id in outbox && kept[id] == outbox[id]
    ensures AllFresh(outbox, Cursors(MaxCursor(kept), count)) <==> newest in kept
  {
    MaxCursorUnique(outbox, MaxCursor(outbox), outbox[newest].cursor);
    var cursors := Cursors(MaxCursor(kept), count);
    if newest in kept {
      NewestKept(outbox, kept);
    } else {
      assert cursors[0] == MaxCursor(kept) + 1 && cursors[0] in cursors;
    }
  }

  lemma PurgeKeepsRow(db: Db, keep: nat, newest: Id)
    requires newest in db.outbox && db.outbox[newest].cursor == MaxCursor(db.outbox) >= 1
    ensures newest in Purged(db, keep).outbox <==> keep >= 1 || !db.outbox[newest].delivered
  {
  }

  /** After a purge the next commit gives out only new cursors exactly when the purge
      was told to keep a row, or the newest row is undelivered. */
  lemma FreshAfterPurge(db: Db, keep: nat, newest: Id, objects: Objects, batch: Batch, enforce: bool, t: Transaction)
    requires OutboxLive(db.streams, db.outbox) && IsNewest(db.outbox, newest)
    requires Applied(Purged(db, keep), objects, batch, enforce, t) && batch.outbox != []
    ensures AllFresh(db.outbox, t.cursors) <==> keep >= 1 || !db.outbox[newest].delivered
  {
    MaxCursorUnique(db.outbox, MaxCursor(db.outbox), db.outbox[newest].cursor);
    FreshExactly(db.outbox, newest, Purged(db, keep).outbox, |batch.outbox|);
    PurgeKeepsRow(db, keep, newest);
  }

  /** After a deletion it does exactly when the newest row is another chat's. */
  lemma FreshAfterDelete(db: Db, chat: Id, newest: Id, objects: Objects, batch: Batch, enforce: bool, t: Transaction)
    requires OutboxLive(db.streams, db.outbox) && IsNewest(db.outbox, newest)
    requires Applied(StreamDeleted(db, chat), objects, batch, enforce, t) && batch.outbox != []
    ensures AllFresh(db.outbox, t.cursors) <==> db.outbox[newest].stream.chat != chat
  {
    FreshExactly(db.outbox, newest, StreamDeleted(db, chat).outbox, |batch.outbox|);
  }

  // --------------------------------------------------------------- two such runs

  function OnceDelivered(): Store {
    Once().(db := Once().db.(outbox := map["x" := Once().db.outbox["x"].(delivered := true)]))
  }

  function OncePurged(): Store {
    Once().(db := Once().db.(outbox := map[]))
  }

  lemma DeliveredPurged()
    ensures Next(Once(), DoAcknowledge("x", 1), OnceDelivered()) && Next(OnceDelivered(), DoPurge(0), OncePurged())
  {
    var outbox := OnceDelivered().db.outbox;
    assert "x" in outbox;
    MaxCursorUnique(outbox, MaxCursor(outbox), 1);
    assert Purged(OnceDelivered().db, 0).outbox == map[];
  }

  lemma ReusedAfterPurge()
    ensures Next(OncePurged(), DoCommit(Small(1, "f", "y"), true, Answered),
                 OncePurged().(db := SmallDone(OncePurged().db, 1, "f", "y", 1)))
  {
    MaxCursorUnique(map[], MaxCursor(map[]), 0);
    SmallStep(OncePurged(), 1, "f", "y", 0, Answered);
  }

  /** A run that purges everything after one delivery and then hands cursor 1 out again. */
  lemma PurgeRunReusesCursor() returns (states: seq<Store>, steps: seq<Step>)
    ensures Run(states, steps) && states[0] == EMPTY
    ensures steps == [DoCommit(Small(0, "e", "x"), true, Answered), DoAcknowledge("x", 1), DoPurge(0),
                      DoCommit(Small(1, "f", "y"), true, Answered)]
    ensures "x" in states[1].db.outbox && states[1].db.outbox["x"].cursor == 1
    ensures "y" in states[4].db.outbox && states[4].db.outbox["y"].cursor == 1
  {
    states := [EMPTY, Once(), OnceDelivered(), OncePurged()];
    steps := [DoCommit(Small(0, "e", "x"), true, Answered), DoAcknowledge("x", 1), DoPurge(0)];
    PurgedRun(states, steps);
    ReusedAfterPurge();
    var last, after := DoCommit(Small(1, "f", "y"), true, Answered), OncePurged().(db := SmallDone(OncePurged().db, 1, "f", "y", 1));
    RunSnoc(states, steps, last, after);
    states, steps := states + [after], steps + [last];
  }

  lemma PurgedRun(states: seq<Store>, steps: seq<Step>)
    requires states == [EMPTY, Once(), OnceDelivered(), OncePurged()]
    requires steps == [DoCommit(Small(0, "e", "x"), true, Answered), DoAcknowledge("x", 1), DoPurge(0)]
    ensures Run(states, steps)
  {
    FirstRun(states[..2], steps[..1], Answered);
    DeliveredPurged();
    RunSnoc(states[..2], steps[..1], steps[1], states[2]);
    RunSnoc(states[..2] + [states[2]], steps[..1] + [steps[1]], steps[2], states[3]);
    assert states == states[..2] + [states[2]] + [states[3]] && steps == steps[..1] + [steps[1]] + [steps[2]];
  }

  lemma OnceDeleted()
    ensures Next(Once(), DoDelete("c"), EMPTY)
  {
    var deleted := StreamDeleted(Once().db, "c");
    assert deleted.outbox == map[] && deleted.events == map[] && deleted.streams == map[];
  }

  lemma ReusedAfterDelete()
    ensures Next(EMPTY, DoCommit(Small(0, "f", "y"), true, Answered), EMPTY.(db := SmallDone(EMPTY.db, 0, "f", "y", 1)))
  {
    MaxCursorUnique(map[], MaxCursor(map[]), 0);
    SmallStep(EMPTY, 0, "f", "y", 0, Answered);
  }

  /** A run that deletes the chat of the newest row and then hands cursor 1 out again. */
  lemma DeleteRunReusesCursor() returns (states: seq<Store>, steps: seq<Step>)
    ensures Run(states, steps) && states[0] == EMPTY
    ensures steps == [DoCommit(Small(0, "e", "x"), true, Answered), DoDelete("c"), DoCommit(Small(0, "f", "y"), true, Answered)]
    ensures "x" in states[1].db.outbox && states[1].db.outbox["x"].cursor == 1
    ensures "y" in states[3].db.outbox && states[3].db.outbox["y"].cursor == 1
  {
    FirstStep(Answered);
    OnceDeleted();
    ReusedAfterDelete();
    states := [EMPTY, Once(), EMPTY, EMPTY.(db := SmallDone(EMPTY.db, 0, "f", "y", 1))];
    steps := [DoCommit(Small(0, "e", "x"), true, Answered), DoDelete("c"), DoCommit(Small(0, "f", "y"), true, Answered)];
    assert NextAt(states, steps, 0) && NextAt(states, steps, 1) && NextAt(states, steps, 2);
  }
}
