/** The smallest commits, from which concrete runs are put together. */
module SmallRuns {
  import opened Base
  import opened Tables
  import opened Utf8
  import opened Ledger
  import opened LedgerValidation
  import opened LedgerInvariant
  import opened LocalHistoryStores
  import opened Artifacts
  import opened StoreRuns

  const CHAT := StreamKey("c", "b")

  /** A batch of one event and one outbox entry. */
  function Small(head: nat, event: Id, entry: Id): Batch {
    Batch(LocalSqlite, "c", "r", "b", head, head, [Event(event, 1, "k", Payload("", false))], [], None, None,
          [OutboxEntry(entry, "d", 1, Payload("", false))], [])
  }

  lemma SmallIsValid(head: nat, event: Id, entry: Id)
    requires head <= I64_MAX
    ensures Validate(Small(head, event, entry)).Pass?
  {
    var batch := Small(head, event, entry);
    SoundAscii("k");
    SoundAscii("d");
    ValidateExactly(batch);
  }

  lemma SoundAscii(text: string)
    requires |text| == 1 && 0 < text[0] as int < 0x80
    ensures SoundText(text)
  {
    assert text[1..] == [];
    assert Encode(text) == EncodeChar(text[0]) + Encode(text[1..]);
  }

  /** The tables after such a batch. */
  function SmallDone(db: Db, head: nat, event: Id, entry: Id, cursor: nat): Db {
    var batch := Small(head, event, entry);
    db.(streams := db.streams[CHAT := Stream("r", head + 1, head + 1)],
        events := db.events[event := EventRow(CHAT, head + 1, batch.events[0])],
        outbox := db.outbox[entry := OutboxRow(CHAT, head + 1, cursor, batch.outbox[0], OfText(""), false)])
  }

  lemma SmallCommits(db: Db, objects: Objects, head: nat, event: Id, entry: Id, last: nat)
    requires !db.quarantined && head < 2 && HeadOf(db, CHAT) == AggregateOf(db, CHAT) == head
    requires CHAT in db.streams ==> db.streams[CHAT].run == "r"
    requires event !in db.events && (forall id :: id in db.events ==> db.events[id].sequence <= head)
    requires entry !in db.outbox && MaxCursor(db.outbox) == last < 2
    ensures Committing(db, objects, Small(head, event, entry), true)
            == Ok(Commit(SmallDone(db, head, event, entry, last + 1), Committed(ReceiptFor(Small(head, event, entry), head + 1))))
  {
    SmallIsValid(head, event, entry);
    SmallEvents(db, head, event, entry);
    SmallOutbox(db, head, event, entry, last);
    AllRowsFit(db, Small(head, event, entry), last);
  }

  lemma SmallEvents(db: Db, head: nat, event: Id, entry: Id)
    requires event !in db.events && (forall id :: id in db.events ==> db.events[id].sequence <= head)
    ensures var batch := Small(head, event, entry);
            && EventsAfter(db, batch) == Some(db.events[event := EventRow(CHAT, head + 1, batch.events[0])])
            && AttemptsAfter(db, batch) == Some(db.attempts)
  {
    var batch := Small(head, event, entry);
    OneInserted(db.events, event, EventRow(CHAT, head + 1, batch.events[0]), SameSequence);
    assert EventIds(batch.events) == [event];
    assert EventRows(CHAT, head, batch.events) == [EventRow(CHAT, head + 1, batch.events[0])];
    assert AttemptIds(batch.attempts) == [] && AttemptRows(CHAT, batch.attempts) == [];
  }

  lemma SmallOutbox(db: Db, head: nat, event: Id, entry: Id, last: nat)
    requires entry !in db.outbox && MaxCursor(db.outbox) == last
    ensures var batch := Small(head, event, entry);
            OutboxAfter(db, batch, last)
            == Some(db.outbox[entry := OutboxRow(CHAT, head + 1, last + 1, batch.outbox[0], OfText(""), false)])
  {
    var batch := Small(head, event, entry);
    var row := OutboxRow(CHAT, head + 1, last + 1, batch.outbox[0], OfText(""), false);
    OneInserted(db.outbox, entry, row, SameCursor);
    assert OutboxIds(batch.outbox) == [entry] && OutboxRows(CHAT, head + 1, last, batch.outbox) == [row];
  }

  lemma OneInserted<K(!new), V>(table: map<K, V>, key: K, row: V, clash: (V, V) -> bool)
    requires !Refused(table, key, row, clash)
    ensures Inserted(table, [key], [row], clash) == Some(table[key := row])
  {
  }

  lemma SmallStep(s: Store, head: nat, event: Id, entry: Id, last: nat, fate: Fate)
    requires fate != Lost(false) && !s.db.quarantined && head < 2 && HeadOf(s.db, CHAT) == AggregateOf(s.db, CHAT) == head
    requires CHAT in s.db.streams ==> s.db.streams[CHAT].run == "r"
    requires event !in s.db.events && (forall id :: id in s.db.events ==> s.db.events[id].sequence <= head)
    requires entry !in s.db.outbox && MaxCursor(s.db.outbox) == last < 2
    ensures Next(s, DoCommit(Small(head, event, entry), true, fate), s.(db := SmallDone(s.db, head, event, entry, last + 1)))
  {
    SmallCommits(s.db, s.objects, head, event, entry, last);
  }

  /** The store after its first commit. */
  function Once(): Store {
    EMPTY.(db := SmallDone(EMPTY.db, 0, "e", "x", 1))
  }

  lemma FirstStep(fate: Fate)
    requires fate != Lost(false)
    ensures Next(EMPTY, DoCommit(Small(0, "e", "x"), true, fate), Once())
  {
    MaxCursorUnique(map[], MaxCursor(map[]), 0);
    SmallStep(EMPTY, 0, "e", "x", 0, fate);
  }

  lemma FirstRun(states: seq<Store>, steps: seq<Step>, fate: Fate)
    requires fate != Lost(false) && states == [EMPTY, Once()] && steps == [DoCommit(Small(0, "e", "x"), true, fate)]
    ensures Run(states, steps)
  {
    FirstStep(fate);
    assert NextAt(states, steps, 0);
  }

  lemma RunSnoc(states: seq<Store>, steps: seq<Step>, step: Step, after: Store)
    requires Run(states, steps) && Next(states[|steps|], step, after)
    ensures Run(states + [after], steps + [step])
  {
    forall i: nat | i < |steps| + 1 ensures NextAt(states + [after], steps + [step], i) {
      if i < |steps| {
        assert NextAt(states, steps, i);
      }
    }
  }
}
