/** What `validate_batch` accepts, and which fault it names when it does not. */
module LedgerValidation {
  import opened Base
  import opened Utf8
  import opened Ledger

  // -------------------------------------------------------------------- one loop

  /** Every item is in order, and their ids are distinct. */
  ghost predicate InOrder<T>(items: seq<T>, check: T -> Check, id: T -> Id) {
    && (forall i :: 0 <= i < |items| ==> check(items[i]).Pass?)
    && (forall i, j :: 0 <= i < j < |items| ==> id(items[i]) != id(items[j]))
  }

  /** After items in order comes one with a fault of its own, or with an id used before. */
  ghost predicate FirstFault<T>(items: seq<T>, check: T -> Check, id: T -> Id, duplicate: StoreError, k: nat, error: StoreError) {
    && k < |items| && InOrder(items[..k], check, id)
    && (check(items[k]) == Fail(error)
        || (check(items[k]).Pass? && error == duplicate && exists j :: 0 <= j < k && id(items[j]) == id(items[k])))
  }

  ghost predicate Seen<T>(items: seq<T>, id: T -> Id, i: nat, seen: set<Id>)
    requires i <= |items|
  {
    forall x :: x in seen <==> exists j :: 0 <= j < i && id(items[j]) == x
  }

  lemma SeenNext<T>(items: seq<T>, id: T -> Id, i: nat, seen: set<Id>)
    requires i < |items| && Seen(items, id, i, seen)
    ensures Seen(items, id, i + 1, seen + {id(items[i])})
  {
    forall x ensures x in seen + {id(items[i])} <==> exists j :: 0 <= j < i + 1 && id(items[j]) == x {
      if x in seen {
        var j :| 0 <= j < i && id(items[j]) == x;
      }
    }
  }

  /** An answer is right: it passes items in order, and names a first fault of others. */
  ghost predicate Judges<T>(r: Check, items: seq<T>, check: T -> Check, id: T -> Id, duplicate: StoreError) {
    if r.Pass? then InOrder(items, check, id)
    else exists k: nat :: FirstFault(items, check, id, duplicate, k, r.error)
  }

  lemma FaultHere<T>(items: seq<T>, check: T -> Check, id: T -> Id, duplicate: StoreError, i: nat, seen: set<Id>)
    requires i < |items| && InOrder(items[..i], check, id) && Seen(items, id, i, seen)
    requires check(items[i]).Fail? || id(items[i]) in seen
    ensures Judges(CheckItems(items[i..], check, id, duplicate, seen), items, check, id, duplicate)
  {
    var r := CheckItems(items[i..], check, id, duplicate, seen);
    assert items[i..][0] == items[i];
    assert r.Fail? && FirstFault(items, check, id, duplicate, i, r.error);
  }

  lemma {:induction false} LoopFrom<T>(items: seq<T>, check: T -> Check, id: T -> Id, duplicate: StoreError, i: nat, seen: set<Id>)
    requires i <= |items| && InOrder(items[..i], check, id) && Seen(items, id, i, seen)
    ensures Judges(CheckItems(items[i..], check, id, duplicate, seen), items, check, id, duplicate)
    decreases |items| - i
  {
    if i == |items| {
      assert items[..i] == items;
    } else if check(items[i]).Fail? || id(items[i]) in seen {
      FaultHere(items, check, id, duplicate, i, seen);
    } else {
      var more := seen + {id(items[i])};
      assert items[i..][1..] == items[i + 1..];
      SeenNext(items, id, i, seen);
      LoopFrom(items, check, id, duplicate, i + 1, more);
      assert CheckItems(items[i..], check, id, duplicate, seen) == CheckItems(items[i + 1..], check, id, duplicate, more);
    }
  }

  lemma FaultExcludes<T>(items: seq<T>, check: T -> Check, id: T -> Id, duplicate: StoreError, k: nat, error: StoreError)
    requires FirstFault(items, check, id, duplicate, k, error)
    ensures !InOrder(items, check, id)
  {
  }

  /** A loop passes exactly on items in order, and otherwise names the first fault. */
  lemma LoopExactly<T>(items: seq<T>, check: T -> Check, id: T -> Id, duplicate: StoreError)
    ensures var r := CheckItems(items, check, id, duplicate, {});
            Judges(r, items, check, id, duplicate) && (r.Pass? <==> InOrder(items, check, id))
  {
    assert items[0..] == items && items[..0] == [];
    LoopFrom(items, check, id, duplicate, 0, {});
    var r := CheckItems(items, check, id, duplicate, {});
    if r.Fail? {
      var k: nat :| FirstFault(items, check, id, duplicate, k, r.error);
      FaultExcludes(items, check, id, duplicate, k, r.error);
    }
  }

  // ------------------------------------------------------------------ a whole batch

  /** Between 1 and 256 bytes without a zero. */
  ghost predicate SoundText(text: string) {
    1 <= |Encode(text)| <= 256 && '\0' !in text
  }

  lemma TextsExactly(text: string)
    ensures ValidText(text) <==> SoundText(text)
  {
    EncodedLength(text);
  }

  /** Sound events, no two of them with one id. */
  ghost predicate SoundEvents(events: seq<Event>) {
    && (forall e :: e in events ==> e.schemaVersion == 1 && SoundText(e.kind) && !e.payload.holdsSecret)
    && (forall i, j :: 0 <= i < j < |events| ==> events[i].id != events[j].id)
  }

  ghost predicate SoundAttempts(attempts: seq<Attempt>) {
    && (forall a :: a in attempts ==> SoundText(a.outcome))
    && (forall i, j :: 0 <= i < j < |attempts| ==> attempts[i].id != attempts[j].id)
  }

  ghost predicate SoundOutbox(outbox: seq<OutboxEntry>) {
    && (forall o :: o in outbox ==> o.schemaVersion == 1 && SoundText(o.destination) && !o.payload.holdsSecret)
    && (forall i, j :: 0 <= i < j < |outbox| ==> outbox[i].id != outbox[j].id)
  }

  ghost predicate SoundArtifacts(artifacts: seq<ArtifactRef>) {
    && (forall a :: a in artifacts ==> a.size <= I64_MAX && a.generation <= I64_MAX)
    && (forall i, j :: 0 <= i < j < |artifacts| ==> artifacts[i].token != artifacts[j].token)
  }

  ghost predicate SoundTexts(batch: Batch) {
    && (batch.checkpoint.Some? ==> SoundText(batch.checkpoint.value.reducer) && SoundText(batch.checkpoint.value.stateHash))
    && (batch.dedup.Some? ==> SoundText(batch.dedup.value.keyType))
  }

  ghost predicate SoundBatch(batch: Batch) {
    && batch.backend.LocalSqlite?
    && batch.expectedHead <= I64_MAX && batch.expectedAggregate <= I64_MAX && batch.events != []
    && SoundEvents(batch.events) && SoundAttempts(batch.attempts) && SoundTexts(batch)
    && SoundOutbox(batch.outbox) && SoundArtifacts(batch.artifacts)
  }

  lemma EventsInOrder(events: seq<Event>)
    ensures InOrder(events, CheckEvent, EventId) <==> SoundEvents(events)
  {
    forall e | e in events ensures CheckEvent(e).Pass? <==> e.schemaVersion == 1 && SoundText(e.kind) && !e.payload.holdsSecret {
      TextsExactly(e.kind);
    }
  }

  lemma AttemptsInOrder(attempts: seq<Attempt>)
    ensures InOrder(attempts, CheckAttempt, AttemptId) <==> SoundAttempts(attempts)
  {
    forall a | a in attempts ensures CheckAttempt(a).Pass? <==> SoundText(a.outcome) {
      TextsExactly(a.outcome);
    }
  }

  lemma OutboxInOrder(outbox: seq<OutboxEntry>)
    ensures InOrder(outbox, CheckEntry, EntryId) <==> SoundOutbox(outbox)
  {
    forall o | o in outbox
      ensures CheckEntry(o).Pass? <==> o.schemaVersion == 1 && SoundText(o.destination) && !o.payload.holdsSecret
    {
      TextsExactly(o.destination);
    }
  }

  lemma ArtifactsInOrder(artifacts: seq<ArtifactRef>)
    ensures InOrder(artifacts, CheckReference, TokenId) <==> SoundArtifacts(artifacts)
  {
  }

  lemma LoopsExactly(batch: Batch)
    ensures CheckItems(batch.events, CheckEvent, EventId, DuplicateEventInBatch, {}).Pass? <==> SoundEvents(batch.events)
    ensures CheckItems(batch.attempts, CheckAttempt, AttemptId, DuplicateAttemptInBatch, {}).Pass? <==> SoundAttempts(batch.attempts)
    ensures CheckItems(batch.outbox, CheckEntry, EntryId, DuplicateOutboxInBatch, {}).Pass? <==> SoundOutbox(batch.outbox)
    ensures CheckItems(batch.artifacts, CheckReference, TokenId, DuplicateArtifactTokenInBatch, {}).Pass?
       <==> SoundArtifacts(batch.artifacts)
  {
    LoopExactly(batch.events, CheckEvent, EventId, DuplicateEventInBatch);
    LoopExactly(batch.attempts, CheckAttempt, AttemptId, DuplicateAttemptInBatch);
    LoopExactly(batch.outbox, CheckEntry, EntryId, DuplicateOutboxInBatch);
    LoopExactly(batch.artifacts, CheckReference, TokenId, DuplicateArtifactTokenInBatch);
    EventsInOrder(batch.events);
    AttemptsInOrder(batch.attempts);
    OutboxInOrder(batch.outbox);
    ArtifactsInOrder(batch.artifacts);
  }

  lemma TextFieldsExactly(batch: Batch)
    ensures batch.checkpoint.Some? ==>
              && (ValidText(batch.checkpoint.value.reducer) <==> SoundText(batch.checkpoint.value.reducer))
              && (ValidText(batch.checkpoint.value.stateHash) <==> SoundText(batch.checkpoint.value.stateHash))
    ensures batch.dedup.Some? ==> (ValidText(batch.dedup.value.keyType) <==> SoundText(batch.dedup.value.keyType))
  {
    if batch.checkpoint.Some? {
      TextsExactly(batch.checkpoint.value.reducer);
      TextsExactly(batch.checkpoint.value.stateHash);
    }
    if batch.dedup.Some? {
      TextsExactly(batch.dedup.value.keyType);
    }
  }

  /** A batch is accepted exactly when it is sound in every part. */
  lemma ValidateExactly(batch: Batch)
    ensures Validate(batch).Pass? <==> SoundBatch(batch)
  {
    LoopsExactly(batch);
    TextFieldsExactly(batch);
  }

  // ----------------------------------------------------------------- which fault

  ghost predicate EventsFault(batch: Batch, error: StoreError) {
    exists k: nat :: FirstFault(batch.events, CheckEvent, EventId, DuplicateEventInBatch, k, error)
  }

  ghost predicate AttemptsFault(batch: Batch, error: StoreError) {
    exists k: nat :: FirstFault(batch.attempts, CheckAttempt, AttemptId, DuplicateAttemptInBatch, k, error)
  }

  ghost predicate OutboxFault(batch: Batch, error: StoreError) {
    exists k: nat :: FirstFault(batch.outbox, CheckEntry, EntryId, DuplicateOutboxInBatch, k, error)
  }

  ghost predicate ArtifactsFault(batch: Batch, error: StoreError) {
    exists k: nat :: FirstFault(batch.artifacts, CheckReference, TokenId, DuplicateArtifactTokenInBatch, k, error)
  }

  /** The parts of a batch are judged in this order, and the first bad one is named. */
  ghost predicate Named(batch: Batch, error: StoreError) {
    if !batch.backend.LocalSqlite? then error == WrongHistoryBackend
    else if batch.expectedHead > I64_MAX || batch.expectedAggregate > I64_MAX then error == InvalidStoredData
    else if batch.events == [] then error == InvalidEventBatch
    else if !SoundEvents(batch.events) then EventsFault(batch, error)
    else if !SoundAttempts(batch.attempts) then AttemptsFault(batch, error)
    else if !SoundTexts(batch) then error == InvalidText
    else if !SoundOutbox(batch.outbox) then OutboxFault(batch, error)
    else ArtifactsFault(batch, error)
  }

  lemma ValidateNames(batch: Batch)
    ensures Validate(batch).Fail? ==> Named(batch, Validate(batch).error)
  {
    LoopExactly(batch.events, CheckEvent, EventId, DuplicateEventInBatch);
    LoopExactly(batch.attempts, CheckAttempt, AttemptId, DuplicateAttemptInBatch);
    LoopExactly(batch.outbox, CheckEntry, EntryId, DuplicateOutboxInBatch);
    LoopExactly(batch.artifacts, CheckReference, TokenId, DuplicateArtifactTokenInBatch);
    LoopsExactly(batch);
    TextFieldsExactly(batch);
  }

  /** What the own fault of an event or an outbox entry is called, in the order it is looked for. */
  lemma FaultsNamed(e: Event, o: OutboxEntry)
    ensures CheckEvent(e) == if e.schemaVersion != 1 then Fail(UnsupportedSchemaVersion(e.schemaVersion))
                             else if !SoundText(e.kind) then Fail(InvalidText)
                             else if e.payload.holdsSecret then Fail(ForbiddenSecretMaterial)
                             else Pass
    ensures CheckEntry(o) == if o.schemaVersion != 1 then Fail(UnsupportedSchemaVersion(o.schemaVersion))
                             else if !SoundText(o.destination) then Fail(InvalidText)
                             else if o.payload.holdsSecret then Fail(ForbiddenSecretMaterial)
                             else Pass
  {
    TextsExactly(e.kind);
    TextsExactly(o.destination);
  }
}
