/** Commits whose answer was lost, checked later: the check takes a new connection under
    the shared lease only, so other commits, acknowledgements and artifact work may run
    between a commit and its check. Purges, deletions and pruning cannot. */
module UncertainCommits {
  import opened Base
  import opened Tables
  import opened Ledger
  import opened LedgerInvariant
  import opened LedgerVerify
  import opened LedgerHistory
  import opened LocalHistoryStores
  import opened Artifacts
  import opened StoreRuns
  import opened SmallRuns

  /** Everything but the operations that take the exclusive lease. */
  predicate Shared(step: Step) {
    !step.DoPurge? && !step.DoDelete? && !step.DoPrune?
  }

  // ------------------------------------------------- what shared steps never take away

  ghost predicate Grows<K(!new), V>(a: map<K, V>, b: map<K, V>) {
    forall k :: k in a ==> k in b && b[k] == a[k]
  }

  ghost predicate HeadsGrow(a: map<StreamKey, Stream>, b: map<StreamKey, Stream>) {
    forall k :: k in a ==> k in b && a[k].head <= b[k].head
  }

  /** An outbox row keeps everything but its `delivered` mark. */
  ghost predicate OutboxGrows(a: map<Id, OutboxRow>, b: map<Id, OutboxRow>) {
    forall id :: id in a ==> id in b && b[id].(delivered := false) == a[id].(delivered := false)
  }

  ghost predicate Held(s: Store, ref: ArtifactRef) {
    Finalized(s.db.staging, ref) && ObjectIntact(s.objects, ref.hash, ref.size)
  }

  ghost predicate HeldGrows(s: Store, after: Store) {
    forall ref :: Held(s, ref) ==> Held(after, ref)
  }

  ghost predicate Kept(s: Store, after: Store) {
    && HeadsGrow(s.db.streams, after.db.streams) && Grows(s.db.events, after.db.events)
    && Grows(s.db.attempts, after.db.attempts) && Grows(s.db.checkpoints, after.db.checkpoints)
    && Grows(s.db.dedup, after.db.dedup) && OutboxGrows(s.db.outbox, after.db.outbox)
    && HeldGrows(s, after)
  }

  lemma KeptTransitive(a: Store, b: Store, c: Store)
    requires Kept(a, b) && Kept(b, c)
    ensures Kept(a, c)
  {
  }

  lemma FinalizeOneHolds(staging: Staging, objects: Objects, events: seq<Id>, ref: ArtifactRef, other: ArtifactRef)
    requires FinalizeOne(staging, objects, events, ref).Ok? && Finalized(staging, other)
    ensures Finalized(FinalizeOne(staging, objects, events, ref).value, other)
  {
  }

  lemma {:induction false} FinalizeAllHolds(staging: Staging, objects: Objects, events: seq<Id>, refs: seq<ArtifactRef>,
                                            other: ArtifactRef)
    requires FinalizeAll(staging, objects, events, refs).Ok? && Finalized(staging, other)
    ensures Finalized(FinalizeAll(staging, objects, events, refs).value, other)
    decreases |refs|
  {
    if refs != [] {
      FinalizeOneHolds(staging, objects, events, refs[0], other);
      FinalizeAllHolds(FinalizeOne(staging, objects, events, refs[0]).value, objects, events, refs[1..], other);
    }
  }

  lemma CommitKeeps(s: Store, batch: Batch, enforce: bool, t: Transaction)
    requires Applied(s.db, s.objects, batch, enforce, t)
    ensures Kept(s, s.(db := t.db))
  {
    EventsExtended(s.db, batch);
    AttemptsExtended(s.db, batch);
    OutboxExtended(s.db, batch, MaxCursor(s.db.outbox));
    forall ref | Held(s, ref) ensures Held(s.(db := t.db), ref) {
      FinalizeAllHolds(s.db.staging, s.objects, EventIds(batch.events), batch.artifacts, ref);
    }
  }

  /** Two states with the same tables, but for delivery marks and artifacts. */
  ghost predicate SameTables(db: Db, after: Db) {
    && after.streams == db.streams && after.events == db.events && after.attempts == db.attempts
    && after.checkpoints == db.checkpoints && after.dedup == db.dedup
    && OutboxGrows(db.outbox, after.outbox) && after.outbox.Keys == db.outbox.Keys
  }

  lemma DeliveryMarked(db: Db, id: Id)
    requires id in db.outbox
    ensures SameTables(db, db.(outbox := db.outbox[id := db.outbox[id].(delivered := true)]))
  {
  }

  lemma PrepareStages(s: Store, upload: Upload, token: Id, now: nat, after: Store, r: Result<ArtifactToken>)
    requires PrepareStep(s, upload, token, now, after, r)
    ensures after.db == s.db.(staging := after.db.staging)
  {
  }

  lemma ArtifactWorkSame(s: Store, step: Step, after: Store)
    requires Next(s, step, after)
    requires ArtifactWork(step)
    ensures after.db == s.db.(staging := after.db.staging)
  {
    if step.DoPrepare? {
      var r :| PrepareStep(s, step.upload, step.token, step.now, after, r);
      PrepareStages(s, step.upload, step.token, step.now, after, r);
    }
  }

  lemma OtherTablesSame(s: Store, step: Step, after: Store)
    requires Next(s, step, after) && Shared(step) && !step.DoCommit?
    ensures SameTables(s.db, after.db)
  {
    match step
    case DoVerify(_, _, _) =>
    case DoAcknowledge(id, cursor) =>
      if Acknowledged(s.db, id, cursor).Ok? { DeliveryMarked(s.db, id); }
    case DoAcknowledgeAny(id) =>
      if AcknowledgedAny(s.db, id).Ok? { DeliveryMarked(s.db, id); }
    case _ => ArtifactWorkSame(s, step, after);
  }

  lemma PrepareHolds(s: Store, upload: Upload, token: Id, now: nat, after: Store, r: Result<ArtifactToken>, ref: ArtifactRef)
    requires PrepareStep(s, upload, token, now, after, r) && Held(s, ref)
    ensures Held(after, ref)
  {
  }

  lemma OtherStepHolds(s: Store, step: Step, after: Store, ref: ArtifactRef)
    requires Next(s, step, after) && Shared(step) && !step.DoCommit? && Held(s, ref)
    ensures Held(after, ref)
  {
    if step.DoPrepare? {
      var r :| PrepareStep(s, step.upload, step.token, step.now, after, r);
      PrepareHolds(s, step.upload, step.token, step.now, after, r, ref);
    } else if step.RemoveOrphan? {
      assert Used(s.db.staging, s.db.staging.artifacts[ref.artifact].hash);
    }
  }

  lemma StepKeeps(s: Store, step: Step, after: Store)
    requires Next(s, step, after) && Shared(step)
    ensures Kept(s, after)
  {
    if step.DoCommit? {
      CommitEffect(s, step, after);
      if TookEffect(s, step) {
        var t :| Applied(s.db, s.objects, step.batch, step.enforce, t) && after.db == t.db;
        CommitKeeps(s, step.batch, step.enforce, t);
      }
    } else {
      OtherTablesSame(s, step, after);
      forall ref | Held(s, ref) ensures Held(after, ref) {
        OtherStepHolds(s, step, after, ref);
      }
    }
  }

  ghost predicate AllShared(steps: seq<Step>, i: nat, j: nat) {
    j <= |steps| && forall k: nat :: i <= k < j ==> Shared(steps[k])
  }

  lemma SharedLater(steps: seq<Step>, i: nat, j: nat)
    requires i < j && AllShared(steps, i, j)
    ensures AllShared(steps, i + 1, j)
  {
  }

  lemma {:induction false} RunKeeps(states: seq<Store>, steps: seq<Step>, i: nat, j: nat)
    requires Run(states, steps) && i <= j && AllShared(steps, i, j)
    ensures Kept(states[i], states[j])
    decreases j
  {
    if i < j {
      RunKeeps(states, steps, i, j - 1);
      assert NextAt(states, steps, j - 1);
      StepKeeps(states[j - 1], steps[j - 1], states[j]);
      KeptTransitive(states[i], states[j - 1], states[j]);
    }
  }

  // ------------------------------------------------------------- commits in between

  /** One batch writes into the stream, under the key or under an id of another. */
  ghost predicate Touches(other: Batch, batch: Batch) {
    || other.Key() == batch.Key()
    || (batch.dedup.Some? && other.dedup == batch.dedup)
    || SharesEvent(other, batch) || SharesOutbox(other, batch)
  }

  ghost predicate SharesEvent(other: Batch, batch: Batch) {
    exists e, f :: e in other.events && f in batch.events && e.id == f.id
  }

  ghost predicate SharesOutbox(other: Batch, batch: Batch) {
    exists o, p :: o in other.outbox && p in batch.outbox && o.id == p.id
  }

  ghost predicate TouchedAt(states: seq<Store>, steps: seq<Step>, k: nat, batch: Batch)
    requires Run(states, steps) && k < |steps|
  {
    TookEffect(states[k], steps[k]) && Touches(steps[k].batch, batch)
  }

  /** A commit between two states wrote something of the batch. */
  ghost predicate Touched(states: seq<Store>, steps: seq<Step>, i: nat, j: nat, batch: Batch)
    requires Run(states, steps) && j <= |steps|
  {
    exists k: nat :: i <= k < j && TouchedAt(states, steps, k, batch)
  }

  ghost predicate OnStreamAt(states: seq<Store>, steps: seq<Step>, k: nat, key: StreamKey)
    requires Run(states, steps) && k < |steps|
  {
    TookEffect(states[k], steps[k]) && steps[k].batch.Key() == key
  }

  /** A commit between two states wrote into the stream. */
  ghost predicate OnStream(states: seq<Store>, steps: seq<Step>, i: nat, j: nat, key: StreamKey)
    requires Run(states, steps) && j <= |steps|
  {
    exists k: nat :: i <= k < j && OnStreamAt(states, steps, k, key)
  }

  // ------------------------------------------------------------ lost and not applied

  /** Nothing of the batch is in the tables, and its stream is as it was. */
  ghost predicate Untouched(was: Db, db: Db, batch: Batch) {
    && SameRow(was.streams, db.streams, batch.Key())
    && (forall e :: e in batch.events ==> e.id !in db.events)
    && (forall o :: o in batch.outbox ==> o.id !in db.outbox)
    && (batch.dedup.Some? ==> batch.dedup.value !in db.dedup)
  }

  ghost predicate SameRow<K, V>(a: map<K, V>, b: map<K, V>, k: K) {
    (k in a <==> k in b) && (k in a ==> a[k] == b[k])
  }

  /** Something of the batch is in the tables, or its stream has gone on. */
  ghost predicate Evident(db: Db, batch: Batch) {
    || HeadOf(db, batch.Key()) > batch.expectedHead
    || (exists e :: e in batch.events && e.id in db.events)
    || (exists o :: o in batch.outbox && o.id in db.outbox)
    || DedupPresent(db, batch)
  }

  lemma EventIdsAre(events: seq<Event>, id: Id)
    ensures id in EventIds(events) <==> exists e :: e in events && e.id == id
  {
    if id in EventIds(events) {
      var i :| 0 <= i < |events| && EventIds(events)[i] == id;
      assert events[i] in events;
    }
    if e :| e in events && e.id == id {
      var i :| 0 <= i < |events| && events[i] == e;
      assert EventIds(events)[i] == id;
    }
  }

  lemma OutboxIdsAre(outbox: seq<OutboxEntry>, id: Id)
    ensures id in OutboxIds(outbox) <==> exists o :: o in outbox && o.id == id
  {
    if id in OutboxIds(outbox) {
      var i :| 0 <= i < |outbox| && OutboxIds(outbox)[i] == id;
      assert outbox[i] in outbox;
    }
    if o :| o in outbox && o.id == id {
      var i :| 0 <= i < |outbox| && outbox[i] == o;
      assert OutboxIds(outbox)[i] == id;
    }
  }

  /** The ids in the tables after another commit. */
  lemma IdsAfter(db: Db, objects: Objects, other: Batch, enforce: bool, t: Transaction)
    requires Applied(db, objects, other, enforce, t)
    ensures forall id :: id in t.db.events <==> id in db.events || exists e :: e in other.events && e.id == id
    ensures forall id :: id in t.db.outbox <==> id in db.outbox || exists o :: o in other.outbox && o.id == id
  {
    EventsExtended(db, other);
    OutboxExtended(db, other, MaxCursor(db.outbox));
    forall id ensures id in t.db.events <==> id in db.events || exists e :: e in other.events && e.id == id {
      EventIdsAre(other.events, id);
    }
    forall id ensures id in t.db.outbox <==> id in db.outbox || exists o :: o in other.outbox && o.id == id {
      OutboxIdsAre(other.outbox, id);
    }
  }

  lemma CommitUntouched(was: Db, db: Db, objects: Objects, other: Batch, enforce: bool, t: Transaction, batch: Batch)
    requires Applied(db, objects, other, enforce, t) && Untouched(was, db, batch) && !Touches(other, batch)
    ensures Untouched(was, t.db, batch)
  {
    IdsAfter(db, objects, other, enforce, t);
  }

  lemma StepUntouched(was: Db, s: Store, step: Step, after: Store, batch: Batch)
    requires Next(s, step, after) && Shared(step) && Untouched(was, s.db, batch)
    requires TookEffect(s, step) ==> !Touches(step.batch, batch)
    ensures Untouched(was, after.db, batch)
  {
    if step.DoCommit? {
      CommitEffect(s, step, after);
      if TookEffect(s, step) {
        var t :| Applied(s.db, s.objects, step.batch, step.enforce, t) && after.db == t.db;
        CommitUntouched(was, s.db, s.objects, step.batch, step.enforce, t, batch);
      }
    } else {
      OtherTablesSame(s, step, after);
    }
  }

  lemma NotTouchedBefore(states: seq<Store>, steps: seq<Step>, i: nat, j: nat, batch: Batch)
    requires Run(states, steps) && i < j <= |steps| && !Touched(states, steps, i, j, batch)
    ensures !Touched(states, steps, i, j - 1, batch) && !TouchedAt(states, steps, j - 1, batch)
  {
  }

  lemma {:induction false} RunUntouched(states: seq<Store>, steps: seq<Step>, i: nat, j: nat, batch: Batch)
    requires Run(states, steps) && i <= j && AllShared(steps, i, j)
    requires Untouched(states[i].db, states[i].db, batch) && !Touched(states, steps, i, j, batch)
    ensures Untouched(states[i].db, states[j].db, batch)
    decreases j
  {
    if i < j {
      NotTouchedBefore(states, steps, i, j, batch);
      RunUntouched(states, steps, i, j - 1, batch);
      assert NextAt(states, steps, j - 1);
      StepUntouched(states[i].db, states[j - 1], steps[j - 1], states[j], batch);
    }
  }

  /** A commit that touches the batch leaves evidence of it. */
  lemma TouchEvident(db: Db, objects: Objects, other: Batch, enforce: bool, t: Transaction, batch: Batch)
    requires Applied(db, objects, other, enforce, t) && Touches(other, batch)
    requires HeadOf(db, batch.Key()) >= batch.expectedHead
    ensures Evident(t.db, batch)
  {
    IdsAfter(db, objects, other, enforce, t);
    if SharesEvent(other, batch) {
      var e, f :| e in other.events && f in batch.events && e.id == f.id;
      assert f.id in t.db.events;
    } else if SharesOutbox(other, batch) {
      var o, p :| o in other.outbox && p in batch.outbox && o.id == p.id;
      assert p.id in t.db.outbox;
    }
  }

  lemma EvidenceKept(s: Store, after: Store, batch: Batch)
    requires Kept(s, after) && Evident(s.db, batch)
    ensures Evident(after.db, batch)
  {
  }

  lemma StepEvident(s: Store, step: Step, after: Store, batch: Batch)
    requires Next(s, step, after) && TookEffect(s, step) && Touches(step.batch, batch)
    requires HeadOf(s.db, batch.Key()) >= batch.expectedHead
    ensures Evident(after.db, batch)
  {
    CommitEffect(s, step, after);
    var t :| Applied(s.db, s.objects, step.batch, step.enforce, t) && after.db == t.db;
    TouchEvident(s.db, s.objects, step.batch, step.enforce, t, batch);
  }

  lemma HeadKept(s: Store, after: Store, key: StreamKey)
    requires Kept(s, after)
    ensures HeadOf(s.db, key) <= HeadOf(after.db, key)
  {
  }

  lemma TouchedEvident(states: seq<Store>, steps: seq<Step>, i: nat, j: nat, batch: Batch)
    requires Run(states, steps) && i <= j && AllShared(steps, i, j)
    requires HeadOf(states[i].db, batch.Key()) == batch.expectedHead && Touched(states, steps, i, j, batch)
    ensures Evident(states[j].db, batch)
  {
    var k: nat :| i <= k < j && TouchedAt(states, steps, k, batch);
    var before, after := states[k], states[k + 1];
    RunKeeps(states, steps, i, k);
    HeadKept(states[i], before, batch.Key());
    assert NextAt(states, steps, k);
    StepEvident(before, steps[k], after, batch);
    RunKeeps(states, steps, k + 1, j);
    EvidenceKept(after, states[j], batch);
  }

  lemma EvidentNotAbsent(db: Db, objects: Objects, batch: Batch, receipt: Receipt, cursors: seq<nat>)
    requires Evident(db, batch) && receipt.eventIds == EventIds(batch.events) && receipt.outboxIds == OutboxIds(batch.outbox)
    ensures Verify(db, objects, batch, receipt, cursors) != Absent
  {
    if Verify(db, objects, batch, receipt, cursors) == Absent {
      AbsentMeansNothing(db, objects, batch, receipt, cursors);
    }
  }

  lemma UntouchedVerdict(was: Db, db: Db, objects: Objects, batch: Batch, receipt: Receipt, cursors: seq<nat>)
    requires Untouched(was, db, batch) && HeadOf(was, batch.Key()) == batch.expectedHead && batch.events != []
    requires receipt.eventIds == EventIds(batch.events) && receipt.outboxIds == OutboxIds(batch.outbox)
    ensures Verify(db, objects, batch, receipt, cursors) == if AggregateExpected(was, batch) then Absent else Partial
  {
    CountsNone(receipt.eventIds, db.events);
    CountsNone(receipt.outboxIds, db.outbox);
    assert batch.events[0].id !in db.events;
  }

  lemma AppliedUntouched(db: Db, objects: Objects, batch: Batch, enforce: bool, t: Transaction)
    requires Applied(db, objects, batch, enforce, t)
    ensures Untouched(db, db, batch)
  {
    EventsExtended(db, batch);
    OutboxExtended(db, batch, MaxCursor(db.outbox));
    forall e | e in batch.events ensures e.id !in db.events {
      EventIdsAre(batch.events, e.id);
    }
    forall o | o in batch.outbox ensures o.id !in db.outbox {
      OutboxIdsAre(batch.outbox, o.id);
    }
  }

  lemma VerdictAfterUnapplied(states: seq<Store>, steps: seq<Step>, i: nat, j: nat, batch: Batch, receipt: Receipt,
                              cursors: seq<nat>)
    requires Run(states, steps) && i <= j && AllShared(steps, i, j)
    requires Untouched(states[i].db, states[i].db, batch) && batch.events != []
    requires HeadOf(states[i].db, batch.Key()) == batch.expectedHead
    requires receipt.eventIds == EventIds(batch.events) && receipt.outboxIds == OutboxIds(batch.outbox)
    ensures Verify(states[j].db, states[j].objects, batch, receipt, cursors) == Absent
       <==> AggregateExpected(states[i].db, batch) && !Touched(states, steps, i, j, batch)
  {
    if Touched(states, steps, i, j, batch) {
      TouchedEvident(states, steps, i, j, batch);
      EvidentNotAbsent(states[j].db, states[j].objects, batch, receipt, cursors);
    } else {
      RunUntouched(states, steps, i, j, batch);
      UntouchedVerdict(states[i].db, states[j].db, states[j].objects, batch, receipt, cursors);
    }
  }

  lemma LostChangesNothing(states: seq<Store>, steps: seq<Step>, i: nat)
    requires Run(states, steps) && i < |steps| && steps[i].DoCommit? && steps[i].fate == Lost(false)
    ensures states[i + 1] == states[i]
  {
    assert NextAt(states, steps, i);
    CommitEffect(states[i], steps[i], states[i + 1]);
  }

  /** A commit was lost before it became durable. At any later point of its lease the
      check answers `Absent` exactly when the batch had expected its stream's aggregate
      version and no commit since has touched the batch. */
  lemma LostUnapplied(states: seq<Store>, steps: seq<Step>, i: nat, j: nat, batch: Batch, enforce: bool, t: Transaction)
    requires Run(states, steps) && i < j && AllShared(steps, i, j)
    requires steps[i] == DoCommit(batch, enforce, Lost(false)) && Applied(states[i].db, states[i].objects, batch, enforce, t)
    ensures Verify(states[j].db, states[j].objects, batch, t.receipt, t.cursors) == Absent
       <==> AggregateExpected(states[i].db, batch) && !Touched(states, steps, i + 1, j, batch)
  {
    SharedLater(steps, i, j);
    LostChangesNothing(states, steps, i);
    AppliedUntouched(states[i].db, states[i].objects, batch, enforce, t);
    VerdictAfterUnapplied(states, steps, i + 1, j, batch, t.receipt, t.cursors);
  }

  // ---------------------------------------------------------------- lost but applied

  /** The stream and its checkpoints are as they were. */
  ghost predicate SameStream(was: Db, db: Db, key: StreamKey) {
    && SameRow(was.streams, db.streams, key)
    && forall c: CheckpointKey :: c.stream == key ==> SameRow(was.checkpoints, db.checkpoints, c)
  }

  lemma StepSameStream(was: Db, s: Store, step: Step, after: Store, key: StreamKey)
    requires Next(s, step, after) && Shared(step) && SameStream(was, s.db, key)
    requires TookEffect(s, step) ==> step.batch.Key() != key
    ensures SameStream(was, after.db, key)
  {
    if step.DoCommit? {
      CommitEffect(s, step, after);
      if TookEffect(s, step) {
        var t :| Applied(s.db, s.objects, step.batch, step.enforce, t) && after.db == t.db;
        assert t.db.checkpoints == CheckpointsAfter(s.db, step.batch);
      }
    } else {
      OtherTablesSame(s, step, after);
    }
  }

  lemma NotOnStreamBefore(states: seq<Store>, steps: seq<Step>, i: nat, j: nat, key: StreamKey)
    requires Run(states, steps) && i < j <= |steps| && !OnStream(states, steps, i, j, key)
    ensures !OnStream(states, steps, i, j - 1, key) && !OnStreamAt(states, steps, j - 1, key)
  {
  }

  lemma {:induction false} RunSameStream(states: seq<Store>, steps: seq<Step>, i: nat, j: nat, key: StreamKey)
    requires Run(states, steps) && i <= j && AllShared(steps, i, j) && !OnStream(states, steps, i, j, key)
    ensures SameStream(states[i].db, states[j].db, key)
    decreases j
  {
    if i < j {
      NotOnStreamBefore(states, steps, i, j, key);
      RunSameStream(states, steps, i, j - 1, key);
      assert NextAt(states, steps, j - 1);
      StepSameStream(states[i].db, states[j - 1], steps[j - 1], states[j], key);
    }
  }

  lemma EffectGrowsHead(s: Store, step: Step, after: Store)
    requires Next(s, step, after) && TookEffect(s, step)
    ensures HeadOf(after.db, step.batch.Key()) > HeadOf(s.db, step.batch.Key())
  {
    CommitEffect(s, step, after);
  }

  lemma RunHeadGrew(states: seq<Store>, steps: seq<Step>, i: nat, j: nat, key: StreamKey)
    requires Run(states, steps) && i <= j && AllShared(steps, i, j) && OnStream(states, steps, i, j, key)
    ensures HeadOf(states[j].db, key) > HeadOf(states[i].db, key)
  {
    var k: nat :| i <= k < j && OnStreamAt(states, steps, k, key);
    var before, after := states[k], states[k + 1];
    RunKeeps(states, steps, i, k);
    HeadKept(states[i], before, key);
    assert NextAt(states, steps, k);
    EffectGrowsHead(before, steps[k], after);
    RunKeeps(states, steps, k + 1, j);
    HeadKept(after, states[j], key);
  }

  lemma CountsKept<V>(ids: seq<Id>, a: map<Id, V>, b: map<Id, V>)
    requires CountPresent(ids, a) == |ids| && forall id :: id in a ==> id in b
    ensures CountPresent(ids, b) == |ids|
  {
    CountsAll(ids, a);
    CountsAll(ids, b);
  }

  lemma CursorsKept(a: map<Id, OutboxRow>, b: map<Id, OutboxRow>, ids: seq<Id>)
    requires OutboxGrows(a, b) && CountPresent(ids, a) == |ids|
    ensures LoadCursors(b, ids) == LoadCursors(a, ids)
  {
    CountsAll(ids, a);
  }

  lemma OutboxMatchKept(s: Store, after: Store, batch: Batch, cursors: seq<nat>)
    requires OutboxGrows(s.db.outbox, after.db.outbox) && OutboxMatch(s.db, batch, cursors)
    ensures OutboxMatch(after.db, batch, cursors)
  {
    forall i | 0 <= i < |batch.outbox|
      ensures batch.outbox[i].id in after.db.outbox
      ensures after.db.outbox[batch.outbox[i].id].(delivered := false)
              == OutboxRow(batch.Key(), NewHead(batch), cursors[i], batch.outbox[i], OfText(batch.outbox[i].payload.text), false)
    {
    }
  }

  lemma RowsKept(s: Store, after: Store, batch: Batch, receipt: Receipt, cursors: seq<nat>)
    requires Kept(s, after) && SameStream(s.db, after.db, batch.Key()) && RowsExact(s.db, batch, receipt, cursors)
    ensures RowsExact(after.db, batch, receipt, cursors)
  {
    CountsKept(receipt.eventIds, s.db.events, after.db.events);
    CountsKept(receipt.outboxIds, s.db.outbox, after.db.outbox);
    CursorsKept(s.db.outbox, after.db.outbox, receipt.outboxIds);
    OutboxMatchKept(s, after, batch, cursors);
    assert SameRow(s.db.checkpoints, after.db.checkpoints, CheckpointKey(batch.Key(), receipt.head));
  }

  lemma ArtifactsKept(s: Store, after: Store, batch: Batch)
    requires HeldGrows(s, after) && ArtifactsMatch(s.db.staging, s.objects, batch)
    ensures ArtifactsMatch(after.db.staging, after.objects, batch)
  {
    forall i | 0 <= i < |batch.artifacts| ensures Held(after, batch.artifacts[i]) {
      assert Held(s, batch.artifacts[i]);
    }
  }

  /** `Exact` stays the answer while the stream rests. */
  lemma ExactKept(s: Store, after: Store, batch: Batch, receipt: Receipt, cursors: seq<nat>)
    requires Kept(s, after) && SameStream(s.db, after.db, batch.Key()) && batch.events != []
    requires receipt.eventIds == EventIds(batch.events)
    requires Verify(s.db, s.objects, batch, receipt, cursors) == Exact
    ensures Verify(after.db, after.objects, batch, receipt, cursors) == Exact
  {
    RowsKept(s, after, batch, receipt, cursors);
    ArtifactsKept(s, after, batch);
    assert |receipt.eventIds| > 0;
  }

  lemma VerdictAfterApplied(states: seq<Store>, steps: seq<Step>, i: nat, j: nat, batch: Batch, receipt: Receipt,
                            cursors: seq<nat>)
    requires Run(states, steps) && i <= j && AllShared(steps, i, j)
    requires ReceiptOf(batch, receipt) && Verify(states[i].db, states[i].objects, batch, receipt, cursors) == Exact
    ensures Verify(states[j].db, states[j].objects, batch, receipt, cursors)
            == if OnStream(states, steps, i, j, batch.Key()) then Partial else Exact
  {
    if OnStream(states, steps, i, j, batch.Key()) {
      RunHeadGrew(states, steps, i, j, batch.Key());
      EvidentNotAbsent(states[j].db, states[j].objects, batch, receipt, cursors);
    } else {
      RunKeeps(states, steps, i, j);
      RunSameStream(states, steps, i, j, batch.Key());
      ExactKept(states[i], states[j], batch, receipt, cursors);
    }
  }

  /** The receipt is one this batch could get. */
  ghost predicate ReceiptOf(batch: Batch, receipt: Receipt) {
    batch.events != [] && receipt == ReceiptFor(batch, receipt.aggregate)
  }

  lemma AppliedAt(states: seq<Store>, steps: seq<Step>, i: nat, batch: Batch, enforce: bool, t: Transaction)
    requires Run(states, steps) && i < |steps| && Valid(states[i].db) && steps[i] == DoCommit(batch, enforce, Lost(true))
    requires Applied(states[i].db, states[i].objects, batch, enforce, t) && states[i + 1].db == t.db
    ensures Verify(states[i + 1].db, states[i + 1].objects, batch, t.receipt, t.cursors) == Exact
    ensures ReceiptOf(batch, t.receipt)
  {
    assert NextAt(states, steps, i);
    ExactAfter(states[i].db, states[i].objects, batch, enforce, t);
  }

  /** A commit became durable and its answer was lost. At any later point of its lease
      the check answers `Exact` if no commit since has written into its stream, and
      otherwise `Partial`, which quarantines the store although the batch is in it. */
  lemma LostApplied(states: seq<Store>, steps: seq<Step>, i: nat, j: nat, batch: Batch, enforce: bool, t: Transaction)
    requires Run(states, steps) && i < j && AllShared(steps, i, j) && Valid(states[i].db)
    requires steps[i] == DoCommit(batch, enforce, Lost(true))
    requires Applied(states[i].db, states[i].objects, batch, enforce, t) && states[i + 1].db == t.db
    ensures Verify(states[j].db, states[j].objects, batch, t.receipt, t.cursors)
            == if OnStream(states, steps, i + 1, j, batch.Key()) then Partial else Exact
  {
    var receipt, cursors := t.receipt, t.cursors;
    SharedLater(steps, i, j);
    AppliedAt(states, steps, i, batch, enforce, t);
    VerdictAfterApplied(states, steps, i + 1, j, batch, receipt, cursors);
  }

  // ------------------------------------------------------------ what a verdict is worth

  /** Whatever ran in between, a caller who is told `Committed` finds the whole batch in
      the tables, and its events as the newest of their stream. */
  lemma ExactMeansNewest(db: Db, objects: Objects, batch: Batch, aggregate: nat, cursors: seq<nat>)
    requires Valid(db) && Verify(db, objects, batch, ReceiptFor(batch, aggregate), cursors) == Exact
    ensures Durable(db, objects, batch, ReceiptFor(batch, aggregate), cursors)
    ensures |History(db, batch.Key())| == NewHead(batch)
    ensures History(db, batch.Key())[batch.expectedHead..] == batch.events
  {
    ExactMeansDurable(db, objects, batch, ReceiptFor(batch, aggregate), cursors);
    var h := History(db, batch.Key());
    forall i | 0 <= i < |batch.events| ensures h[batch.expectedHead + i] == batch.events[i] {
      HistoryRow(db, batch.Key(), batch.events[i].id);
    }
  }

  /** A run in which both commits are durable and fenced, and the check of the first one
      quarantines the store: the second commit wrote into the same stream meanwhile. */
  lemma LostAnswerQuarantines() returns (states: seq<Store>, steps: seq<Step>)
    ensures Run(states, steps) && states[0] == EMPTY && |steps| == 3
    ensures steps[0] == DoCommit(Small(0, "e", "x"), true, Lost(true))
    ensures steps[1] == DoCommit(Small(1, "f", "y"), true, Answered)
    ensures steps[2] == DoVerify(Small(0, "e", "x"), ReceiptFor(Small(0, "e", "x"), 1), [1])
    ensures "e" in states[3].db.events && "f" in states[3].db.events
    ensures states[3].db.quarantined && !states[2].db.quarantined
  {
    var lost, receipt := Small(0, "e", "x"), ReceiptFor(Small(0, "e", "x"), 1);
    var twice := Once().(db := SmallDone(Once().db, 1, "f", "y", 2));
    var ended := twice.(db := twice.db.(quarantined := true));
    states := [EMPTY, Once()];
    steps := [DoCommit(lost, true, Lost(true))];
    FirstRun(states, steps, Lost(true));
    SecondStep(twice);
    RunSnoc(states, steps, DoCommit(Small(1, "f", "y"), true, Answered), twice);
    states, steps := states + [twice], steps + [DoCommit(Small(1, "f", "y"), true, Answered)];
    CheckedPartial(twice, receipt);
    RunSnoc(states, steps, DoVerify(lost, receipt, [1]), ended);
    states, steps := states + [ended], steps + [DoVerify(lost, receipt, [1])];
  }

  lemma SecondStep(twice: Store)
    requires twice == Once().(db := SmallDone(Once().db, 1, "f", "y", 2))
    ensures Next(Once(), DoCommit(Small(1, "f", "y"), true, Answered), twice)
  {
    OnceCursor();
    SmallStep(Once(), 1, "f", "y", 1, Answered);
  }

  lemma OnceCursor()
    ensures MaxCursor(Once().db.outbox) == 1
  {
    var outbox := Once().db.outbox;
    assert "x" in outbox;
    MaxCursorUnique(outbox, MaxCursor(outbox), 1);
  }

  lemma CheckedPartial(twice: Store, receipt: Receipt)
    requires twice == Once().(db := SmallDone(Once().db, 1, "f", "y", 2)) && receipt == ReceiptFor(Small(0, "e", "x"), 1)
    ensures Verify(twice.db, twice.objects, Small(0, "e", "x"), receipt, [1]) == Partial
  {
    assert twice.db.streams[CHAT].head == 2;
  }
}
