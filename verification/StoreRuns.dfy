/** Runs of the whole local store: every operation of the ledger and of the
    artifact store, in any order, with lost answers and crashes at every point
    where one leaves a state of its own. */
module StoreRuns {
  import opened Base
  import opened Tables
  import opened Ledger
  import opened LedgerInvariant
  import opened LedgerVerify
  import opened LedgerHistory
  import opened LocalHistoryStores
  import opened Artifacts

  datatype Step =
    | DoCommit(batch: Batch, enforce: bool, fate: Fate)
    | DoVerify(batch: Batch, receipt: Receipt, cursors: seq<nat>)
    | DoAcknowledge(id: Id, cursor: nat)
    | DoAcknowledgeAny(id: Id)
    | DoPurge(keep: nat)
    | DoDelete(chat: Id)
    | DoPrune(updates: seq<PayloadUpdate>)
    | DoPrepare(upload: Upload, token: Id, now: nat)
    | CrashAfterPromotion(content: Bytes, now: nat)
    | DoExpire(older: nat)
    | RemoveOrphan(hash: ContentHash)
    | DoRead(artifact: Id)

  /** The steps of the artifact store. */
  predicate ArtifactWork(step: Step) {
    step.DoPrepare? || step.CrashAfterPromotion? || step.DoExpire? || step.RemoveOrphan? || step.DoRead?
  }

  function OrSame(db: Db, r: Result<Db>): Db {
    if r.Ok? then r.value else db
  }

  ghost predicate Next(s: Store, step: Step, after: Store) {
    match step
    case DoCommit(batch, enforce, fate) => after == s.(db := CommitStepped(s.db, s.objects, batch, enforce, fate))
    case DoVerify(batch, receipt, cursors) => after == s.(db := Checked(s.db, s.objects, batch, receipt, cursors))
    case DoAcknowledge(id, cursor) => after == s.(db := OrSame(s.db, Acknowledged(s.db, id, cursor)))
    case DoAcknowledgeAny(id) => after == s.(db := OrSame(s.db, AcknowledgedAny(s.db, id)))
    case DoPurge(keep) => after == s.(db := Purged(s.db, keep))
    case DoDelete(chat) => after == s.(db := StreamDeleted(s.db, chat))
    case DoPrune(updates) => after == s.(db := s.db.(events := Pruned(s.db.events, updates)))
    case DoPrepare(upload, token, now) => exists r :: PrepareStep(s, upload, token, now, after, r)
    case CrashAfterPromotion(content, now) =>
      var promoted := Promoted(s.objects, content, now);
      after == if promoted.Ok? then s.(objects := promoted.value) else s
    case DoExpire(older) => after == s.(db := s.db.(staging := Expired(s.db.staging, older)))
    case RemoveOrphan(hash) => after == if Used(s.db.staging, hash) then s else s.(objects := s.objects - {hash})
    case DoRead(artifact) =>
      after == if artifact in s.db.staging.artifacts
                  && ObjectIntact(s.objects, s.db.staging.artifacts[artifact].hash, s.db.staging.artifacts[artifact].size)
               then s else s.(db := MarkedCorrupt(s.db, artifact))
  }

  /** The steps that leave the outbox alone. */
  lemma OutboxUntouched(s: Store, step: Step, after: Store)
    requires Next(s, step, after)
    requires step.DoVerify? || step.DoPrune? || ArtifactWork(step)
    ensures after.db.outbox == s.db.outbox
  {
  }

  ghost predicate Run(states: seq<Store>, steps: seq<Step>) {
    && |states| == |steps| + 1
    && forall i: nat :: i < |steps| ==> NextAt(states, steps, i)
  }

  ghost predicate NextAt(states: seq<Store>, steps: seq<Step>, i: nat)
    requires |states| == |steps| + 1 && i < |steps|
  {
    Next(states[i], steps[i], states[i + 1])
  }

  // ------------------------------------------------------- what every state keeps

  ghost predicate StoreValid(s: Store) {
    Valid(s.db) && Safe(s.db.staging, s.objects)
  }

  const EMPTY: Store := Store(Db(map[], map[], map[], map[], map[], map[], Staging(map[], map[], {}), false), map[])

  lemma CommitStepKeeps(s: Store, batch: Batch, enforce: bool, fate: Fate)
    requires StoreValid(s)
    ensures StoreValid(s.(db := CommitStepped(s.db, s.objects, batch, enforce, fate)))
  {
    CommittingCases(s.db, s.objects, batch, enforce);
    var r := Committing(s.db, s.objects, batch, enforce);
    if r.Ok? && r.value.outcome.Committed? {
      var t :| Applied(s.db, s.objects, batch, enforce, t) && r.value.db == t.db;
      CommitKeepsValid(s.db, s.objects, batch, enforce, t);
      FinalizeKeepsSafe(s.db.staging, s.objects, EventIds(batch.events), batch.artifacts);
    }
  }

  lemma MaintenanceKeeps(s: Store, step: Step, after: Store)
    requires StoreValid(s) && Next(s, step, after)
    requires step.DoVerify? || step.DoAcknowledge? || step.DoAcknowledgeAny? || step.DoPurge? || step.DoDelete? || step.DoPrune?
    ensures StoreValid(after)
  {
    match step
    case DoVerify(_, _, _) =>
    case DoAcknowledge(id, cursor) =>
      if Acknowledged(s.db, id, cursor).Ok? { AcknowledgeKeepsValid(s.db, id); }
    case DoAcknowledgeAny(id) =>
      if AcknowledgedAny(s.db, id).Ok? { AcknowledgeKeepsValid(s.db, id); }
    case DoPurge(keep) => PurgeKeepsValid(s.db, keep);
    case DoDelete(chat) => DeleteKeepsValid(s.db, chat);
    case DoPrune(updates) => PruneKeepsValid(s.db, updates);
  }

  lemma ArtifactStepKeeps(s: Store, step: Step, after: Store)
    requires StoreValid(s) && Next(s, step, after)
    requires ArtifactWork(step)
    ensures StoreValid(after)
  {
    match step
    case DoPrepare(upload, token, now) =>
      var r :| PrepareStep(s, upload, token, now, after, r);
      PrepareKeepsSafe(s, upload, token, now, after, r);
    case CrashAfterPromotion(content, now) =>
      if Promoted(s.objects, content, now).Ok? { PromoteKeepsSafe(s.db.staging, s.objects, content, now); }
    case DoExpire(older) => ExpireKeepsSafe(s.db.staging, s.objects, older);
    case RemoveOrphan(hash) =>
      if !Used(s.db.staging, hash) { RemoveUnusedKeepsSafe(s.db.staging, s.objects, hash); }
    case DoRead(artifact) =>
  }

  lemma StepKeepsValid(s: Store, step: Step, after: Store)
    requires StoreValid(s) && Next(s, step, after)
    ensures StoreValid(after)
  {
    match step
    case DoCommit(batch, enforce, fate) => CommitStepKeeps(s, batch, enforce, fate);
    case DoVerify(_, _, _) => MaintenanceKeeps(s, step, after);
    case DoAcknowledge(_, _) => MaintenanceKeeps(s, step, after);
    case DoAcknowledgeAny(_) => MaintenanceKeeps(s, step, after);
    case DoPurge(_) => MaintenanceKeeps(s, step, after);
    case DoDelete(_) => MaintenanceKeeps(s, step, after);
    case DoPrune(_) => MaintenanceKeeps(s, step, after);
    case DoPrepare(_, _, _) => ArtifactStepKeeps(s, step, after);
    case CrashAfterPromotion(_, _) => ArtifactStepKeeps(s, step, after);
    case DoExpire(_) => ArtifactStepKeeps(s, step, after);
    case RemoveOrphan(_) => ArtifactStepKeeps(s, step, after);
    case DoRead(_) => ArtifactStepKeeps(s, step, after);
  }

  /** In every state of every run from the empty store, each stream's events are
      numbered 1..head, nothing dangles, every artifact row has its intact object,
      and the staging quota holds. */
  lemma {:induction false} RunsStayValid(states: seq<Store>, steps: seq<Step>, i: nat)
    requires Run(states, steps) && states[0] == EMPTY && i < |states|
    ensures StoreValid(states[i])
  {
    if i > 0 {
      RunsStayValid(states, steps, i - 1);
      NextKeepsValid(states, steps, i - 1);
    }
  }

  lemma NextKeepsValid(states: seq<Store>, steps: seq<Step>, i: nat)
    requires Run(states, steps) && i < |steps| && StoreValid(states[i])
    ensures StoreValid(states[i + 1])
  {
    assert NextAt(states, steps, i);
    StepKeepsValid(states[i], steps[i], states[i + 1]);
  }

  // ------------------------------------------------------------------ exactly once

  lemma StepRemembers(s: Store, step: Step, after: Store, key: DedupKey, row: DedupRow)
    requires Next(s, step, after) && Remembers(s.db, key, row)
    ensures Remembers(after.db, key, row)
  {
    match step
    case DoCommit(batch, enforce, fate) => CommittingCases(s.db, s.objects, batch, enforce);
    case _ =>
  }

  lemma {:induction false} RunRemembers(states: seq<Store>, steps: seq<Step>, i: nat, j: nat, key: DedupKey, row: DedupRow)
    requires Run(states, steps) && i <= j < |states| && Remembers(states[i].db, key, row)
    ensures Remembers(states[j].db, key, row)
    decreases j
  {
    if i < j {
      RunRemembers(states, steps, i, j - 1, key, row);
      NextRemembers(states, steps, j - 1, key, row);
    }
  }

  lemma NextRemembers(states: seq<Store>, steps: seq<Step>, i: nat, key: DedupKey, row: DedupRow)
    requires Run(states, steps) && i < |steps| && Remembers(states[i].db, key, row)
    ensures Remembers(states[i + 1].db, key, row)
  {
    assert NextAt(states, steps, i);
    StepRemembers(states[i], steps[i], states[i + 1], key, row);
  }

  /** The step wrote its batch into the tables, whatever its caller was told. */
  ghost predicate TookEffect(s: Store, step: Step) {
    && step.DoCommit? && step.fate != Lost(false)
    && var r := Committing(s.db, s.objects, step.batch, step.enforce);
       r.Ok? && r.value.outcome.Committed?
  }

  /** A commit step writes one whole transaction or leaves every table alone. */
  lemma CommitEffect(s: Store, step: Step, after: Store)
    requires Next(s, step, after) && step.DoCommit?
    ensures TookEffect(s, step) ==> exists t :: Applied(s.db, s.objects, step.batch, step.enforce, t) && after.db == t.db
    ensures !TookEffect(s, step) ==> after == s
  {
    CommittingCases(s.db, s.objects, step.batch, step.enforce);
  }

  ghost function Receipted(s: Store, step: Step): Receipt
    requires TookEffect(s, step)
  {
    Committing(s.db, s.objects, step.batch, step.enforce).value.outcome.receipt
  }

  lemma EffectRemembered(s: Store, step: Step, after: Store)
    requires Next(s, step, after) && TookEffect(s, step) && step.batch.dedup.Some?
    ensures Remembers(after.db, step.batch.dedup.value, DedupRow(OfBatch(step.batch), step.batch.Key(), Receipted(s, step)))
  {
    CommittingCases(s.db, s.objects, step.batch, step.enforce);
  }

  /** A deduplication key takes effect at most once in any run, whatever happens in between. */
  lemma ExactlyOnce(states: seq<Store>, steps: seq<Step>, i: nat, j: nat)
    requires Run(states, steps) && i < j < |steps|
    requires TookEffect(states[i], steps[i]) && steps[i].batch.dedup.Some?
    ensures steps[j].DoCommit? && steps[j].batch.dedup == steps[i].batch.dedup ==> !TookEffect(states[j], steps[j])
  {
    assert NextAt(states, steps, i);
    EffectRemembered(states[i], steps[i], states[i + 1]);
    RunRemembers(states, steps, i + 1, j, steps[i].batch.dedup.value,
                 DedupRow(OfBatch(steps[i].batch), steps[i].batch.Key(), Receipted(states[i], steps[i])));
    if steps[j].DoCommit? {
      CommittingCases(states[j].db, states[j].objects, steps[j].batch, steps[j].enforce);
    }
  }

  /** A retry at any later point gets the first receipt back and changes nothing;
      any other valid batch under the same key is refused. */
  lemma RetriesAnswered(states: seq<Store>, steps: seq<Step>, i: nat, j: nat, batch: Batch, enforce: bool)
    requires Run(states, steps) && i < j < |states|
    requires TookEffect(states[i], steps[i]) && steps[i].batch.dedup.Some?
    requires batch.dedup == steps[i].batch.dedup && Validate(batch).Pass? && !states[j].db.quarantined
    ensures Committing(states[j].db, states[j].objects, batch, enforce)
            == if batch == steps[i].batch then Ok(Commit(states[j].db, Existing(Receipted(states[i], steps[i]))))
               else Err(DeduplicationKeyReused)
  {
    assert NextAt(states, steps, i);
    EffectRemembered(states[i], steps[i], states[i + 1]);
    RunRemembers(states, steps, i + 1, j, steps[i].batch.dedup.value,
                 DedupRow(OfBatch(steps[i].batch), steps[i].batch.Key(), Receipted(states[i], steps[i])));
  }

  // ------------------------------------------------------------- histories only grow

  datatype Identity = Identity(id: Id, schemaVersion: nat, kind: string)

  function Identities(events: seq<Event>): seq<Identity> {
    seq(|events|, i requires 0 <= i < |events| => Identity(events[i].id, events[i].schemaVersion, events[i].kind))
  }

  /** The stream is still there, bound to the same run, with its events as a prefix. */
  ghost predicate Continues(before: Db, after: Db, key: StreamKey)
    requires Valid(before) && Valid(after)
  {
    && (key in before.streams ==> key in after.streams && after.streams[key].run == before.streams[key].run)
    && Identities(History(before, key)) <= Identities(History(after, key))
  }

  lemma SameEventsContinue(before: Db, after: Db, key: StreamKey)
    requires Valid(before) && Valid(after) && after.streams == before.streams && after.events == before.events
    ensures Continues(before, after, key)
  {
  }

  lemma AppliedContinues(db: Db, objects: Objects, batch: Batch, enforce: bool, t: Transaction, key: StreamKey)
    requires Valid(db) && Applied(db, objects, batch, enforce, t)
    ensures Valid(t.db) && Continues(db, t.db, key)
  {
    CommitAppends(db, objects, batch, enforce, t, key);
  }

  lemma CommitContinues(s: Store, batch: Batch, enforce: bool, fate: Fate, key: StreamKey)
    requires StoreValid(s)
    ensures var after := CommitStepped(s.db, s.objects, batch, enforce, fate); Valid(after) && Continues(s.db, after, key)
  {
    var after := CommitStepped(s.db, s.objects, batch, enforce, fate);
    CommitStepKeeps(s, batch, enforce, fate);
    CommittingCases(s.db, s.objects, batch, enforce);
    var r := Committing(s.db, s.objects, batch, enforce);
    if r.Ok? && r.value.outcome.Committed? && fate != Lost(false) {
      var t :| Applied(s.db, s.objects, batch, enforce, t) && r.value.db == t.db;
      AppliedContinues(s.db, s.objects, batch, enforce, t, key);
    } else {
      SameEventsContinue(s.db, after, key);
    }
  }

  lemma PruneContinues(db: Db, updates: seq<PayloadUpdate>, key: StreamKey)
    requires Valid(db)
    ensures var after := db.(events := Pruned(db.events, updates)); Valid(after) && Continues(db, after, key)
  {
    var after := db.(events := Pruned(db.events, updates));
    PruneKeepsValid(db, updates);
    forall i | 0 <= i < HeadOf(db, key) ensures Identities(History(db, key))[i] == Identities(History(after, key))[i] {
      PruneKeepsHistory(db, updates, key, i);
    }
  }

  /** The steps that leave streams and events alone. */
  lemma EventsUntouched(s: Store, step: Step, after: Store)
    requires Next(s, step, after) && !step.DoCommit? && !step.DoPrune? && !step.DoDelete?
    ensures after.db.streams == s.db.streams && after.db.events == s.db.events
  {
  }

  lemma StepContinues(s: Store, step: Step, after: Store, key: StreamKey)
    requires StoreValid(s) && Next(s, step, after) && step != DoDelete(key.chat)
    ensures StoreValid(after) && Continues(s.db, after.db, key)
  {
    StepKeepsValid(s, step, after);
    if step.DoCommit? {
      CommitContinues(s, step.batch, step.enforce, step.fate, key);
    } else if step.DoPrune? {
      PruneContinues(s.db, step.updates, key);
    } else if step.DoDelete? {
      DeleteForgets(s.db, step.chat, key);
    } else {
      EventsUntouched(s, step, after);
      SameEventsContinue(s.db, after.db, key);
    }
  }

  /** Until its chat is deleted, a stream keeps its run binding and its committed
      events, in order, as a prefix of every later history. */
  lemma {:induction false} HistoriesOnlyGrow(states: seq<Store>, steps: seq<Step>, i: nat, j: nat, key: StreamKey)
    requires Run(states, steps) && states[0] == EMPTY && i <= j < |states|
    requires forall k :: i <= k < j ==> steps[k] != DoDelete(key.chat)
    ensures StoreValid(states[i]) && StoreValid(states[j]) && Continues(states[i].db, states[j].db, key)
    decreases j
  {
    RunsStayValid(states, steps, i);
    if i < j {
      HistoriesOnlyGrow(states, steps, i, j - 1, key);
      NextContinues(states, steps, j - 1, key);
    }
  }

  lemma NextContinues(states: seq<Store>, steps: seq<Step>, i: nat, key: StreamKey)
    requires Run(states, steps) && i < |steps| && StoreValid(states[i]) && steps[i] != DoDelete(key.chat)
    ensures StoreValid(states[i + 1]) && Continues(states[i].db, states[i + 1].db, key)
  {
    assert NextAt(states, steps, i);
    StepContinues(states[i], steps[i], states[i + 1], key);
  }
}
