/** More of what whole runs of the local store keep: no secret is ever committed, a
    quarantine lasts, and aggregate versions count commits. */
module RunLaws {
  import opened Base
  import opened Tables
  import opened Ledger
  import opened LedgerValidation
  import opened LedgerInvariant
  import opened LedgerVerify
  import opened LocalHistoryStores
  import opened Artifacts
  import opened StoreRuns
  import opened Maintenance

  // -------------------------------------------------------------------- no secrets

  ghost predicate OutboxSecretFree(outbox: map<Id, OutboxRow>) {
    forall id :: id in outbox ==> !outbox[id].entry.payload.holdsSecret
  }

  /** What a commit step writes was accepted as sound. */
  lemma EffectIsSound(s: Store, step: Step)
    requires TookEffect(s, step)
    ensures SoundBatch(step.batch)
  {
    ValidateExactly(step.batch);
  }

  lemma NewOutboxSecretFree(outbox: map<Id, OutboxRow>, batch: Batch, last: nat, after: map<Id, OutboxRow>)
    requires OutboxSecretFree(outbox) && SoundOutbox(batch.outbox)
    requires Extends(outbox, OutboxIds(batch.outbox), OutboxRows(batch.Key(), NewHead(batch), last, batch.outbox), after)
    ensures OutboxSecretFree(after)
  {
    var ids := OutboxIds(batch.outbox);
    forall id | id in after ensures !after[id].entry.payload.holdsSecret {
      if id !in outbox {
        var i :| 0 <= i < |ids| && ids[i] == id;
        assert after[id].entry == batch.outbox[i];
      }
    }
  }

  lemma CommitOutboxSecretFree(s: Store, step: Step, after: Store)
    requires Next(s, step, after) && TookEffect(s, step) && OutboxSecretFree(s.db.outbox)
    ensures OutboxSecretFree(after.db.outbox)
  {
    CommitEffect(s, step, after);
    EffectIsSound(s, step);
    var t :| Applied(s.db, s.objects, step.batch, step.enforce, t) && after.db == t.db;
    OutboxExtended(s.db, step.batch, MaxCursor(s.db.outbox));
    NewOutboxSecretFree(s.db.outbox, step.batch, MaxCursor(s.db.outbox), t.db.outbox);
  }

  lemma StepOutboxSecretFree(s: Store, step: Step, after: Store)
    requires Next(s, step, after) && OutboxSecretFree(s.db.outbox)
    ensures OutboxSecretFree(after.db.outbox)
  {
    if step.DoCommit? {
      CommitEffect(s, step, after);
      if TookEffect(s, step) {
        CommitOutboxSecretFree(s, step, after);
      }
    } else if step.DoVerify? || step.DoPrune? || ArtifactWork(step) {
      OutboxUntouched(s, step, after);
    }
  }

  lemma NextOutboxSecretFree(states: seq<Store>, steps: seq<Step>, i: nat)
    requires Run(states, steps) && i < |steps| && OutboxSecretFree(states[i].db.outbox)
    ensures OutboxSecretFree(states[i + 1].db.outbox)
  {
    assert NextAt(states, steps, i);
    StepOutboxSecretFree(states[i], steps[i], states[i + 1]);
  }

  /** In every state of every run, no outbox row holds a secret. */
  lemma {:induction false} OutboxHoldsNoSecret(states: seq<Store>, steps: seq<Step>, i: nat)
    requires Run(states, steps) && states[0] == EMPTY && i < |states|
    ensures OutboxSecretFree(states[i].db.outbox)
  {
    if i > 0 {
      OutboxHoldsNoSecret(states, steps, i - 1);
      NextOutboxSecretFree(states, steps, i - 1);
    }
  }

  ghost predicate Holds(events: map<Id, EventRow>, id: Id) {
    id in events && events[id].event.payload.holdsSecret
  }

  /** A prune step rewrote the payload of an event. */
  ghost predicate PrunesAt(steps: seq<Step>, k: nat, id: Id) {
    k < |steps| && steps[k].DoPrune? && Names(steps[k].updates, id)
  }

  lemma NewEventsSecretFree(events: map<Id, EventRow>, batch: Batch, after: map<Id, EventRow>, id: Id)
    requires SoundEvents(batch.events)
    requires Extends(events, EventIds(batch.events), EventRows(batch.Key(), batch.expectedHead, batch.events), after)
    ensures Holds(after, id) ==> Holds(events, id)
  {
    var ids := EventIds(batch.events);
    if id in after && id !in events {
      var i :| 0 <= i < |ids| && ids[i] == id;
      assert after[id].event == batch.events[i];
    }
  }

  lemma CommitEventsSecretFree(s: Store, step: Step, after: Store, id: Id)
    requires Next(s, step, after) && TookEffect(s, step) && Holds(after.db.events, id)
    ensures Holds(s.db.events, id)
  {
    CommitEffect(s, step, after);
    EffectIsSound(s, step);
    var t :| Applied(s.db, s.objects, step.batch, step.enforce, t) && after.db == t.db;
    EventsExtended(s.db, step.batch);
    NewEventsSecretFree(s.db.events, step.batch, t.db.events, id);
  }

  lemma PruneEventsSecretFree(events: map<Id, EventRow>, updates: seq<PayloadUpdate>, id: Id)
    requires Holds(Pruned(events, updates), id)
    ensures Holds(events, id) || Names(updates, id)
  {
    PruneKeepsEvents(events, updates);
    PrunedExactly(events, updates, id);
  }

  lemma StepEventsSecretFree(s: Store, step: Step, after: Store, id: Id)
    requires Next(s, step, after) && Holds(after.db.events, id)
    ensures Holds(s.db.events, id) || (step.DoPrune? && Names(step.updates, id))
  {
    if step.DoCommit? {
      CommitEffect(s, step, after);
      if TookEffect(s, step) {
        CommitEventsSecretFree(s, step, after, id);
      }
    } else if step.DoPrune? {
      PruneEventsSecretFree(s.db.events, step.updates, id);
    } else if !step.DoDelete? {
      EventsUntouched(s, step, after);
    }
  }

  lemma NextEventsSecretFree(states: seq<Store>, steps: seq<Step>, i: nat, id: Id)
    requires Run(states, steps) && i < |steps| && Holds(states[i + 1].db.events, id)
    ensures Holds(states[i].db.events, id) || PrunesAt(steps, i, id)
  {
    assert NextAt(states, steps, i);
    StepEventsSecretFree(states[i], steps[i], states[i + 1], id);
  }

  /** In every state of every run, an event that holds a secret had its payload rewritten:
      no commit ever put one there. */
  lemma {:induction false} EventsHoldNoSecret(states: seq<Store>, steps: seq<Step>, i: nat, id: Id)
    requires Run(states, steps) && states[0] == EMPTY && i < |states| && Holds(states[i].db.events, id)
    ensures exists k: nat :: k < i && PrunesAt(steps, k, id)
    decreases i
  {
    if i > 0 {
      NextEventsSecretFree(states, steps, i - 1, id);
      if Holds(states[i - 1].db.events, id) {
        EventsHoldNoSecret(states, steps, i - 1, id);
      }
    }
  }

  // -------------------------------------------------------------------- quarantine

  lemma StepStaysQuarantined(s: Store, step: Step, after: Store)
    requires Next(s, step, after) && s.db.quarantined
    ensures after.db.quarantined
    ensures step.DoCommit? || step.DoAcknowledge? || step.DoAcknowledgeAny? ==> after == s
  {
    if step.DoCommit? {
      CommitEffect(s, step, after);
    }
  }

  lemma NextStaysQuarantined(states: seq<Store>, steps: seq<Step>, i: nat)
    requires Run(states, steps) && i < |steps| && states[i].db.quarantined
    ensures states[i + 1].db.quarantined
    ensures steps[i].DoCommit? || steps[i].DoAcknowledge? || steps[i].DoAcknowledgeAny? ==> states[i + 1] == states[i]
  {
    assert NextAt(states, steps, i);
    StepStaysQuarantined(states[i], steps[i], states[i + 1]);
  }

  /** A quarantined store stays so; no later commit or acknowledgement changes anything. */
  lemma {:induction false} QuarantineLasts(states: seq<Store>, steps: seq<Step>, i: nat, j: nat)
    requires Run(states, steps) && i <= j < |states| && states[i].db.quarantined
    ensures states[j].db.quarantined
    ensures j < |steps| && (steps[j].DoCommit? || steps[j].DoAcknowledge? || steps[j].DoAcknowledgeAny?) ==>
              states[j + 1] == states[j]
    decreases j
  {
    if i < j {
      QuarantineLasts(states, steps, i, j - 1);
      NextStaysQuarantined(states, steps, j - 1);
    }
    if j < |steps| {
      NextStaysQuarantined(states, steps, j);
    }
  }

  /** And only the check of an uncertain commit ever quarantines a store. */
  lemma OnlyChecksQuarantine(s: Store, step: Step, after: Store)
    requires Next(s, step, after) && !s.db.quarantined && after.db.quarantined
    ensures step.DoVerify? && Verify(s.db, s.objects, step.batch, step.receipt, step.cursors) == Partial
  {
    if step.DoCommit? {
      CommitEffect(s, step, after);
    }
  }

  // ------------------------------------------------------------ what versions count

  ghost predicate CommitsAt(states: seq<Store>, steps: seq<Step>, k: nat, key: StreamKey)
    requires |states| == |steps| + 1 && k < |steps|
  {
    TookEffect(states[k], steps[k]) && steps[k].batch.Key() == key
  }

  /** How many commits a stream has had since its chat was last deleted. */
  ghost function CommitCount(states: seq<Store>, steps: seq<Step>, j: nat, key: StreamKey): nat
    requires |states| == |steps| + 1 && j < |states|
  {
    if j == 0 || steps[j - 1] == DoDelete(key.chat) then 0
    else CommitCount(states, steps, j - 1, key) + if CommitsAt(states, steps, j - 1, key) then 1 else 0
  }

  lemma StepAggregate(s: Store, step: Step, after: Store, key: StreamKey)
    requires Next(s, step, after)
    ensures AggregateOf(after.db, key)
            == if step == DoDelete(key.chat) then 0
               else AggregateOf(s.db, key) + if TookEffect(s, step) && step.batch.Key() == key then 1 else 0
  {
    if step.DoCommit? {
      CommitEffect(s, step, after);
    } else if !step.DoPrune? && !step.DoDelete? {
      EventsUntouched(s, step, after);
    }
  }

  lemma NextAggregate(states: seq<Store>, steps: seq<Step>, i: nat, key: StreamKey)
    requires Run(states, steps) && i < |steps|
    ensures AggregateOf(states[i + 1].db, key)
            == if steps[i] == DoDelete(key.chat) then 0
               else AggregateOf(states[i].db, key) + if CommitsAt(states, steps, i, key) then 1 else 0
  {
    assert NextAt(states, steps, i);
    StepAggregate(states[i], steps[i], states[i + 1], key);
  }

  /** The aggregate version of a stream is the number of commits since its chat was deleted. */
  lemma {:induction false} AggregateCounts(states: seq<Store>, steps: seq<Step>, j: nat, key: StreamKey)
    requires Run(states, steps) && states[0] == EMPTY && j < |states|
    ensures AggregateOf(states[j].db, key) == CommitCount(states, steps, j, key)
    decreases j
  {
    if j > 0 {
      AggregateCounts(states, steps, j - 1, key);
      NextAggregate(states, steps, j - 1, key);
    }
  }
}
