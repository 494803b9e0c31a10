/** The extension inventory: record, contribution and audit tables written together. */
module ExtensionInventories {
  import opened Base
  import opened Tables

  const MAX_CONTRIBUTIONS: nat := 256
  const MAX_AUDIT_DETAIL_BYTES: nat := 4096
  const MAX_AUDIT_PAGE: nat := 256

  type Id = string

  datatype Identity = Identity(extension: Id, version: string, contentHash: string)
  datatype Contribution = Contribution(id: Id, capability: Id, descriptorHash: string)

  /** Fields that are compared and validated but not read otherwise; `sound` says whether
      validation accepts them. */
  datatype Details = Details(text: string, sound: bool)

  /** `rest` stands for dependencies, compatibility range, provenance, configuration hash
      and the other descriptor fields. */
  datatype Manifest = Manifest(identity: Identity, entryPoint: string, contributions: seq<Contribution>, rest: Details)

  /** `status` stands for integrity, compatibility, quarantine and attestation. */
  datatype Record = Record(version: nat, manifest: Manifest, installed: bool, enabled: bool, status: Details) {
    function Identity(): Identity { manifest.identity }
  }

  datatype Write = Write(operation: Id, expected: Option<nat>, record: Record, kind: string, detail: string)

  /** SHA-256 digests are modelled by what they digest, so that they never collide. */
  datatype RecordHash = OfRecord(record: Record)
  datatype WriteHash = OfWrite(write: Write)

  datatype RecordRow = RecordRow(record: Record, hash: RecordHash)
  datatype ContributionKey = ContributionKey(identity: Identity, contribution: Id)
  datatype ContributionRow = ContributionRow(capability: Id, descriptorHash: string)
  datatype AuditRow = AuditRow(
    operation: Id, request: WriteHash, identity: Identity, version: nat, kind: string,
    prior: Option<RecordHash>, hash: RecordHash, detail: string, record: Record)

  /** The audit row with sequence n is the n-th of `audit`. */
  datatype Inventory = Inventory(
    records: map<Identity, RecordRow>, contributions: map<ContributionKey, ContributionRow>, audit: seq<AuditRow>)

  datatype Error =
    | ForwardSchema | InvalidRecord | InvalidAuditDetail | OperationConflict | Missing | AlreadyExists
    | InvalidRecordVersion | VersionConflict(expected: nat, actual: nat) | IdentityMutation | Corrupt | Sql

  datatype Result<+T> = Ok(value: T) | Err(error: Error)

  // -------------------------------------------------------------------- validation

  predicate CanonicalSha256(hash: string) {
    && |hash| == 71 && hash[..7] == "sha256:"
    && forall i | 7 <= i < |hash| :: '0' <= hash[i] <= '9' || 'a' <= hash[i] <= 'f'
  }

  predicate Ascending(contributions: seq<Contribution>) {
    forall i | 0 < i < |contributions| :: !TextAtMost(contributions[i].id, contributions[i - 1].id)
  }

  predicate ValidRecord(record: Record) {
    var manifest := record.manifest;
    && 1 <= record.version <= I64_MAX
    && 1 <= Utf8Length(manifest.identity.version) <= 128
    && CanonicalSha256(manifest.identity.contentHash)
    && 1 <= Utf8Length(manifest.entryPoint) <= 4096 && '\0' !in manifest.entryPoint
    && |manifest.contributions| <= MAX_CONTRIBUTIONS
    && (record.enabled ==> record.installed)
    && Ascending(manifest.contributions)
    && manifest.rest.sound && record.status.sound
  }

  predicate ValidDetail(detail: string) {
    detail != "" && Utf8Length(detail) <= MAX_AUDIT_DETAIL_BYTES && '\0' !in detail
  }

  lemma {:induction false} AscendingDistinct(contributions: seq<Contribution>, i: nat, j: nat)
    requires Ascending(contributions) && i < j < |contributions|
    ensures TextAtMost(contributions[i].id, contributions[j].id) && contributions[i].id != contributions[j].id
    decreases j
  {
    TextTotal(contributions[j].id, contributions[j - 1].id);
    if i < j - 1 {
      AscendingDistinct(contributions, i, j - 1);
      TextTransitive(contributions[i].id, contributions[j - 1].id, contributions[j].id);
    }
    TextReflexive(contributions[i].id);
  }

  // ----------------------------------------------------------------------- writing

  /** The audit row of an operation, if it was applied before. */
  predicate HasOperation(audit: seq<AuditRow>, operation: Id) {
    exists i | 0 <= i < |audit| :: audit[i].operation == operation
  }

  ghost function RowOf(audit: seq<AuditRow>, operation: Id): (row: AuditRow)
    requires HasOperation(audit, operation)
    ensures row in audit && row.operation == operation
  {
    var i :| 0 <= i < |audit| && audit[i].operation == operation;
    audit[i]
  }

  /** The checks on the stored record. */
  function VersionCheck(records: map<Identity, RecordRow>, write: Write): Option<Error> {
    var id := write.record.Identity();
    if id !in records then
      if write.expected.Some? then Some(Missing)
      else if write.record.version == 1 then None
      else Some(InvalidRecordVersion)
    else
      var current := records[id].record;
      if write.expected.None? then Some(AlreadyExists)
      else if current.version != write.expected.value then Some(VersionConflict(write.expected.value, current.version))
      else if write.record.version != write.expected.value + 1 then Some(InvalidRecordVersion)
      else if current.manifest != write.record.manifest then Some(IdentityMutation)
      else None
  }

  function ContributionKeys(record: Record): seq<ContributionKey> {
    var cs := record.manifest.contributions;
    seq(|cs|, i requires 0 <= i < |cs| => ContributionKey(record.Identity(), cs[i].id))
  }

  function ContributionRows(record: Record): seq<ContributionRow> {
    var cs := record.manifest.contributions;
    seq(|cs|, i requires 0 <= i < |cs| => ContributionRow(cs[i].capability, cs[i].descriptorHash))
  }

  /** The contribution table has a primary key and no other constraint. */
  predicate NeverClash(a: ContributionRow, b: ContributionRow) { false }

  function Cleared(contributions: map<ContributionKey, ContributionRow>, identity: Identity):
      map<ContributionKey, ContributionRow> {
    map k | k in contributions && k.identity != identity :: contributions[k]
  }

  function ContributionsAfter(inventory: Inventory, record: Record): Option<map<ContributionKey, ContributionRow>> {
    Inserted(Cleared(inventory.contributions, record.Identity()), ContributionKeys(record), ContributionRows(record), NeverClash)
  }

  function AuditRowFor(inventory: Inventory, write: Write): AuditRow {
    var id := write.record.Identity();
    AuditRow(write.operation, OfWrite(write), id, write.record.version, write.kind,
             if id in inventory.records then Some(OfRecord(inventory.records[id].record)) else None,
             OfRecord(write.record), write.detail, write.record)
  }

  /** `UNIQUE(extension_id, version, content_hash, record_version)` in the audit table. */
  predicate AuditClash(audit: seq<AuditRow>, row: AuditRow) {
    exists i | 0 <= i < |audit| :: audit[i].identity == row.identity && audit[i].version == row.version
  }

  datatype Applied = Applied(inventory: Inventory, record: Record)

  /** `write_record`, in a store that accepts writes. */
  ghost function Writing(inventory: Inventory, write: Write): (r: Result<Applied>) {
    if !ValidRecord(write.record) then Err(InvalidRecord)
    else if !ValidDetail(write.detail) then Err(InvalidAuditDetail)
    else if HasOperation(inventory.audit, write.operation) then
      var row := RowOf(inventory.audit, write.operation);
      if row.request != OfWrite(write) then Err(OperationConflict) else Ok(Applied(inventory, row.record))
    else if VersionCheck(inventory.records, write).Some? then Err(VersionCheck(inventory.records, write).value)
    else if ContributionsAfter(inventory, write.record).None? then Err(Sql)
    else if AuditClash(inventory.audit, AuditRowFor(inventory, write)) then Err(Sql)
    else Ok(Applied(Extended(inventory, write, ContributionsAfter(inventory, write.record).value), write.record))
  }

  /** The three tables after a new write. */
  function Extended(inventory: Inventory, write: Write, contributions: map<ContributionKey, ContributionRow>): Inventory {
    Inventory(inventory.records[write.record.Identity() := RecordRow(write.record, OfRecord(write.record))],
              contributions, inventory.audit + [AuditRowFor(inventory, write)])
  }

  // --------------------------------------------------------------------- replaying

  /** The record table that the audit log tells. */
  function Replay(audit: seq<AuditRow>): (records: map<Identity, Record>)
  {
    if audit == [] then map[]
    else Replay(audit[..|audit| - 1])[audit[|audit| - 1].identity := audit[|audit| - 1].record]
  }

  /** An audit row continues the records before it: it names the hash of the record
      it replaces, counts its version up by one, and leaves the manifest alone. */
  predicate Linked(before: map<Identity, Record>, row: AuditRow) {
    && ValidRecord(row.record) && row.hash == OfRecord(row.record)
    && row.identity == row.record.Identity() && row.version == row.record.version
    && row.request.write.record == row.record && row.request.write.operation == row.operation
    && row.request.write.kind == row.kind && row.request.write.detail == row.detail
    && if row.identity in before then
         && row.prior == Some(OfRecord(before[row.identity]))
         && row.version == before[row.identity].version + 1
         && row.record.manifest == before[row.identity].manifest
       else row.prior == None && row.version == 1
  }

  ghost predicate Chained(audit: seq<AuditRow>) {
    forall i :: 0 <= i < |audit| ==> Linked(Replay(audit[..i]), audit[i])
  }

  ghost predicate OperationsDistinct(audit: seq<AuditRow>) {
    forall i, j :: 0 <= i < j < |audit| ==> audit[i].operation != audit[j].operation
  }

  function CurrentRecords(records: map<Identity, RecordRow>): map<Identity, Record> {
    map id | id in records :: records[id].record
  }

  ghost predicate Declares(record: Record, contribution: Id, row: ContributionRow) {
    exists i :: 0 <= i < |record.manifest.contributions|
      && record.manifest.contributions[i] == Contribution(contribution, row.capability, row.descriptorHash)
  }

  /** The contribution table holds exactly what the current manifests declare. */
  ghost predicate Indexed(records: map<Identity, RecordRow>, contributions: map<ContributionKey, ContributionRow>) {
    forall k, row :: IndexedAt(records, contributions, k, row)
  }

  ghost predicate IndexedAt(records: map<Identity, RecordRow>, contributions: map<ContributionKey, ContributionRow>,
                            k: ContributionKey, row: ContributionRow) {
    k in contributions && contributions[k] == row
    <==> k.identity in records && Declares(records[k.identity].record, k.contribution, row)
  }

  ghost predicate HashesRight(records: map<Identity, RecordRow>) {
    forall id :: id in records ==>
      records[id].hash == OfRecord(records[id].record) && records[id].record.Identity() == id && ValidRecord(records[id].record)
  }

  ghost predicate Consistent(inventory: Inventory) {
    && Chained(inventory.audit) && OperationsDistinct(inventory.audit)
    && CurrentRecords(inventory.records) == Replay(inventory.audit)
    && HashesRight(inventory.records)
    && Indexed(inventory.records, inventory.contributions)
  }

  // ----------------------------------------------------------------- every write

  lemma KeysDistinct(record: Record)
    requires ValidRecord(record)
    ensures forall i, j :: 0 <= i < j < |ContributionKeys(record)| ==> ContributionKeys(record)[i] != ContributionKeys(record)[j]
  {
    forall i, j | 0 <= i < j < |ContributionKeys(record)| ensures ContributionKeys(record)[i] != ContributionKeys(record)[j] {
      AscendingDistinct(record.manifest.contributions, i, j);
    }
  }

  /** A valid record's contributions never collide. */
  lemma ContributionsInsert(inventory: Inventory, record: Record)
    requires ValidRecord(record)
    ensures ContributionsAfter(inventory, record).Some?
  {
    KeysDistinct(record);
    InsertedExactly(Cleared(inventory.contributions, record.Identity()), ContributionKeys(record), ContributionRows(record),
                    NeverClash);
  }

  lemma ContributionsIndexed(inventory: Inventory, record: Record)
    requires Indexed(inventory.records, inventory.contributions) && ContributionsAfter(inventory, record).Some?
    ensures Indexed(inventory.records[record.Identity() := RecordRow(record, OfRecord(record))],
                    ContributionsAfter(inventory, record).value)
  {
    var id, cs := record.Identity(), record.manifest.contributions;
    var keys, rows := ContributionKeys(record), ContributionRows(record);
    var kept, after := Cleared(inventory.contributions, id), ContributionsAfter(inventory, record).value;
    var records := inventory.records[id := RecordRow(record, OfRecord(record))];
    InsertedExtends(kept, keys, rows, NeverClash);
    forall k, row ensures IndexedAt(records, after, k, row) {
      if k.identity != id {
        assert IndexedAt(inventory.records, inventory.contributions, k, row);
        assert k !in keys;
      } else {
        DeclaredIsInserted(record, kept, after, k, row);
      }
    }
  }

  lemma DeclaredIsInserted(record: Record, kept: map<ContributionKey, ContributionRow>,
                           after: map<ContributionKey, ContributionRow>, k: ContributionKey, row: ContributionRow)
    requires Extends(kept, ContributionKeys(record), ContributionRows(record), after)
    requires k.identity == record.Identity() && k !in kept
    ensures k in after && after[k] == row <==> Declares(record, k.contribution, row)
  {
    var keys, rows, cs := ContributionKeys(record), ContributionRows(record), record.manifest.contributions;
    if k in after && after[k] == row {
      var i :| 0 <= i < |keys| && keys[i] == k;
      assert cs[i] == Contribution(k.contribution, row.capability, row.descriptorHash);
    }
    if Declares(record, k.contribution, row) {
      var i :| 0 <= i < |cs| && cs[i] == Contribution(k.contribution, row.capability, row.descriptorHash);
      assert keys[i] == k && rows[i] == row;
    }
  }

  lemma ReplaySnoc(audit: seq<AuditRow>, row: AuditRow)
    ensures Replay(audit + [row]) == Replay(audit)[row.identity := row.record]
    ensures Linked(Replay(audit), row) && Chained(audit) ==> Chained(audit + [row])
  {
    var more := audit + [row];
    assert more[..|audit|] == audit;
    if Linked(Replay(audit), row) && Chained(audit) {
      forall i | 0 <= i < |more| ensures Linked(Replay(more[..i]), more[i]) {
        if i < |audit| {
          assert more[..i] == audit[..i];
        }
      }
    }
  }

  /** What the log tells of one identity: its versions count up from 1 without a gap. */
  function Count(audit: seq<AuditRow>, id: Identity): nat {
    if audit == [] then 0
    else Count(audit[..|audit| - 1], id) + if audit[|audit| - 1].identity == id then 1 else 0
  }

  lemma ChainedPrefix(audit: seq<AuditRow>, n: nat)
    requires Chained(audit) && n <= |audit|
    ensures Chained(audit[..n])
  {
    forall i | 0 <= i < n ensures Linked(Replay(audit[..n][..i]), audit[..n][i]) {
      assert audit[..n][..i] == audit[..i];
    }
  }

  /** The current version of a record is the number of its audit rows. */
  lemma {:induction false} VersionIsCount(audit: seq<AuditRow>, id: Identity)
    requires Chained(audit)
    ensures id in Replay(audit) <==> Count(audit, id) > 0
    ensures id in Replay(audit) ==> Replay(audit)[id].version == Count(audit, id)
    decreases |audit|
  {
    if audit != [] {
      var n := |audit| - 1;
      ChainedPrefix(audit, n);
      VersionIsCount(audit[..n], id);
      assert Linked(Replay(audit[..n]), audit[n]);
    }
  }

  /** The n-th audit row of an identity has version n. */
  lemma VersionsCountUp(audit: seq<AuditRow>, i: nat)
    requires Chained(audit) && i < |audit|
    ensures audit[i].version == Count(audit[..i], audit[i].identity) + 1
  {
    ChainedPrefix(audit, i);
    VersionIsCount(audit[..i], audit[i].identity);
    assert Linked(Replay(audit[..i]), audit[i]);
  }

  /** The counts never pass the number a later row carries, so no version repeats. */
  lemma {:induction false} CountGrows(audit: seq<AuditRow>, id: Identity, i: nat)
    requires i < |audit| && audit[i].identity == id
    ensures Count(audit[..i], id) + 1 <= Count(audit, id)
    decreases |audit|
  {
    var n := |audit| - 1;
    if i < n {
      assert audit[..n][..i] == audit[..i];
      CountGrows(audit[..n], id, i);
    }
  }

  /** A write that passes the version check carries the next number, so that the
      audit table's uniqueness constraint cannot refuse it. */
  lemma NoAuditClash(inventory: Inventory, write: Write)
    requires Chained(inventory.audit) && CurrentRecords(inventory.records) == Replay(inventory.audit)
    requires VersionCheck(inventory.records, write).None?
    ensures !AuditClash(inventory.audit, AuditRowFor(inventory, write))
  {
    var audit, id := inventory.audit, write.record.Identity();
    assert id in CurrentRecords(inventory.records) <==> id in inventory.records;
    VersionIsCount(audit, id);
    forall i | 0 <= i < |audit| && audit[i].identity == id ensures audit[i].version < write.record.version {
      VersionsCountUp(audit, i);
      CountGrows(audit, id, i);
    }
  }

  /** The new audit row continues the log. */
  lemma AuditRowLinks(inventory: Inventory, write: Write)
    requires Consistent(inventory) && ValidRecord(write.record) && VersionCheck(inventory.records, write).None?
    ensures Linked(Replay(inventory.audit), AuditRowFor(inventory, write))
  {
    var id := write.record.Identity();
    assert id in CurrentRecords(inventory.records) <==> id in inventory.records;
  }

  lemma RecordsFollow(inventory: Inventory, write: Write)
    requires CurrentRecords(inventory.records) == Replay(inventory.audit)
    ensures CurrentRecords(inventory.records[write.record.Identity() := RecordRow(write.record, OfRecord(write.record))])
            == Replay(inventory.audit + [AuditRowFor(inventory, write)])
  {
    ReplaySnoc(inventory.audit, AuditRowFor(inventory, write));
  }

  lemma ExtendedConsistent(inventory: Inventory, write: Write, contributions: map<ContributionKey, ContributionRow>)
    requires Consistent(inventory) && ValidRecord(write.record) && VersionCheck(inventory.records, write).None?
    requires !HasOperation(inventory.audit, write.operation)
    requires Indexed(Extended(inventory, write, contributions).records, contributions)
    ensures Consistent(Extended(inventory, write, contributions))
  {
    AuditRowLinks(inventory, write);
    ReplaySnoc(inventory.audit, AuditRowFor(inventory, write));
    RecordsFollow(inventory, write);
    DistinctSnoc(inventory.audit, AuditRowFor(inventory, write));
  }

  lemma DistinctSnoc(audit: seq<AuditRow>, row: AuditRow)
    requires OperationsDistinct(audit) && !HasOperation(audit, row.operation)
    ensures OperationsDistinct(audit + [row])
  {
  }

  /** Every write keeps the record table, the contribution table and the log in
      agreement, and only ever adds to the log. */
  lemma WriteKeepsConsistent(inventory: Inventory, write: Write)
    requires Consistent(inventory) && Writing(inventory, write).Ok?
    ensures var after := Writing(inventory, write).value.inventory;
            Consistent(after) && inventory.audit <= after.audit
  {
    if !HasOperation(inventory.audit, write.operation) {
      var contributions := ContributionsAfter(inventory, write.record).value;
      ContributionsIndexed(inventory, write.record);
      ExtendedConsistent(inventory, write, contributions);
    }
  }

  /** The only errors of a write are the ones its checks name: no constraint of a
      table ever refuses it. */
  lemma WriteFailsOnlyByCheck(inventory: Inventory, write: Write)
    requires Consistent(inventory) && ValidRecord(write.record) && ValidDetail(write.detail)
    ensures Writing(inventory, write).Ok? <==>
              if HasOperation(inventory.audit, write.operation)
              then RowOf(inventory.audit, write.operation).request == OfWrite(write)
              else VersionCheck(inventory.records, write).None?
    ensures Writing(inventory, write) != Err(Sql)
  {
    ContributionsInsert(inventory, write.record);
    if VersionCheck(inventory.records, write).None? {
      NoAuditClash(inventory, write);
    }
  }

  // -------------------------------------------------------------------- whole runs

  ghost function Stepped(inventory: Inventory, write: Write): Inventory {
    var r := Writing(inventory, write);
    if r.Ok? then r.value.inventory else inventory
  }

  /** An inventory after a sequence of writes, failed ones included. */
  ghost function After(inventory: Inventory, writes: seq<Write>): Inventory
    decreases |writes|
  {
    if writes == [] then inventory else After(Stepped(inventory, writes[0]), writes[1..])
  }

  const NEW: Inventory := Inventory(map[], map[], [])

  lemma StepStaysConsistent(inventory: Inventory, write: Write, next: Inventory)
    requires Consistent(inventory) && next == Stepped(inventory, write)
    ensures Consistent(next) && inventory.audit <= next.audit
  {
    if Writing(inventory, write).Ok? {
      WriteKeepsConsistent(inventory, write);
    }
  }

  lemma {:induction false} RunsStayConsistent(inventory: Inventory, writes: seq<Write>)
    requires Consistent(inventory)
    ensures Consistent(After(inventory, writes)) && inventory.audit <= After(inventory, writes).audit
    decreases |writes|
  {
    if writes != [] {
      var next := Stepped(inventory, writes[0]);
      StepStaysConsistent(inventory, writes[0], next);
      RunsStayConsistent(next, writes[1..]);
    }
  }

  lemma NewIsConsistent()
    ensures Consistent(NEW)
  {
    forall k, row ensures IndexedAt(NEW.records, NEW.contributions, k, row) {
    }
  }

  /** Replaying the audit log gives the record table, after any run of writes. */
  lemma AuditReplays(writes: seq<Write>)
    ensures var end := After(NEW, writes);
            Consistent(end) && CurrentRecords(end.records) == Replay(end.audit)
  {
    NewIsConsistent();
    RunsStayConsistent(NEW, writes);
  }

  lemma RowUnique(audit: seq<AuditRow>, i: nat)
    requires OperationsDistinct(audit) && i < |audit|
    ensures HasOperation(audit, audit[i].operation) && RowOf(audit, audit[i].operation) == audit[i]
  {
    var row := RowOf(audit, audit[i].operation);
    var j :| 0 <= j < |audit| && audit[j] == row;
  }

  lemma KnownOperation(inventory: Inventory, i: nat, again: Write)
    requires OperationsDistinct(inventory.audit) && i < |inventory.audit|
    requires again.operation == inventory.audit[i].operation && ValidRecord(again.record) && ValidDetail(again.detail)
    ensures Writing(inventory, again)
            == if OfWrite(again) == inventory.audit[i].request then Ok(Applied(inventory, inventory.audit[i].record))
               else Err(OperationConflict)
  {
    RowUnique(inventory.audit, i);
  }

  lemma RowStays(inventory: Inventory, write: Write, later: seq<Write>)
    requires Consistent(inventory) && Writing(inventory, write).Ok? && !HasOperation(inventory.audit, write.operation)
    ensures var end, n := After(Stepped(inventory, write), later), |inventory.audit|;
            OperationsDistinct(end.audit) && n < |end.audit| && end.audit[n] == AuditRowFor(inventory, write)
  {
    var next := Stepped(inventory, write);
    StepStaysConsistent(inventory, write, next);
    RunsStayConsistent(next, later);
    assert next.audit[|inventory.audit|] == AuditRowFor(inventory, write);
  }

  /** Once applied, an operation answers every retry with the record it wrote and
      changes nothing more; another valid request under its name is refused. */
  lemma OperationsReplay(inventory: Inventory, write: Write, later: seq<Write>, again: Write)
    requires Consistent(inventory) && Writing(inventory, write).Ok? && !HasOperation(inventory.audit, write.operation)
    requires again.operation == write.operation && ValidRecord(again.record) && ValidDetail(again.detail)
    ensures var end := After(Stepped(inventory, write), later);
            Writing(end, again) == if again == write then Ok(Applied(end, write.record)) else Err(OperationConflict)
  {
    RowStays(inventory, write, later);
    KnownOperation(After(Stepped(inventory, write), later), |inventory.audit|, again);
  }

  lemma LinkKeepsManifest(before: map<Identity, Record>, row: AuditRow, id: Identity)
    requires Linked(before, row) && id in before
    ensures var after := before[row.identity := row.record]; after[id].manifest == before[id].manifest
  {
  }

  /** The manifest an identity was registered with never changes. */
  lemma {:induction false} ManifestNeverChanges(audit: seq<AuditRow>, i: nat)
    requires Chained(audit) && i < |audit|
    ensures audit[i].identity in Replay(audit) && Replay(audit)[audit[i].identity].manifest == audit[i].record.manifest
    decreases |audit|
  {
    var n := |audit| - 1;
    var before := audit[..n];
    assert Linked(Replay(before), audit[n]);
    if i < n {
      ChainedPrefix(audit, n);
      ManifestNeverChanges(before, i);
      LinkKeepsManifest(Replay(before), audit[n], audit[i].identity);
    }
  }

  lemma {:induction false} ReplayHoldsLatest(audit: seq<AuditRow>, i: nat)
    requires i < |audit| && forall k :: i < k < |audit| ==> audit[k].identity != audit[i].identity
    ensures audit[i].identity in Replay(audit) && Replay(audit)[audit[i].identity] == audit[i].record
    decreases |audit|
  {
    if i < |audit| - 1 {
      ReplayHoldsLatest(audit[..|audit| - 1], i);
    }
  }

  /** Neighbouring audit rows of one identity are linked: the later one names the
      hash of the earlier record, counts on from its version and keeps its manifest. */
  lemma NeighboursLink(audit: seq<AuditRow>, i: nat, j: nat)
    requires Chained(audit) && i < j < |audit| && audit[i].identity == audit[j].identity
    requires forall k :: i < k < j ==> audit[k].identity != audit[i].identity
    ensures audit[j].prior == Some(audit[i].hash) && audit[j].version == audit[i].version + 1
    ensures audit[j].record.manifest == audit[i].record.manifest
  {
    ReplayHoldsLatest(audit[..j], i);
    assert Linked(Replay(audit[..j]), audit[j]);
    assert Linked(Replay(audit[..i]), audit[i]);
  }

  // ------------------------------------------------------------------------ lookups

  /** `records_for_contribution`: the join of the two tables. */
  function ForContribution(inventory: Inventory, contribution: Id): set<Record> {
    set id | id in inventory.records && ContributionKey(id, contribution) in inventory.contributions
      :: inventory.records[id].record
  }

  /** A scan of every current manifest. */
  function DeclaredBy(inventory: Inventory, contribution: Id): set<Record> {
    set id | id in inventory.records
             && exists i | 0 <= i < |inventory.records[id].record.manifest.contributions| ::
                  inventory.records[id].record.manifest.contributions[i].id == contribution
      :: inventory.records[id].record
  }

  lemma InTableIffDeclared(inventory: Inventory, id: Identity, contribution: Id)
    requires Indexed(inventory.records, inventory.contributions) && id in inventory.records
    ensures ContributionKey(id, contribution) in inventory.contributions <==>
              exists i :: 0 <= i < |inventory.records[id].record.manifest.contributions|
                && inventory.records[id].record.manifest.contributions[i].id == contribution
  {
    var k, cs := ContributionKey(id, contribution), inventory.records[id].record.manifest.contributions;
    if k in inventory.contributions {
      assert IndexedAt(inventory.records, inventory.contributions, k, inventory.contributions[k]);
    }
    if i :| 0 <= i < |cs| && cs[i].id == contribution {
      var row := ContributionRow(cs[i].capability, cs[i].descriptorHash);
      assert IndexedAt(inventory.records, inventory.contributions, k, row);
      assert Declares(inventory.records[id].record, contribution, row);
    }
  }

  /** Looking a contribution up equals scanning the manifests. */
  lemma LookupIsScan(inventory: Inventory, contribution: Id)
    requires Consistent(inventory)
    ensures ForContribution(inventory, contribution) == DeclaredBy(inventory, contribution)
  {
    forall id | id in inventory.records
      ensures ContributionKey(id, contribution) in inventory.contributions <==>
                exists i :: 0 <= i < |inventory.records[id].record.manifest.contributions|
                  && inventory.records[id].record.manifest.contributions[i].id == contribution
    {
      InTableIffDeclared(inventory, id, contribution);
    }
  }

  // --------------------------------------------------------------------- the object

  function ClampPage(limit: nat): nat {
    if limit < 1 then 1 else if limit > MAX_AUDIT_PAGE then MAX_AUDIT_PAGE else limit
  }

  class ExtensionInventory {
    var inventory: Inventory
    const readOnly: bool

    constructor (readOnly: bool)
      ensures inventory == NEW && this.readOnly == readOnly
    {
      inventory := NEW;
      this.readOnly := readOnly;
    }

    /** `write_record`. */
    method WriteRecord(write: Write) returns (r: Result<Record>)
      requires Consistent(inventory)
      modifies this`inventory
      ensures Consistent(inventory)
      ensures readOnly ==> r == Err(ForwardSchema) && inventory == old(inventory)
      ensures !readOnly ==>
                match old(Writing(inventory, write))
                case Ok(Applied(after, record)) => inventory == after && r == Ok(record)
                case Err(error) => inventory == old(inventory) && r == Err(error)
    {
      if readOnly { return Err(ForwardSchema); }
      if !ValidRecord(write.record) { return Err(InvalidRecord); }
      if !ValidDetail(write.detail) { return Err(InvalidAuditDetail); }
      var known := FindOperation(inventory.audit, write.operation);
      if known.Some? {
        return if known.value.request != OfWrite(write) then Err(OperationConflict) else Ok(known.value.record);
      }
      var checked := VersionCheck(inventory.records, write);
      if checked.Some? { return Err(checked.value); }
      WriteFailsOnlyByCheck(inventory, write);
      WriteKeepsConsistent(inventory, write);
      var id := write.record.Identity();
      var contributions := InsertRows(Cleared(inventory.contributions, id), ContributionKeys(write.record),
                                      ContributionRows(write.record), NeverClash);
      inventory := Extended(inventory, write, contributions.value);
      return Ok(write.record);
    }

    /** `load_record`: in a reachable inventory a stored record never reads as corrupt. */
    method LoadRecord(id: Identity) returns (r: Result<Option<Record>>)
      requires Consistent(inventory)
      ensures r == Ok(if id in Replay(inventory.audit) then Some(Replay(inventory.audit)[id]) else None)
    {
      assert id in CurrentRecords(inventory.records) <==> id in inventory.records;
      if id !in inventory.records { return Ok(None); }
      var row := inventory.records[id];
      if !ValidRecord(row.record) || OfRecord(row.record) != row.hash { return Err(Corrupt); }
      return Ok(Some(row.record));
    }

    /** `audit`: the rows after a cursor; none of them reads as corrupt. */
    method Audit(after: nat, limit: nat) returns (r: Result<seq<AuditRow>>)
      requires Consistent(inventory)
      ensures var log := inventory.audit;
              r == Ok(log[Min(after, |log|)..Min(after + ClampPage(limit), |log|)])
    {
      var log := inventory.audit;
      var start, end := Min(after, |log|), Min(after + ClampPage(limit), |log|);
      for i := start to end {
        assert Linked(Replay(log[..i]), log[i]);
        var entry := log[i];
        if !ValidRecord(entry.record) || OfRecord(entry.record) != entry.hash || entry.record.version != entry.version
           || entry.record.Identity() != entry.identity
        {
          return Err(Corrupt);
        }
      }
      return Ok(log[start..end]);
    }
  }

  method FindOperation(audit: seq<AuditRow>, operation: Id) returns (row: Option<AuditRow>)
    requires OperationsDistinct(audit)
    ensures row == if HasOperation(audit, operation) then Some(RowOf(audit, operation)) else None
  {
    for i := 0 to |audit|
      invariant forall j :: 0 <= j < i ==> audit[j].operation != operation
    {
      if audit[i].operation == operation {
        RowUnique(audit, i);
        return Some(audit[i]);
      }
    }
    return None;
  }
}
