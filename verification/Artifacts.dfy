/** Artifact staging, promotion, orphan collection and reading. */
module Artifacts {
  import opened Base
  import opened Tables
  import opened Ledger
  import opened LocalHistoryStores

  const MAX_ARTIFACT_BYTES: nat := 64 * 1024 * 1024
  const MAX_PREPARED_BYTES: nat := 512 * 1024 * 1024
  const MAX_RANGE_BYTES: nat := 8 * 1024 * 1024

  /** The database and the content objects beside it. */
  datatype Store = Store(db: Db, objects: Objects)

  datatype Upload = Upload(artifact: Id, mediaType: string, name: string, content: Bytes)
  datatype ArtifactToken = ArtifactToken(token: Id, artifact: Id, hash: ContentHash, size: nat, generation: nat)

  // ----------------------------------------------------------------- staged bytes

  function StagedSize(row: PreparedRow): nat {
    if row.finalized.None? then row.size else 0
  }

  /** `SELECT SUM(byte_size) … WHERE finalized_event_id IS NULL`. */
  ghost function StagedBytes(prepared: map<Id, PreparedRow>): nat {
    Total(prepared, StagedSize)
  }

  lemma StagedWith(prepared: map<Id, PreparedRow>, t: Id, row: PreparedRow)
    ensures t !in prepared ==> StagedBytes(prepared[t := row]) == StagedBytes(prepared) + StagedSize(row)
    ensures t in prepared ==>
              StagedBytes(prepared[t := row]) + StagedSize(prepared[t]) == StagedBytes(prepared) + StagedSize(row)
  {
    TotalWithout(prepared[t := row], t, StagedSize);
    if t in prepared {
      TotalWithout(prepared, t, StagedSize);
      assert prepared[t := row] - {t} == prepared - {t};
    } else {
      assert prepared[t := row] - {t} == prepared;
    }
  }

  lemma {:induction false} StagedLess(part: map<Id, PreparedRow>, whole: map<Id, PreparedRow>)
    requires forall t :: t in part ==> t in whole && part[t] == whole[t]
    ensures StagedBytes(part) <= StagedBytes(whole)
    decreases |part|
  {
    if part != map[] {
      var t :| t in part;
      assert |part - {t}| < |part|;
      TotalWithout(part, t, StagedSize);
      TotalWithout(whole, t, StagedSize);
      StagedLess(part - {t}, whole - {t});
    }
  }

  // --------------------------------------------------------------- the invariant

  /** Every content hash named by a prepared or final row has its intact object. */
  ghost predicate Live(staging: Staging, objects: Objects) {
    && (forall t :: t in staging.prepared ==> ObjectIntact(objects, staging.prepared[t].hash, staging.prepared[t].size))
    && (forall a :: a in staging.artifacts ==> ObjectIntact(objects, staging.artifacts[a].hash, staging.artifacts[a].size))
  }

  ghost predicate Safe(staging: Staging, objects: Objects) {
    Live(staging, objects) && StagedBytes(staging.prepared) <= MAX_PREPARED_BYTES
  }

  // -------------------------------------------------------------------- preparing

  ghost predicate IsLastGeneration(prepared: map<Id, PreparedRow>, artifact: Id, g: nat) {
    && (forall t :: t in prepared && prepared[t].artifact == artifact ==> prepared[t].generation <= g)
    && (g == 0 || exists t :: t in prepared && prepared[t].artifact == artifact && prepared[t].generation == g)
  }

  /** The object file a promotion leaves. */
  function Promoted(objects: Objects, content: Bytes, now: nat): Result<Objects> {
    var hash := OfBytes(content);
    if hash !in objects then Ok(objects[hash := ObjectFile(content, now)])
    else if ObjectIntact(objects, hash, |content|) then Ok(objects)
    else Err(CorruptArtifact)
  }

  /** What stops `prepare_reader` before it touches an object. */
  ghost function PrepareCheck(staging: Staging, upload: Upload): Check {
    Need(ValidText(upload.mediaType) && ValidText(upload.name), InvalidText)
    .Then(Need(|upload.content| <= MAX_ARTIFACT_BYTES, ArtifactTooLarge))
    .Then(Need(StagedBytes(staging.prepared) + |upload.content| <= MAX_PREPARED_BYTES, ArtifactQuotaExceeded))
  }

  function StagedRow(upload: Upload, generation: nat, now: nat): PreparedRow {
    PreparedRow(upload.artifact, OfBytes(upload.content), |upload.content|, upload.mediaType, upload.name, generation, now, None)
  }

  /** The object is promoted before its row is stored. A used token leaves the
      object behind without a row, and so does a crash between the two. */
  ghost predicate PrepareStep(s: Store, upload: Upload, token: Id, now: nat, after: Store, r: Result<ArtifactToken>) {
    var check := PrepareCheck(s.db.staging, upload);
    var promoted := Promoted(s.objects, upload.content, now);
    if check.Fail? then after == s && r == Err(check.error)
    else if promoted.Err? then after == s && r == Err(promoted.error)
    else if token in s.db.staging.prepared then after == s.(objects := promoted.value) && r == Err(Sql)
    else
      exists last: nat | IsLastGeneration(s.db.staging.prepared, upload.artifact, last) ::
        && after == Store(Staged(s.db, token, StagedRow(upload, last + 1, now)), promoted.value)
        && r == Ok(ArtifactToken(token, upload.artifact, OfBytes(upload.content), |upload.content|, last + 1))
  }

  function Staged(db: Db, token: Id, row: PreparedRow): Db {
    db.(staging := db.staging.(prepared := db.staging.prepared[token := row]))
  }

  /** The result of a preparation is fixed: the new generation is one more than the
      greatest the artifact has had staged. */
  lemma PrepareDetermined(s: Store, upload: Upload, token: Id, now: nat, a: Store, b: Store,
                          r: Result<ArtifactToken>, q: Result<ArtifactToken>)
    requires PrepareStep(s, upload, token, now, a, r) && PrepareStep(s, upload, token, now, b, q)
    ensures a == b && r == q
    ensures r.Ok? ==> forall t :: t in s.db.staging.prepared && s.db.staging.prepared[t].artifact == upload.artifact ==>
                                    s.db.staging.prepared[t].generation < r.value.generation
  {
  }

  lemma PromoteKeepsSafe(staging: Staging, objects: Objects, content: Bytes, now: nat)
    requires Safe(staging, objects) && Promoted(objects, content, now).Ok?
    ensures Safe(staging, Promoted(objects, content, now).value)
    ensures ObjectIntact(Promoted(objects, content, now).value, OfBytes(content), |content|)
  {
  }

  /** Preparing keeps every row's object and the staging quota. */
  lemma PrepareKeepsSafe(s: Store, upload: Upload, token: Id, now: nat, after: Store, r: Result<ArtifactToken>)
    requires Safe(s.db.staging, s.objects) && PrepareStep(s, upload, token, now, after, r)
    ensures Safe(after.db.staging, after.objects)
  {
    var promoted := Promoted(s.objects, upload.content, now);
    if PrepareCheck(s.db.staging, upload).Pass? && promoted.Ok? {
      PromoteKeepsSafe(s.db.staging, s.objects, upload.content, now);
      if token !in s.db.staging.prepared {
        StagedWith(s.db.staging.prepared, token, after.db.staging.prepared[token]);
      }
    }
  }

  // -------------------------------------------------------------------- finalizing

  lemma FinalizeOneKeepsSafe(staging: Staging, objects: Objects, events: seq<Id>, ref: ArtifactRef)
    requires Safe(staging, objects) && FinalizeOne(staging, objects, events, ref).Ok?
    ensures Safe(FinalizeOne(staging, objects, events, ref).value, objects)
  {
    var row := staging.prepared[ref.token];
    StagedWith(staging.prepared, ref.token, row.(finalized := Some(ref.origin)));
  }

  /** Committing artifacts keeps every row's object and only frees quota. */
  lemma {:induction false} FinalizeKeepsSafe(staging: Staging, objects: Objects, events: seq<Id>, refs: seq<ArtifactRef>)
    requires Safe(staging, objects) && FinalizeAll(staging, objects, events, refs).Ok?
    ensures Safe(FinalizeAll(staging, objects, events, refs).value, objects)
    decreases |refs|
  {
    if refs != [] {
      FinalizeOneKeepsSafe(staging, objects, events, refs[0]);
      FinalizeKeepsSafe(FinalizeOne(staging, objects, events, refs[0]).value, objects, events, refs[1..]);
    }
  }

  // -------------------------------------------------------------------- collecting

  predicate Expires(row: PreparedRow, older: nat) {
    row.finalized.None? && row.preparedAt < older
  }

  /** The first transaction of `collect_orphans`. */
  function Expired(staging: Staging, older: nat): Staging {
    staging.(prepared := map t | t in staging.prepared && !Expires(staging.prepared[t], older) :: staging.prepared[t])
  }

  function ExpiredHashes(staging: Staging, older: nat): set<ContentHash> {
    set t | t in staging.prepared && Expires(staging.prepared[t], older) :: staging.prepared[t].hash
  }

  predicate Used(staging: Staging, hash: ContentHash) {
    || (exists t | t in staging.prepared :: staging.prepared[t].hash == hash)
    || (exists a | a in staging.artifacts :: staging.artifacts[a].hash == hash)
  }

  predicate Orphan(staging: Staging, file: ObjectFile, hash: ContentHash, expired: set<ContentHash>, older: nat) {
    !Used(staging, hash) && (hash in expired || file.modified < older)
  }

  /** The sweep of the second transaction. */
  function Swept(staging: Staging, objects: Objects, expired: set<ContentHash>, older: nat): Objects {
    map h | h in objects && !Orphan(staging, objects[h], h, expired, older) :: objects[h]
  }

  lemma ExpireKeepsSafe(staging: Staging, objects: Objects, older: nat)
    requires Safe(staging, objects)
    ensures Safe(Expired(staging, older), objects)
  {
    StagedLess(Expired(staging, older).prepared, staging.prepared);
  }

  /** Removing an unused object keeps every row's object. */
  lemma RemoveUnusedKeepsSafe(staging: Staging, objects: Objects, hash: ContentHash)
    requires Safe(staging, objects) && !Used(staging, hash)
    ensures Safe(staging, objects - {hash})
  {
  }

  lemma SweepKeepsSafe(staging: Staging, objects: Objects, expired: set<ContentHash>, older: nat)
    requires Safe(staging, objects)
    ensures Safe(staging, Swept(staging, objects, expired, older))
  {
  }

  /** A failed verification marks the artifact, if it is known. */
  function MarkedCorrupt(db: Db, artifact: Id): Db {
    if artifact !in db.staging.artifacts then db
    else db.(staging := db.staging.(artifacts :=
           db.staging.artifacts[artifact := db.staging.artifacts[artifact].(corrupt := true)]))
  }

  // ------------------------------------------------------------------- the methods

  method LastGeneration(prepared: map<Id, PreparedRow>, artifact: Id) returns (g: nat)
    ensures IsLastGeneration(prepared, artifact, g)
  {
    g := 0;
    var rest := prepared.Keys;
    while rest != {}
      invariant rest <= prepared.Keys
      invariant forall t :: t in prepared.Keys - rest && prepared[t].artifact == artifact ==> prepared[t].generation <= g
      invariant g == 0 || exists t :: t in prepared && prepared[t].artifact == artifact && prepared[t].generation == g
    {
      var t :| t in rest;
      if prepared[t].artifact == artifact && prepared[t].generation > g {
        g := prepared[t].generation;
      }
      rest := rest - {t};
    }
    assert forall t :: t in prepared ==> t in prepared.Keys - rest;
  }

  /** What a reader gives before its first empty read. */
  function UntilEmpty(chunks: seq<Bytes>): Bytes {
    if chunks == [] || chunks[0] == [] then [] else chunks[0] + UntilEmpty(chunks[1..])
  }

  lemma UntilEmptyStep(chunks: seq<Bytes>, i: nat, file: Bytes)
    requires i < |chunks| && chunks[i] != []
    ensures file + UntilEmpty(chunks[i..]) == file + chunks[i] + UntilEmpty(chunks[i + 1..])
  {
    assert chunks[i..][1..] == chunks[i + 1..];
  }

  /** `stream_temporary`: reads until an empty read, and gives up past the limit. */
  method StreamTemporary(chunks: seq<Bytes>) returns (r: Result<Bytes>)
    ensures r == if |UntilEmpty(chunks)| > MAX_ARTIFACT_BYTES then Err(ArtifactTooLarge) else Ok(UntilEmpty(chunks))
  {
    var file: Bytes := [];
    var i := 0;
    while i < |chunks| && chunks[i] != []
      invariant i <= |chunks| && |file| <= MAX_ARTIFACT_BYTES
      invariant file + UntilEmpty(chunks[i..]) == UntilEmpty(chunks)
    {
      UntilEmptyStep(chunks, i, file);
      if |file| + |chunks[i]| > MAX_ARTIFACT_BYTES {
        return Err(ArtifactTooLarge);
      }
      file := file + chunks[i];
      i := i + 1;
    }
    assert UntilEmpty(chunks[i..]) == [] && file + [] == file;
    return Ok(file);
  }

  /** `collect_unreferenced_objects`: exactly the objects that are no orphans stay. */
  method SweepObjects(staging: Staging, objects: Objects, expired: set<ContentHash>, older: nat)
    returns (kept: Objects, removed: nat)
    ensures kept == Swept(staging, objects, expired, older)
    ensures removed == |objects| - |kept|
  {
    kept, removed := objects, 0;
    var rest := objects.Keys;
    while rest != {}
      invariant rest <= kept.Keys <= objects.Keys
      invariant forall h :: h in objects.Keys - rest ==> (h in kept <==> !Orphan(staging, objects[h], h, expired, older))
      invariant forall h :: h in kept ==> kept[h] == objects[h]
      invariant removed == |objects| - |kept|
    {
      var h :| h in rest;
      if Orphan(staging, objects[h], h, expired, older) {
        assert |kept - {h}| == |kept| - 1;
        kept := kept - {h};
        removed := removed + 1;
      }
      rest := rest - {h};
    }
    assert forall h :: h in objects ==> h in objects.Keys - rest;
  }

  class ArtifactStore {
    const store: LocalHistoryStore

    constructor (store: LocalHistoryStore)
      ensures this.store == store
    {
      this.store := store;
    }

    ghost function State(): Store
      reads store
    {
      Store(store.db, store.objects)
    }

    /** `prepare_reader`. */
    method PrepareReader(artifact: Id, mediaType: string, name: string, chunks: seq<Bytes>, token: Id, now: nat)
      returns (r: Result<ArtifactToken>)
      requires Safe(store.db.staging, store.objects)
      modifies store
      ensures PrepareStep(old(State()), Upload(artifact, mediaType, name, UntilEmpty(chunks)), token, now, State(), r)
      ensures Safe(store.db.staging, store.objects)
    {
      ghost var before, upload := State(), Upload(artifact, mediaType, name, UntilEmpty(chunks));
      if !ValidText(mediaType) || !ValidText(name) { return Err(InvalidText); }
      var content := StreamTemporary(chunks);
      if content.Err? { return Err(content.error); }
      var staged := SumRows(store.db.staging.prepared, StagedSize);
      if staged + |content.value| > MAX_PREPARED_BYTES { return Err(ArtifactQuotaExceeded); }
      var last := LastGeneration(store.db.staging.prepared, artifact);
      var promoted := Promoted(store.objects, content.value, now);
      if promoted.Err? { return Err(promoted.error); }
      store.objects := promoted.value;
      if token in store.db.staging.prepared {
        r := Err(Sql);
      } else {
        store.db := Staged(store.db, token, StagedRow(Upload(artifact, mediaType, name, content.value), last + 1, now));
        r := Ok(ArtifactToken(token, artifact, OfBytes(content.value), |content.value|, last + 1));
      }
      PrepareKeepsSafe(before, upload, token, now, State(), r);
    }

    /** `collect_orphans`: expired staging rows go first, then exactly the objects no row uses. */
    method CollectOrphans(older: nat) returns (removed: nat)
      requires Safe(store.db.staging, store.objects)
      modifies store
      ensures store.db == old(store.db).(staging := Expired(old(store.db).staging, older))
      ensures store.objects
              == Swept(store.db.staging, old(store.objects), ExpiredHashes(old(store.db).staging, older), older)
      ensures removed == |old(store.objects)| - |store.objects|
      ensures Safe(store.db.staging, store.objects)
    {
      var expired := ExpiredHashes(store.db.staging, older);
      ExpireKeepsSafe(store.db.staging, store.objects, older);
      store.db := store.db.(staging := Expired(store.db.staging, older));
      SweepKeepsSafe(store.db.staging, store.objects, expired, older);
      store.objects, removed := SweepObjects(store.db.staging, store.objects, expired, older);
    }

    /** `read_range`: a slice of the very bytes the content hash names. While every
        object is intact, reading never reports corruption. */
    method ReadRange(artifact: Id, offset: nat, length: nat) returns (r: Result<Bytes>)
      modifies store`db
      ensures length > MAX_RANGE_BYTES ==> r == Err(ArtifactRangeTooLarge) && store.db == old(store.db)
      ensures length <= MAX_RANGE_BYTES && artifact !in old(store.db).staging.artifacts ==>
                r == Err(UnknownArtifact) && store.db == old(store.db)
      ensures r.Ok? ==>
                && store.db == old(store.db) && artifact in store.db.staging.artifacts
                && var bytes := store.db.staging.artifacts[artifact].hash.bytes;
                   r.value == bytes[Min(offset, |bytes|)..Min(offset + length, |bytes|)]
      ensures (&& Safe(old(store.db).staging, store.objects)
               && length <= MAX_RANGE_BYTES && artifact in old(store.db).staging.artifacts) ==> r.Ok?
      ensures r == Err(CorruptArtifact) ==> store.db == MarkedCorrupt(old(store.db), artifact)
    {
      if length > MAX_RANGE_BYTES { return Err(ArtifactRangeTooLarge); }
      if artifact !in store.db.staging.artifacts { return Err(UnknownArtifact); }
      var row := store.db.staging.artifacts[artifact];
      if !ObjectIntact(store.objects, row.hash, row.size) {
        store.db := MarkedCorrupt(store.db, artifact);
        return Err(CorruptArtifact);
      }
      var available := if offset < row.size then row.size - offset else 0;
      var bounded := Min(available, length);
      var start := Min(offset, row.size);
      return Ok(store.objects[row.hash].bytes[start..start + bounded]);
    }
  }
}
