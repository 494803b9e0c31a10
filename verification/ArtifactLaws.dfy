/** Exactly what preparing accepts and what a collection removes. */
module ArtifactLaws {
  import opened Base
  import opened Ledger
  import opened LedgerValidation
  import opened Artifacts

  /** Some row names the content. */
  ghost predicate Named(staging: Staging, hash: ContentHash) {
    || (exists t :: t in staging.prepared && staging.prepared[t].hash == hash)
    || (exists a :: a in staging.artifacts && staging.artifacts[a].hash == hash)
  }

  /** A staging row expires exactly when no event has claimed it and it was prepared before
      the bound; nothing else changes. */
  lemma ExpiresExactly(staging: Staging, older: nat, token: Id)
    ensures var after := Expired(staging, older);
            && (token in after.prepared <==>
                  && token in staging.prepared
                  && (staging.prepared[token].finalized.Some? || staging.prepared[token].preparedAt >= older))
            && (token in after.prepared ==> after.prepared[token] == staging.prepared[token])
            && after.artifacts == staging.artifacts && after.references == staging.references
  {
  }

  /** A collection leaves an object exactly when a remaining row names it, or it is not older
      than the bound and no row that expired just now named it. */
  lemma CollectsExactly(staging: Staging, objects: Objects, older: nat, hash: ContentHash)
    ensures var after, kept := Expired(staging, older), Swept(Expired(staging, older), objects, ExpiredHashes(staging, older), older);
            && (hash in kept <==>
                  && hash in objects
                  && (|| Named(after, hash)
                      || (&& objects[hash].modified >= older
                          && forall t :: t in staging.prepared && t !in after.prepared ==> staging.prepared[t].hash != hash)))
            && (hash in kept ==> kept[hash] == objects[hash])
  {
    var after := Expired(staging, older);
    assert Used(after, hash) <==> Named(after, hash);
    if hash in ExpiredHashes(staging, older) {
      var t :| t in staging.prepared && Expires(staging.prepared[t], older) && staging.prepared[t].hash == hash;
      assert t !in after.prepared;
    }
  }

  /** After a collection every object left that no row names is as new as the bound. */
  lemma NothingOldLeft(staging: Staging, objects: Objects, older: nat, hash: ContentHash)
    ensures var after, kept := Expired(staging, older), Swept(Expired(staging, older), objects, ExpiredHashes(staging, older), older);
            hash in kept && !Named(after, hash) ==> kept[hash].modified >= older
  {
    CollectsExactly(staging, objects, older, hash);
  }

  /** A preparation succeeds exactly when its texts are sound, the content is at most 64 MiB
      and fits into what 512 MiB leave, no damaged object is in its place, and the token is
      new; then one more row holds what was given, and the object is there. */
  lemma PreparesExactly(s: Store, upload: Upload, token: Id, now: nat, after: Store, r: Result<ArtifactToken>)
    requires PrepareStep(s, upload, token, now, after, r)
    ensures var hash, size := OfBytes(upload.content), |upload.content|;
            && (r.Ok? <==>
                  && SoundText(upload.mediaType) && SoundText(upload.name)
                  && size <= 64 * 1024 * 1024 && StagedBytes(s.db.staging.prepared) + size <= 512 * 1024 * 1024
                  && (hash in s.objects ==> ObjectIntact(s.objects, hash, size))
                  && token !in s.db.staging.prepared)
            && (r.Ok? ==>
                  && r.value == ArtifactToken(token, upload.artifact, hash, size, r.value.generation)
                  && after.db.staging.prepared
                     == s.db.staging.prepared[token := PreparedRow(upload.artifact, hash, size, upload.mediaType, upload.name,
                                                                   r.value.generation, now, None)]
                  && after.db == s.db.(staging := s.db.staging.(prepared := after.db.staging.prepared))
                  && ObjectIntact(after.objects, hash, size)
                  && after.objects == if hash in s.objects then s.objects else s.objects[hash := ObjectFile(upload.content, now)])
  {
    TextsExactly(upload.mediaType);
    TextsExactly(upload.name);
  }

  /** What is read of an upload: all chunks before the first empty one. */
  lemma {:induction false} ReadsUntilEmpty(chunks: seq<Bytes>, i: nat)
    requires i <= |chunks| && [] !in chunks[..i] && (i == |chunks| || chunks[i] == [])
    ensures UntilEmpty(chunks) == Joined(chunks[..i])
    decreases i
  {
    if i > 0 {
      assert chunks[0] in chunks[..i];
      assert chunks[1..][..i - 1] == chunks[..i][1..];
      assert forall c :: c in chunks[1..][..i - 1] ==> c in chunks[..i];
      ReadsUntilEmpty(chunks[1..], i - 1);
    }
  }

  /** A failed read marks its artifact, if that is known, and changes nothing else. */
  lemma MarksExactly(db: Db, artifact: Id)
    ensures artifact !in db.staging.artifacts ==> MarkedCorrupt(db, artifact) == db
    ensures artifact in db.staging.artifacts ==>
              var row, after := db.staging.artifacts[artifact], MarkedCorrupt(db, artifact);
              && artifact in after.staging.artifacts && after.staging.artifacts[artifact].corrupt
              && after.staging.artifacts - {artifact} == db.staging.artifacts - {artifact}
              && after.staging.artifacts[artifact].(corrupt := row.corrupt) == row
              && after.staging.prepared == db.staging.prepared && after.staging.references == db.staging.references
              && after.(staging := db.staging) == db
  {
  }
}
