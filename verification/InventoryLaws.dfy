/** What the extension inventory accepts, and what its audit log tells of the writes. */
module InventoryLaws {
  import opened Base
  import opened Utf8
  import opened ExtensionInventories

  // --------------------------------------------------------------- what is accepted

  /** `sha256:` and 64 small hexadecimal digits. */
  ghost predicate Sha256Text(hash: string) {
    exists digits :: hash == "sha256:" + digits && HexDigits(digits)
  }

  predicate HexDigits(digits: string) {
    |digits| == 64 && forall i | 0 <= i < 64 :: '0' <= digits[i] <= '9' || 'a' <= digits[i] <= 'f'
  }

  lemma ShaExactly(hash: string)
    ensures CanonicalSha256(hash) <==> Sha256Text(hash)
  {
    if CanonicalSha256(hash) {
      var digits := hash[7..];
      assert hash == "sha256:" + digits && HexDigits(digits);
    }
    if Sha256Text(hash) {
      var digits :| hash == "sha256:" + digits && HexDigits(digits);
      assert hash[..7] == "sha256:";
      forall i | 7 <= i < |hash| ensures '0' <= hash[i] <= '9' || 'a' <= hash[i] <= 'f' {
        assert hash[i] == digits[i - 7];
      }
    }
  }

  /** Contributions sorted by distinct ids. */
  ghost predicate Sorted(contributions: seq<Contribution>) {
    forall i, j :: 0 <= i < j < |contributions| ==>
      TextAtMost(contributions[i].id, contributions[j].id) && contributions[i].id != contributions[j].id
  }

  lemma SortedExactly(contributions: seq<Contribution>)
    ensures Ascending(contributions) <==> Sorted(contributions)
  {
    if Ascending(contributions) {
      forall i, j | 0 <= i < j < |contributions|
        ensures TextAtMost(contributions[i].id, contributions[j].id) && contributions[i].id != contributions[j].id
      {
        AscendingDistinct(contributions, i, j);
      }
    }
    if Sorted(contributions) {
      forall i | 0 < i < |contributions| ensures !TextAtMost(contributions[i].id, contributions[i - 1].id) {
        TextAntisymmetric(contributions[i - 1].id, contributions[i].id);
      }
    }
  }

  ghost predicate SoundRecord(record: Record) {
    var manifest := record.manifest;
    && 1 <= record.version <= I64_MAX && (record.enabled ==> record.installed)
    && 1 <= |Encode(manifest.identity.version)| <= 128 && Sha256Text(manifest.identity.contentHash)
    && 1 <= |Encode(manifest.entryPoint)| <= 4096 && '\0' !in manifest.entryPoint
    && |manifest.contributions| <= 256 && Sorted(manifest.contributions)
    && manifest.rest.sound && record.status.sound
  }

  ghost predicate SoundDetail(detail: string) {
    1 <= |Encode(detail)| <= 4096 && '\0' !in detail
  }

  lemma RecordsExactly(write: Write)
    ensures ValidRecord(write.record) <==> SoundRecord(write.record)
    ensures ValidDetail(write.detail) <==> SoundDetail(write.detail)
  {
    var manifest := write.record.manifest;
    ShaExactly(manifest.identity.contentHash);
    SortedExactly(manifest.contributions);
    EncodedLength(manifest.identity.version);
    EncodedLength(manifest.entryPoint);
    EncodedLength(write.detail);
  }

  /** The version a sound write must find: none for a first write, its own predecessor after. */
  ghost predicate Follows(inventory: Inventory, write: Write) {
    var id := write.record.Identity();
    if id in inventory.records then
      var current := inventory.records[id].record;
      && write.expected == Some(current.version) && write.record.version == current.version + 1
      && write.record.manifest == current.manifest
    else write.expected == None && write.record.version == 1
  }

  /** In every reachable inventory a new operation is applied exactly when it is sound and
      follows what is stored. */
  lemma WritesExactly(inventory: Inventory, write: Write)
    requires Consistent(inventory) && !HasOperation(inventory.audit, write.operation)
    ensures Writing(inventory, write).Ok? <==>
              SoundRecord(write.record) && SoundDetail(write.detail) && Follows(inventory, write)
  {
    RecordsExactly(write);
    if ValidRecord(write.record) && ValidDetail(write.detail) {
      WriteFailsOnlyByCheck(inventory, write);
    }
  }

  /** And a refusal says what is wrong with the version. */
  lemma RefusalsNamed(inventory: Inventory, write: Write)
    requires SoundRecord(write.record) && SoundDetail(write.detail) && !HasOperation(inventory.audit, write.operation)
    ensures var r, id := Writing(inventory, write), write.record.Identity();
            if id !in inventory.records then
              && (write.expected.Some? ==> r == Err(Missing))
              && (write.expected == None && write.record.version != 1 ==> r == Err(InvalidRecordVersion))
            else
              var version := inventory.records[id].record.version;
              && (write.expected == None ==> r == Err(AlreadyExists))
              && (write.expected.Some? && write.expected.value != version ==>
                    r == Err(VersionConflict(write.expected.value, version)))
              && (write.expected == Some(version) ==>
                    && (write.record.version != version + 1 ==> r == Err(InvalidRecordVersion))
                    && (write.record.version == version + 1 && write.record.manifest != inventory.records[id].record.manifest ==>
                          r == Err(IdentityMutation)))
  {
    RecordsExactly(write);
  }

  // ---------------------------------------------------------------- what the log tells

  /** The row tells one write in every field. */
  ghost predicate Tells(row: AuditRow, write: Write) {
    && row.request == OfWrite(write) && row.operation == write.operation
    && row.identity == write.record.Identity() && row.version == write.record.version
    && row.kind == write.kind && row.detail == write.detail
    && row.record == write.record && row.hash == OfRecord(write.record)
  }

  ghost predicate ToldBy(row: AuditRow, writes: seq<Write>) {
    exists k :: 0 <= k < |writes| && Tells(row, writes[k])
  }

  lemma StepTells(inventory: Inventory, write: Write)
    ensures var next := Stepped(inventory, write);
            || next.audit == inventory.audit
            || (exists row :: next.audit == inventory.audit + [row] && Tells(row, write))
  {
    if Stepped(inventory, write).audit != inventory.audit {
      assert Stepped(inventory, write).audit == inventory.audit + [AuditRowFor(inventory, write)];
      assert Tells(AuditRowFor(inventory, write), write);
    }
  }

  lemma {:induction false} LogTells(inventory: Inventory, writes: seq<Write>, i: nat)
    requires i < |After(inventory, writes).audit|
    ensures (i < |inventory.audit| && After(inventory, writes).audit[i] == inventory.audit[i])
            || ToldBy(After(inventory, writes).audit[i], writes)
    decreases |writes|
  {
    if writes != [] {
      var next, row := Stepped(inventory, writes[0]), After(inventory, writes).audit[i];
      StepTells(inventory, writes[0]);
      LogTells(next, writes[1..], i);
      if ToldBy(row, writes[1..]) {
        var k :| 0 <= k < |writes[1..]| && Tells(row, writes[1..][k]);
        assert Tells(row, writes[k + 1]);
      } else if i >= |inventory.audit| {
        assert Tells(row, writes[0]);
      }
    }
  }

  /** After any run of writes each audit row tells one of them in every field, its kind and
      detail included. */
  lemma AuditTellsWrites(writes: seq<Write>, i: nat)
    requires i < |After(NEW, writes).audit|
    ensures ToldBy(After(NEW, writes).audit[i], writes)
  {
    LogTells(NEW, writes, i);
  }
}
