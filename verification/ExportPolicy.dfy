/** The scrubber object and the record entry point. */
module ExportPolicy {
  import opened Base
  import opened JsonPointer
  import opened ExportScrub

  datatype RecordClass = SemanticPayload | CheckpointRecord | ManifestRecord | ArtifactMetadata

  function AllowedKeys(recordClass: RecordClass): set<string>
    requires !recordClass.SemanticPayload?
  {
    match recordClass
    case CheckpointRecord => { "lastEventId", "aggregateVersion", "snapshotHash", "stateHash" }
    case ManifestRecord => {
      "family", "major", "minor", "requiredFeatures", "sessionId", "chatId", "runId", "frozenSnapshotHash",
      "canonicalBranchId", "exportPolicyHash", "branchId", "parentBranchId", "parentCheckpointHash", "parentHeadHash" }
    case ArtifactMetadata => { "mediaType", "byteLength", "digest" }
  }

  /** `require_object_keys`: the first key outside the vocabulary is reported. */
  function UnknownKey(members: Members, allowed: set<string>): Option<string> {
    match members
    case NoMembers => None
    case Member(key, _, rest) => if key !in allowed then Some(key) else UnknownKey(rest, allowed)
  }

  /** `validate_root`. */
  function RootError(recordClass: RecordClass, value: Json): Option<ExportError> {
    if recordClass.SemanticPayload? then None
    else if !value.Object? then Some(WrongRecordShape)
    else
      match UnknownKey(value.members, AllowedKeys(recordClass))
      case None => None
      case Some(key) => Some(UnknownField("/" + key))
  }

  lemma {:induction false} DropKeepsVocabulary(members: Members, allowed: set<string>)
    requires UnknownKey(members, allowed).None?
    ensures UnknownKey(DropMembers(members), allowed).None?
  {
    if members.Member? {
      DropKeepsVocabulary(members.rest, allowed);
    }
  }

  // ---------------------------------------------------------------- the scrubber

  function JoinItems(values: seq<Json>, tail: Items): Items {
    if values == [] then tail else Item(values[0], JoinItems(values[1..], tail))
  }

  lemma {:induction false} JoinItemsSnoc(values: seq<Json>, value: Json, tail: Items)
    ensures JoinItems(values + [value], tail) == JoinItems(values, Item(value, tail))
  {
    if values == [] {
      assert values + [value] == [value] && [value][1..] == [];
    } else {
      assert (values + [value])[1..] == values[1..] + [value];
      JoinItemsSnoc(values[1..], value, tail);
    }
  }

  datatype Entry = Entry(key: string, value: Json)

  function JoinMembers(entries: seq<Entry>, tail: Members): Members {
    if entries == [] then tail else Member(entries[0].key, entries[0].value, JoinMembers(entries[1..], tail))
  }

  lemma {:induction false} JoinMembersSnoc(entries: seq<Entry>, entry: Entry, tail: Members)
    ensures JoinMembers(entries + [entry], tail) == JoinMembers(entries, Member(entry.key, entry.value, tail))
  {
    if entries == [] {
      assert entries + [entry] == [entry] && [entry][1..] == [];
    } else {
      assert (entries + [entry])[1..] == entries[1..] + [entry];
      JoinMembersSnoc(entries[1..], entry, tail);
    }
  }

  /** What is done, in front of what is still to come. */
  ghost function AfterItems(values: seq<Json>, found: seq<string>, r: Result<Scrubbed<Items>>): Result<Scrubbed<Items>> {
    if r.Err? then r else Ok(Scrubbed(JoinItems(values, r.value.value), found + r.value.omissions))
  }

  ghost function AfterMembers(entries: seq<Entry>, found: seq<string>, r: Result<Scrubbed<Members>>): Result<Scrubbed<Members>> {
    if r.Err? then r else Ok(Scrubbed(JoinMembers(entries, r.value.value), found + r.value.omissions))
  }

  class Scrubber {
    var omissions: seq<string>

    constructor ()
      ensures omissions == []
    {
      omissions := [];
    }

    /** `scrub_value`: walks the value and appends to the list of omissions. */
    method ScrubValue(value: Json, pointer: string) returns (r: Result<Json>)
      modifies this
      ensures match Scrub(value, pointer)
              case Ok(scrubbed) => r == Ok(scrubbed.value) && omissions == old(omissions) + scrubbed.omissions
              case Err(error) => r == Err(error)
      decreases value, 1
    {
      match value {
        case Array(items) =>
          var scrubbed := ScrubArray(value, pointer);
          return if scrubbed.Ok? then Ok(Array(scrubbed.value)) else Err(scrubbed.error);
        case Object(members) =>
          var scrubbed := ScrubObject(value, pointer);
          return if scrubbed.Ok? then Ok(Object(scrubbed.value)) else Err(scrubbed.error);
        case Text(text) =>
          if CredentialLike(text) { return Err(CredentialLikeValue(pointer)); }
          if LooksLikeMachinePath(text) { return Err(MachinePath(pointer)); }
          return Ok(value);
        case _ =>
          return Ok(value);
      }
    }

    method ScrubArray(value: Json, pointer: string) returns (r: Result<Items>)
      requires value.Array?
      modifies this
      ensures match ScrubItems(value.items, pointer, 0)
              case Ok(scrubbed) => r == Ok(scrubbed.value) && omissions == old(omissions) + scrubbed.omissions
              case Err(error) => r == Err(error)
      decreases value, 0
    {
      var rest, index, values: seq<Json> := value.items, 0, [];
      ghost var found: seq<string> := [];
      NoItemsDone(ScrubItems(rest, pointer, 0));
      while rest.Item?
        invariant rest == value.items || rest < value.items
        invariant AfterItems(values, found, ScrubItems(rest, pointer, index)) == ScrubItems(value.items, pointer, 0)
        invariant omissions == old(omissions) + found
        decreases rest
      {
        var item := ScrubValue(rest.head, pointer + "/" + Decimal(index));
        if item.Err? { return Err(item.error); }
        ghost var more := Scrub(rest.head, pointer + "/" + Decimal(index)).value.omissions;
        ItemDone(values, found, rest, pointer, index);
        found := found + more;
        values := values + [item.value];
        rest := rest.tail;
        index := index + 1;
      }
      return Ok(JoinItems(values, NoItems));
    }

    method ScrubObject(value: Json, pointer: string) returns (r: Result<Members>)
      requires value.Object?
      modifies this
      ensures match ScrubMembers(value.members, pointer)
              case Ok(scrubbed) => r == Ok(scrubbed.value) && omissions == old(omissions) + scrubbed.omissions
              case Err(error) => r == Err(error)
      decreases value, 0
    {
      var rest, entries: seq<Entry> := value.members, [];
      ghost var found: seq<string> := [];
      NoMembersDone(ScrubMembers(rest, pointer));
      while rest.Member?
        invariant rest == value.members || rest < value.members
        invariant AfterMembers(entries, found, ScrubMembers(rest, pointer)) == ScrubMembers(value.members, pointer)
        invariant omissions == old(omissions) + found
        decreases rest
      {
        var field := pointer + "/" + Escape(rest.key);
        MemberDone(entries, found, rest, pointer);
        if Omitted(rest.key) {
          omissions := omissions + [field];
          found := found + [field];
        } else if Forbidden(rest.key) {
          return Err(ForbiddenField(field));
        } else {
          var inner := ScrubValue(rest.value, field);
          if inner.Err? { return Err(inner.error); }
          found := found + Scrub(rest.value, field).value.omissions;
          entries := entries + [Entry(rest.key, inner.value)];
        }
        rest := rest.rest;
      }
      return Ok(JoinMembers(entries, NoMembers));
    }
  }

  lemma NoItemsDone(r: Result<Scrubbed<Items>>)
    ensures AfterItems([], [], r) == r
  {
    if r.Ok? {
      assert [] + r.value.omissions == r.value.omissions;
    }
  }

  lemma NoMembersDone(r: Result<Scrubbed<Members>>)
    ensures AfterMembers([], [], r) == r
  {
    if r.Ok? {
      assert [] + r.value.omissions == r.value.omissions;
    }
  }

  lemma ItemDone(values: seq<Json>, found: seq<string>, rest: Items, pointer: string, index: nat)
    requires rest.Item? && Scrub(rest.head, pointer + "/" + Decimal(index)).Ok?
    ensures var first := Scrub(rest.head, pointer + "/" + Decimal(index)).value;
            AfterItems(values, found, ScrubItems(rest, pointer, index))
            == AfterItems(values + [first.value], found + first.omissions, ScrubItems(rest.tail, pointer, index + 1))
  {
    var first := Scrub(rest.head, pointer + "/" + Decimal(index)).value;
    var others := ScrubItems(rest.tail, pointer, index + 1);
    if others.Ok? {
      JoinItemsSnoc(values, first.value, others.value.value);
      assert found + (first.omissions + others.value.omissions) == found + first.omissions + others.value.omissions;
    }
  }

  lemma MemberDone(entries: seq<Entry>, found: seq<string>, rest: Members, pointer: string)
    requires rest.Member?
    ensures var field, others := pointer + "/" + Escape(rest.key), ScrubMembers(rest.rest, pointer);
            AfterMembers(entries, found, ScrubMembers(rest, pointer))
            == if Omitted(rest.key) then AfterMembers(entries, found + [field], others)
               else if Forbidden(rest.key) then Err(ForbiddenField(field))
               else
                 var first := Scrub(rest.value, field);
                 if first.Err? then Err(first.error)
                 else AfterMembers(entries + [Entry(rest.key, first.value.value)], found + first.value.omissions, others)
  {
    var field, others := pointer + "/" + Escape(rest.key), ScrubMembers(rest.rest, pointer);
    if others.Ok? {
      if Omitted(rest.key) {
        assert found + ([field] + others.value.omissions) == found + [field] + others.value.omissions;
      } else if Scrub(rest.value, field).Ok? {
        var first := Scrub(rest.value, field).value;
        JoinMembersSnoc(entries, Entry(rest.key, first.value), others.value.value);
        assert found + (first.omissions + others.value.omissions) == found + first.omissions + others.value.omissions;
      }
    }
  }

  // ------------------------------------------------------------------ sorted evidence

  ghost predicate Ascending(texts: seq<string>) {
    forall i, j :: 0 <= i < j < |texts| ==> TextAtMost(texts[i], texts[j])
  }

  function Insert(text: string, sorted: seq<string>): (r: seq<string>)
    ensures multiset(r) == multiset{text} + multiset(sorted)
  {
    if sorted == [] || TextAtMost(text, sorted[0]) then [text] + sorted
    else
      assert sorted == [sorted[0]] + sorted[1..];
      [sorted[0]] + Insert(text, sorted[1..])
  }

  function Sort(texts: seq<string>): (r: seq<string>)
    ensures multiset(r) == multiset(texts)
  {
    if texts == [] then []
    else
      assert texts == [texts[0]] + texts[1..];
      Insert(texts[0], Sort(texts[1..]))
  }

  lemma {:induction false} InsertAscending(text: string, sorted: seq<string>)
    requires Ascending(sorted)
    ensures Ascending(Insert(text, sorted))
  {
    if sorted != [] {
      TextTotal(text, sorted[0]);
      if TextAtMost(text, sorted[0]) {
        forall j | 0 < j < |sorted| ensures TextAtMost(text, sorted[j]) {
          TextTransitive(text, sorted[0], sorted[j]);
        }
      } else {
        InsertAscending(text, sorted[1..]);
        var rest := Insert(text, sorted[1..]);
        forall j | 0 <= j < |rest| ensures TextAtMost(sorted[0], rest[j]) {
          assert rest[j] in multiset(rest);
          if rest[j] != text {
            assert rest[j] in multiset(sorted[1..]);
            var k :| 0 <= k < |sorted[1..]| && sorted[1..][k] == rest[j];
            assert sorted[k + 1] == rest[j];
          }
        }
      }
    }
  }

  lemma {:induction false} SortAscending(texts: seq<string>)
    ensures Ascending(Sort(texts))
  {
    if texts != [] {
      SortAscending(texts[1..]);
      InsertAscending(texts[0], Sort(texts[1..]));
    }
  }

  datatype Export = Export(value: Json, omissions: seq<string>)

  /** `scrub_record`: it succeeds exactly when the root has the class's vocabulary and
      the value is clean once its omitted members are dropped; the result is that
      value, with the omission pointers in order. */
  method ScrubRecord(recordClass: RecordClass, value: Json) returns (r: Result<Export>)
    ensures r.Ok? <==> RootError(recordClass, value).None? && Clean(Drop(value))
    ensures r.Ok? ==>
              && r.value.value == Drop(value)
              && Ascending(r.value.omissions)
              && multiset(r.value.omissions) == multiset(Pointers("", OmittedPaths(value)))
    ensures RootError(recordClass, value).Some? ==> r == Err(RootError(recordClass, value).value)
    ensures RootError(recordClass, value).None? && Scrub(value, "").Err? ==> r == Err(Scrub(value, "").error)
  {
    ScrubIsDrop(value, "");
    var root := RootError(recordClass, value);
    if root.Some? { return Err(root.value); }
    var scrubber := new Scrubber();
    var scrubbed := scrubber.ScrubValue(value, "");
    if scrubbed.Err? { return Err(scrubbed.error); }
    OmissionsArePaths(value, "");
    assert scrubber.omissions == Pointers("", OmittedPaths(value));
    SortAscending(scrubber.omissions);
    return Ok(Export(scrubbed.value, Sort(scrubber.omissions)));
  }

  /** Exporting an export changes nothing and omits nothing, for every record class. */
  lemma ExportAgain(recordClass: RecordClass, value: Json)
    requires RootError(recordClass, value).None? && Clean(Drop(value))
    ensures RootError(recordClass, Drop(value)).None? && Drop(Drop(value)) == Drop(value) && OmittedPaths(Drop(value)) == []
  {
    if value.Object? && !recordClass.SemanticPayload? {
      DropKeepsVocabulary(value.members, AllowedKeys(recordClass));
    }
    CleanIsKept(Drop(value), "");
    ScrubIsDrop(Drop(value), "");
    OmissionsArePaths(Drop(value), "");
    assert |Pointers("", OmittedPaths(Drop(value)))| == 0;
  }
}
