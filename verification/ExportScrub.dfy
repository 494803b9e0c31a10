/** The portable export policy: dropping local capture fields with evidence, and
    refusing everything else that must not leave the machine. */
module ExportScrub {
  import opened Base
  import opened JsonPointer

  /** A JSON value. The members of an object come in its map's order. */
  datatype Json =
    | Null | Bool(flag: bool) | Number(literal: string) | Text(text: string)
    | Array(items: Items) | Object(members: Members)
  datatype Items = NoItems | Item(head: Json, tail: Items)
  datatype Members = NoMembers | Member(key: string, value: Json, rest: Members)

  datatype ExportError =
    | ForbiddenField(pointer: string) | UnknownField(pointer: string) | WrongRecordShape
    | CredentialLikeValue(pointer: string) | MachinePath(pointer: string)

  datatype Result<+T> = Ok(value: T) | Err(error: ExportError) {
    predicate IsFailure() { Err? }
    function PropagateFailure<U>(): Result<U>
      requires Err?
    {
      Err(error)
    }
    function Extract(): T
      requires Ok?
    {
      value
    }
  }

  // ---------------------------------------------------------------- key predicates

  predicate AsciiUpper(c: char) { 'A' <= c <= 'Z' }
  predicate AsciiLower(c: char) { 'a' <= c <= 'z' }
  predicate AsciiAlnum(c: char) { AsciiUpper(c) || AsciiLower(c) || IsDigit(c) }

  function LowerChar(c: char): char {
    if AsciiUpper(c) then (c as int + 32) as char else c
  }

  function Lower(s: string): string {
    seq(|s|, i requires 0 <= i < |s| => LowerChar(s[i]))
  }

  /** `normalize_key`: ASCII letters and digits only, in lower case. */
  function NormalizeKey(key: string): string {
    if key == "" then ""
    else (if AsciiAlnum(key[0]) then [LowerChar(key[0])] else "") + NormalizeKey(key[1..])
  }

  predicate EndsWith(s: string, part: string) {
    |s| >= |part| && s[|s| - |part|..] == part
  }

  predicate PartAt(s: string, i: nat, part: string) {
    i + |part| <= |s| && s[i..i + |part|] == part
  }

  predicate OccursIn(s: string, part: string) {
    exists i: nat | i <= |s| :: PartAt(s, i, part)
  }

  const OMITTED := {
    "debug", "debugcapture", "trace", "tracecapture", "rawprotocol", "rawstream", "tokenchunks", "forensiccapture" }

  const FORBIDDEN := {
    "secret", "secretvalue", "credential", "credentialvalue", "password", "passtoken", "accesstoken", "refreshtoken",
    "authorization", "authorizationheader", "apikey", "privatekey", "lease", "leasehandle", "approval",
    "approvaltoken", "permit", "authority", "inheritedauthority", "reasoningraw", "hiddenreasoning",
    "chainofthought", "nativehandle", "nativeobject", "providerconfig", "providerendpoint", "environment", "env",
    "absolutepath", "machinepath", "username", "hostname", "deviceid", "executable", "script", "binary",
    "pluginbytes" }

  predicate Omitted(key: string) { NormalizeKey(key) in OMITTED }

  predicate Forbidden(key: string) {
    var name := NormalizeKey(key);
    || name in FORBIDDEN
    || EndsWith(name, "secret") || EndsWith(name, "password") || EndsWith(name, "credentialvalue")
    || EndsWith(name, "privatekey") || EndsWith(name, "authorizationheader")
  }

  // --------------------------------------------------------------- text predicates

  /** The prefix is somewhere followed by at least 16 ASCII letters or digits. */
  predicate LooksLikeToken(text: string, prefix: string) {
    exists i: nat | i <= |text| :: PartAt(text, i, prefix) && StartsAlnum(text[i + |prefix|..], 16)
  }

  predicate StartsAlnum(s: string, count: nat) {
    |s| >= count && forall k | 0 <= k < count :: AsciiAlnum(s[k])
  }

  predicate CredentialLike(text: string) {
    || "bearer " <= Lower(text)
    || OccursIn(Lower(text), "-----begin private key-----")
    || OccursIn(Lower(text), "-----begin rsa private key-----")
    || LooksLikeToken(text, "sk-") || LooksLikeToken(text, "ghp_") || LooksLikeToken(text, "github_pat_")
  }

  predicate LooksLikeMachinePath(text: string) {
    || "/home/" <= text || "/Users/" <= text || "\\\\" <= text
    || (|text| >= 3 && Utf8Length(text) > 3 && (AsciiUpper(text[0]) || AsciiLower(text[0])) && text[1] == ':'
        && (text[2] == '\\' || text[2] == '/'))
  }

  predicate TextAllowed(text: string) {
    !CredentialLike(text) && !LooksLikeMachinePath(text)
  }

  // --------------------------------------------------------------------- scrubbing

  datatype Scrubbed<T> = Scrubbed(value: T, omissions: seq<string>)

  /** `scrub_value`. The omissions are pointers, in the order they are found. */
  function Scrub(value: Json, pointer: string): (r: Result<Scrubbed<Json>>) {
    match value
    case Array(items) =>
      var inner :- ScrubItems(items, pointer, 0);
      Ok(Scrubbed(Array(inner.value), inner.omissions))
    case Object(members) =>
      var inner :- ScrubMembers(members, pointer);
      Ok(Scrubbed(Object(inner.value), inner.omissions))
    case Text(text) =>
      if CredentialLike(text) then Err(CredentialLikeValue(pointer))
      else if LooksLikeMachinePath(text) then Err(MachinePath(pointer))
      else Ok(Scrubbed(value, []))
    case _ => Ok(Scrubbed(value, []))
  }

  function ScrubItems(items: Items, pointer: string, index: nat): (r: Result<Scrubbed<Items>>) {
    match items
    case NoItems => Ok(Scrubbed(NoItems, []))
    case Item(head, tail) =>
      var first :- Scrub(head, pointer + "/" + Decimal(index));
      var others :- ScrubItems(tail, pointer, index + 1);
      Ok(Scrubbed(Item(first.value, others.value), first.omissions + others.omissions))
  }

  function ScrubMembers(members: Members, pointer: string): (r: Result<Scrubbed<Members>>) {
    match members
    case NoMembers => Ok(Scrubbed(NoMembers, []))
    case Member(key, value, rest) =>
      var field := pointer + "/" + Escape(key);
      if Omitted(key) then
        var others :- ScrubMembers(rest, pointer);
        Ok(Scrubbed(others.value, [field] + others.omissions))
      else if Forbidden(key) then Err(ForbiddenField(field))
      else
        var first :- Scrub(value, field);
        var others :- ScrubMembers(rest, pointer);
        Ok(Scrubbed(Member(key, first.value, others.value), first.omissions + others.omissions))
  }

  // --------------------------------------------- what it means: drop, then all clean

  /** The value without its omitted members, at any depth. */
  function Drop(value: Json): Json {
    match value
    case Array(items) => Array(DropItems(items))
    case Object(members) => Object(DropMembers(members))
    case _ => value
  }

  function DropItems(items: Items): Items {
    match items
    case NoItems => NoItems
    case Item(head, tail) => Item(Drop(head), DropItems(tail))
  }

  function DropMembers(members: Members): Members {
    match members
    case NoMembers => NoMembers
    case Member(key, value, rest) =>
      if Omitted(key) then DropMembers(rest) else Member(key, Drop(value), DropMembers(rest))
  }

  /** No omitted or forbidden key and no refused text, at any depth. */
  predicate Clean(value: Json) {
    match value
    case Array(items) => CleanItems(items)
    case Object(members) => CleanMembers(members)
    case Text(text) => TextAllowed(text)
    case _ => true
  }

  predicate CleanItems(items: Items) {
    items.Item? ==> Clean(items.head) && CleanItems(items.tail)
  }

  predicate CleanMembers(members: Members) {
    members.Member? ==>
      !Omitted(members.key) && !Forbidden(members.key) && Clean(members.value) && CleanMembers(members.rest)
  }

  /** Scrubbing succeeds exactly when the value without its omitted members is
      clean, and then that is the result. */
  lemma {:induction false} ScrubIsDrop(value: Json, pointer: string)
    ensures Scrub(value, pointer).Ok? <==> Clean(Drop(value))
    ensures Scrub(value, pointer).Ok? ==> Scrub(value, pointer).value.value == Drop(value)
  {
    match value
    case Array(items) => ScrubItemsIsDrop(items, pointer, 0);
    case Object(members) => ScrubMembersIsDrop(members, pointer);
    case _ =>
  }

  lemma {:induction false} ScrubItemsIsDrop(items: Items, pointer: string, index: nat)
    ensures ScrubItems(items, pointer, index).Ok? <==> CleanItems(DropItems(items))
    ensures ScrubItems(items, pointer, index).Ok? ==> ScrubItems(items, pointer, index).value.value == DropItems(items)
  {
    if items.Item? {
      ScrubIsDrop(items.head, pointer + "/" + Decimal(index));
      ScrubItemsIsDrop(items.tail, pointer, index + 1);
    }
  }

  lemma {:induction false} ScrubMembersIsDrop(members: Members, pointer: string)
    ensures ScrubMembers(members, pointer).Ok? <==> CleanMembers(DropMembers(members))
    ensures ScrubMembers(members, pointer).Ok? ==> ScrubMembers(members, pointer).value.value == DropMembers(members)
  {
    if members.Member? {
      ScrubIsDrop(members.value, pointer + "/" + Escape(members.key));
      ScrubMembersIsDrop(members.rest, pointer);
    }
  }

  /** A clean value scrubs to itself, with nothing omitted. */
  lemma {:induction false} CleanIsKept(value: Json, pointer: string)
    requires Clean(value)
    ensures Scrub(value, pointer) == Ok(Scrubbed(value, []))
  {
    match value
    case Array(items) => CleanItemsKept(items, pointer, 0);
    case Object(members) => CleanMembersKept(members, pointer);
    case _ =>
  }

  lemma {:induction false} CleanItemsKept(items: Items, pointer: string, index: nat)
    requires CleanItems(items)
    ensures ScrubItems(items, pointer, index) == Ok(Scrubbed(items, []))
  {
    if items.Item? {
      CleanIsKept(items.head, pointer + "/" + Decimal(index));
      CleanItemsKept(items.tail, pointer, index + 1);
      var none: seq<string> := [];
      assert none + none == none;
    }
  }

  lemma {:induction false} CleanMembersKept(members: Members, pointer: string)
    requires CleanMembers(members)
    ensures ScrubMembers(members, pointer) == Ok(Scrubbed(members, []))
  {
    if members.Member? {
      CleanIsKept(members.value, pointer + "/" + Escape(members.key));
      CleanMembersKept(members.rest, pointer);
      var none: seq<string> := [];
      assert none + none == none;
    }
  }

  /** The result is clean, and scrubbing it again changes and omits nothing. */
  lemma ScrubIdempotent(value: Json, pointer: string, again: string)
    requires Scrub(value, pointer).Ok?
    ensures var result := Scrub(value, pointer).value.value;
            Clean(result) && Scrub(result, again) == Ok(Scrubbed(result, []))
  {
    ScrubIsDrop(value, pointer);
    CleanIsKept(Drop(value), again);
  }

  // ------------------------------------------------------------- the omitted places

  predicate HasKey(members: Members, key: string) {
    members.Member? && (members.key == key || HasKey(members.rest, key))
  }

  /** A map has each key once. */
  predicate KeysDistinct(value: Json) {
    match value
    case Array(items) => KeysDistinctItems(items)
    case Object(members) => KeysDistinctMembers(members)
    case _ => true
  }

  predicate KeysDistinctItems(items: Items) {
    items.Item? ==> KeysDistinct(items.head) && KeysDistinctItems(items.tail)
  }

  predicate KeysDistinctMembers(members: Members) {
    members.Member? ==>
      !HasKey(members.rest, members.key) && KeysDistinct(members.value) && KeysDistinctMembers(members.rest)
  }

  function Under(token: string, paths: seq<Tokens>): seq<Tokens> {
    seq(|paths|, i requires 0 <= i < |paths| => [token] + paths[i])
  }

  /** The reference tokens of every omitted member, in document order. */
  function OmittedPaths(value: Json): seq<Tokens> {
    match value
    case Array(items) => OmittedInItems(items, 0)
    case Object(members) => OmittedInMembers(members)
    case _ => []
  }

  function OmittedInItems(items: Items, index: nat): seq<Tokens> {
    match items
    case NoItems => []
    case Item(head, tail) => Under(Decimal(index), OmittedPaths(head)) + OmittedInItems(tail, index + 1)
  }

  function OmittedInMembers(members: Members): seq<Tokens> {
    match members
    case NoMembers => []
    case Member(key, value, rest) =>
      (if Omitted(key) then [[key]] else Under(key, OmittedPaths(value))) + OmittedInMembers(rest)
  }

  function Pointers(prefix: string, paths: seq<Tokens>): seq<string> {
    seq(|paths|, i requires 0 <= i < |paths| => prefix + Render(paths[i]))
  }

  lemma PointersUnder(prefix: string, token: string, paths: seq<Tokens>, field: string)
    requires field == prefix + "/" + Escape(token)
    ensures Pointers(prefix, Under(token, paths)) == Pointers(field, paths)
  {
    forall i | 0 <= i < |paths| ensures prefix + Render(Under(token, paths)[i]) == field + Render(paths[i]) {
      assert ([token] + paths[i])[1..] == paths[i];
      assert prefix + ("/" + Escape(token) + Render(paths[i])) == prefix + "/" + Escape(token) + Render(paths[i]);
    }
  }

  lemma OnePointer(pointer: string, key: string)
    ensures Pointers(pointer, [[key]]) == [pointer + "/" + Escape(key)]
  {
    var path := [key];
    assert path[1..] == [];
    assert Render(path) == "/" + Escape(key) + "";
    assert pointer + Render(path) == pointer + "/" + Escape(key);
    assert Pointers(pointer, [path]) == [pointer + Render(path)];
  }

  /** The omissions are the rendered pointers of the omitted members. */
  lemma {:induction false} OmissionsArePaths(value: Json, pointer: string)
    requires Scrub(value, pointer).Ok?
    ensures Scrub(value, pointer).value.omissions == Pointers(pointer, OmittedPaths(value))
  {
    match value
    case Array(items) => ItemOmissionsArePaths(items, pointer, 0);
    case Object(members) => MemberOmissionsArePaths(members, pointer);
    case _ =>
  }

  lemma {:induction false} ItemOmissionsArePaths(items: Items, pointer: string, index: nat)
    requires ScrubItems(items, pointer, index).Ok?
    ensures ScrubItems(items, pointer, index).value.omissions == Pointers(pointer, OmittedInItems(items, index))
  {
    if items.Item? {
      var field := pointer + "/" + Decimal(index);
      OmissionsArePaths(items.head, field);
      ItemOmissionsArePaths(items.tail, pointer, index + 1);
      DecimalEscape(index);
      PointersUnder(pointer, Decimal(index), OmittedPaths(items.head), field);
    }
  }

  lemma {:induction false} MemberOmissionsArePaths(members: Members, pointer: string)
    requires ScrubMembers(members, pointer).Ok?
    ensures ScrubMembers(members, pointer).value.omissions == Pointers(pointer, OmittedInMembers(members))
  {
    if members.Member? {
      var key, rest := members.key, OmittedInMembers(members.rest);
      var field := pointer + "/" + Escape(key);
      MemberOmissionsArePaths(members.rest, pointer);
      if Omitted(key) {
        OnePointer(pointer, key);
      } else {
        OmissionsArePaths(members.value, field);
        PointersUnder(pointer, key, OmittedPaths(members.value), field);
      }
    }
  }

  // --------------------------------------------------------------- resolving them

  function ItemAt(items: Items, i: nat): Option<Json> {
    match items
    case NoItems => None
    case Item(head, tail) => if i == 0 then Some(head) else ItemAt(tail, i - 1)
  }

  function MemberOf(members: Members, key: string): Option<Json> {
    match members
    case NoMembers => None
    case Member(k, value, rest) => if k == key then Some(value) else MemberOf(rest, key)
  }

  /** Section 4 of RFC 6901: one reference token after the other. */
  function Evaluate(value: Json, tokens: Tokens): Option<Json>
    decreases |tokens|
  {
    if tokens == [] then Some(value)
    else
      match value
      case Object(members) =>
        var next := MemberOf(members, tokens[0]);
        if next.None? then None else Evaluate(next.value, tokens[1..])
      case Array(items) =>
        var index := Index(tokens[0]);
        if index.None? then None
        else
          var next := ItemAt(items, index.value);
          if next.None? then None else Evaluate(next.value, tokens[1..])
      case _ => None
  }

  /** The place of a pointer text in a value. */
  function Resolve(value: Json, pointer: string): Option<Json> {
    match Parse(pointer)
    case None => None
    case Some(tokens) => Evaluate(value, tokens)
  }

  predicate NamesOmittedMember(value: Json, path: Tokens) {
    path != [] && Omitted(path[|path| - 1]) && Evaluate(value, path).Some?
  }

  lemma {:induction false} PathsResolve(value: Json, i: nat)
    requires KeysDistinct(value) && i < |OmittedPaths(value)|
    ensures NamesOmittedMember(value, OmittedPaths(value)[i])
  {
    match value
    case Array(items) => ItemPathsResolve(items, 0, items, i);
    case Object(members) => MemberPathsResolve(members, members, i);
    case _ =>
  }

  lemma {:induction false} ItemPathsResolve(items: Items, index: nat, all: Items, i: nat)
    requires KeysDistinctItems(items) && i < |OmittedInItems(items, index)|
    requires forall k: nat :: ItemAt(items, k) == ItemAt(all, index + k)
    ensures NamesOmittedMember(Array(all), OmittedInItems(items, index)[i])
    decreases items
  {
    var here := OmittedPaths(items.head);
    if i < |here| {
      PathsResolve(items.head, i);
      IndexRoundTrip(index);
      assert ItemAt(items, 0) == ItemAt(all, index);
      assert ([Decimal(index)] + here[i])[1..] == here[i];
    } else {
      forall k: nat ensures ItemAt(items.tail, k) == ItemAt(all, index + 1 + k) {
        assert ItemAt(items, k + 1) == ItemAt(all, index + (k + 1));
      }
      ItemPathsResolve(items.tail, index + 1, all, i - |here|);
    }
  }

  lemma {:induction false} MemberPathsResolve(members: Members, all: Members, i: nat)
    requires KeysDistinctMembers(members) && i < |OmittedInMembers(members)|
    requires forall k :: HasKey(members, k) ==> MemberOf(members, k) == MemberOf(all, k)
    ensures NamesOmittedMember(Object(all), OmittedInMembers(members)[i])
    decreases members
  {
    var key := members.key;
    assert HasKey(members, key);
    var here := if Omitted(key) then [[key]] else Under(key, OmittedPaths(members.value));
    if i >= |here| {
      forall k | HasKey(members.rest, k) ensures MemberOf(members.rest, k) == MemberOf(all, k) {
        assert HasKey(members, k);
      }
      MemberPathsResolve(members.rest, all, i - |here|);
    } else if !Omitted(key) {
      var path := OmittedPaths(members.value)[i];
      PathsResolve(members.value, i);
      assert ([key] + path)[1..] == path;
    } else {
      assert [key][1..] == [];
    }
  }

  // ------------------------------------------------------------------ all different

  ghost predicate Distinct(paths: seq<Tokens>) {
    forall i, j :: 0 <= i < j < |paths| ==> paths[i] != paths[j]
  }

  lemma DistinctAppend(a: seq<Tokens>, b: seq<Tokens>)
    requires Distinct(a) && Distinct(b)
    requires forall i, j :: 0 <= i < |a| && 0 <= j < |b| ==> a[i] != b[j]
    ensures Distinct(a + b)
  {
  }

  lemma DistinctUnder(token: string, paths: seq<Tokens>)
    requires Distinct(paths)
    ensures Distinct(Under(token, paths))
  {
    forall i, j | 0 <= i < j < |paths| ensures [token] + paths[i] != [token] + paths[j] {
      assert ([token] + paths[i])[1..] == paths[i] && ([token] + paths[j])[1..] == paths[j];
    }
  }

  /** Paths into an array start with an index from the given one on. */
  lemma {:induction false} ItemPathHead(items: Items, index: nat, i: nat)
    requires i < |OmittedInItems(items, index)|
    ensures var path := OmittedInItems(items, index)[i];
            path != [] && Index(path[0]).Some? && Index(path[0]).value >= index
    decreases items
  {
    IndexRoundTrip(index);
    var here := OmittedPaths(items.head);
    if i >= |here| {
      ItemPathHead(items.tail, index + 1, i - |here|);
    }
  }

  /** Paths into an object start with one of its keys. */
  lemma {:induction false} MemberPathHead(members: Members, i: nat)
    requires i < |OmittedInMembers(members)|
    ensures var path := OmittedInMembers(members)[i]; path != [] && HasKey(members, path[0])
    decreases members
  {
    var here := if Omitted(members.key) then [[members.key]] else Under(members.key, OmittedPaths(members.value));
    if i >= |here| {
      MemberPathHead(members.rest, i - |here|);
    }
  }

  lemma {:induction false} PathsDistinct(value: Json)
    requires KeysDistinct(value)
    ensures Distinct(OmittedPaths(value))
  {
    match value
    case Array(items) => ItemPathsDistinct(items, 0);
    case Object(members) => MemberPathsDistinct(members);
    case _ =>
  }

  lemma {:induction false} ItemPathsDistinct(items: Items, index: nat)
    requires KeysDistinctItems(items)
    ensures Distinct(OmittedInItems(items, index))
    decreases items
  {
    if items.Item? {
      var here, others := Under(Decimal(index), OmittedPaths(items.head)), OmittedInItems(items.tail, index + 1);
      PathsDistinct(items.head);
      DistinctUnder(Decimal(index), OmittedPaths(items.head));
      ItemPathsDistinct(items.tail, index + 1);
      forall i, j | 0 <= i < |here| && 0 <= j < |others| ensures here[i] != others[j] {
        IndexRoundTrip(index);
        ItemPathHead(items.tail, index + 1, j);
      }
      DistinctAppend(here, others);
    }
  }

  lemma {:induction false} MemberPathsDistinct(members: Members)
    requires KeysDistinctMembers(members)
    ensures Distinct(OmittedInMembers(members))
    decreases members
  {
    if members.Member? {
      var key, others := members.key, OmittedInMembers(members.rest);
      var here := if Omitted(key) then [[key]] else Under(key, OmittedPaths(members.value));
      PathsDistinct(members.value);
      DistinctUnder(key, OmittedPaths(members.value));
      MemberPathsDistinct(members.rest);
      forall i, j | 0 <= i < |here| && 0 <= j < |others| ensures here[i] != others[j] {
        MemberPathHead(members.rest, j);
      }
      DistinctAppend(here, others);
    }
  }

  // ------------------------------------------------------- deleting exactly those

  /** The value without the members at the given places, and nothing else changed. */
  function Delete(value: Json, at: Tokens, places: set<Tokens>): Json {
    match value
    case Array(items) => Array(DeleteItems(items, 0, at, places))
    case Object(members) => Object(DeleteMembers(members, at, places))
    case _ => value
  }

  function DeleteItems(items: Items, index: nat, at: Tokens, places: set<Tokens>): Items {
    match items
    case NoItems => NoItems
    case Item(head, tail) => Item(Delete(head, at + [Decimal(index)], places), DeleteItems(tail, index + 1, at, places))
  }

  function DeleteMembers(members: Members, at: Tokens, places: set<Tokens>): Members {
    match members
    case NoMembers => NoMembers
    case Member(key, value, rest) =>
      if at + [key] in places then DeleteMembers(rest, at, places)
      else Member(key, Delete(value, at + [key], places), DeleteMembers(rest, at, places))
  }

  /** The places below one point are exactly the given paths. */
  ghost predicate PlacesBelow(places: set<Tokens>, at: Tokens, paths: seq<Tokens>) {
    forall path :: at + path in places <==> path in paths
  }

  lemma UnderHolds(token: string, paths: seq<Tokens>, path: Tokens)
    ensures [token] + path in Under(token, paths) <==> path in paths
  {
    if path in paths {
      var i :| 0 <= i < |paths| && paths[i] == path;
      assert Under(token, paths)[i] == [token] + path;
    }
    if [token] + path in Under(token, paths) {
      var i :| 0 <= i < |paths| && Under(token, paths)[i] == [token] + path;
      assert ([token] + path)[1..] == path && ([token] + paths[i])[1..] == paths[i];
    }
  }

  lemma {:induction false} DeleteIsDrop(value: Json, at: Tokens, places: set<Tokens>)
    requires KeysDistinct(value) && PlacesBelow(places, at, OmittedPaths(value))
    ensures Delete(value, at, places) == Drop(value)
  {
    match value
    case Array(items) => DeleteItemsIsDrop(items, 0, at, places);
    case Object(members) => DeleteMembersIsDrop(members, at, places);
    case _ =>
  }

  /** The places below one child. */
  ghost predicate ChildPlaces(places: set<Tokens>, at: Tokens, token: string, paths: seq<Tokens>) {
    forall path :: at + ([token] + path) in places <==> [token] + path in paths
  }

  lemma ChildBelow(places: set<Tokens>, at: Tokens, token: string, paths: seq<Tokens>, others: seq<Tokens>)
    requires ChildPlaces(places, at, token, Under(token, paths) + others)
    requires forall i :: 0 <= i < |others| ==> others[i] != [] && others[i][0] != token
    ensures PlacesBelow(places, at + [token], paths)
  {
    forall path ensures at + [token] + path in places <==> path in paths {
      assert at + [token] + path == at + ([token] + path);
      UnderHolds(token, paths, path);
    }
  }

  lemma {:induction false} DeleteItemsIsDrop(items: Items, index: nat, at: Tokens, places: set<Tokens>)
    requires KeysDistinctItems(items)
    requires forall k: nat :: k >= index ==> ChildPlaces(places, at, Decimal(k), OmittedInItems(items, index))
    ensures DeleteItems(items, index, at, places) == DropItems(items)
    decreases items
  {
    if items.Item? {
      var here, others := Under(Decimal(index), OmittedPaths(items.head)), OmittedInItems(items.tail, index + 1);
      IndexRoundTrip(index);
      forall i | 0 <= i < |others| ensures others[i] != [] && others[i][0] != Decimal(index) {
        ItemPathHead(items.tail, index + 1, i);
      }
      ChildBelow(places, at, Decimal(index), OmittedPaths(items.head), others);
      DeleteIsDrop(items.head, at + [Decimal(index)], places);
      forall k: nat | k >= index + 1 ensures ChildPlaces(places, at, Decimal(k), others) {
        IndexRoundTrip(k);
        OtherChild(places, at, Decimal(k), here, others);
      }
      DeleteItemsIsDrop(items.tail, index + 1, at, places);
    }
  }

  lemma OtherChild(places: set<Tokens>, at: Tokens, token: string, here: seq<Tokens>, others: seq<Tokens>)
    requires ChildPlaces(places, at, token, here + others)
    requires forall i :: 0 <= i < |here| ==> here[i] != [] && here[i][0] != token
    ensures ChildPlaces(places, at, token, others)
  {
    forall path ensures [token] + path in here + others <==> [token] + path in others {
      assert ([token] + path)[0] == token;
    }
  }

  lemma {:induction false} DeleteMembersIsDrop(members: Members, at: Tokens, places: set<Tokens>)
    requires KeysDistinctMembers(members)
    requires forall k :: HasKey(members, k) ==> ChildPlaces(places, at, k, OmittedInMembers(members))
    ensures DeleteMembers(members, at, places) == DropMembers(members)
    decreases members
  {
    if members.Member? {
      var key, others := members.key, OmittedInMembers(members.rest);
      var here := if Omitted(key) then [[key]] else Under(key, OmittedPaths(members.value));
      assert HasKey(members, key);
      forall i | 0 <= i < |others| ensures others[i] != [] && others[i][0] != key {
        MemberPathHead(members.rest, i);
      }
      MemberPlace(places, at, members);
      if !Omitted(key) {
        ChildBelow(places, at, key, OmittedPaths(members.value), others);
        DeleteIsDrop(members.value, at + [key], places);
      }
      forall k | HasKey(members.rest, k) ensures ChildPlaces(places, at, k, others) {
        assert HasKey(members, k);
        OtherChild(places, at, k, here, others);
      }
      DeleteMembersIsDrop(members.rest, at, places);
    }
  }

  lemma MemberPlace(places: set<Tokens>, at: Tokens, members: Members)
    requires members.Member? && KeysDistinctMembers(members)
    requires ChildPlaces(places, at, members.key, OmittedInMembers(members))
    ensures at + [members.key] in places <==> Omitted(members.key)
  {
    var key, paths := members.key, OmittedInMembers(members);
    assert [key] + [] == [key];
    assert at + ([key] + []) in places <==> [key] + [] in paths;
    if Omitted(key) {
      assert paths[0] == [key];
    } else {
      forall i | 0 <= i < |paths| ensures paths[i] != [key] {
        NotAlone(members, i);
      }
    }
  }

  lemma NotAlone(members: Members, i: nat)
    requires members.Member? && KeysDistinctMembers(members) && !Omitted(members.key) && i < |OmittedInMembers(members)|
    ensures OmittedInMembers(members)[i] != [members.key]
  {
    var here := Under(members.key, OmittedPaths(members.value));
    if i < |here| {
      PathsResolve(members.value, i);
    } else {
      MemberPathHead(members.rest, i - |here|);
    }
  }

  // ------------------------------------------------------------------ what it gives

  function PlaceSet(paths: seq<Tokens>): set<Tokens> {
    set i | 0 <= i < |paths| :: paths[i]
  }

  /** The omission pointers of a scrub are all different, each of them resolves in
      the original value to a member with an omitted name, and deleting exactly
      those members from the original gives the result. */
  lemma OmissionsAreExact(value: Json)
    requires KeysDistinct(value) && Scrub(value, "").Ok?
    ensures var r, paths := Scrub(value, "").value, OmittedPaths(value);
            && |r.omissions| == |paths|
            && (forall i :: 0 <= i < |paths| ==> Parse(r.omissions[i]) == Some(paths[i]))
            && (forall i :: 0 <= i < |paths| ==> Resolve(value, r.omissions[i]).Some? && NamesOmittedMember(value, paths[i]))
            && (forall i, j :: 0 <= i < j < |paths| ==> r.omissions[i] != r.omissions[j])
            && r.value == Delete(value, [], PlaceSet(paths))
  {
    var paths := OmittedPaths(value);
    OmissionsArePaths(value, "");
    ScrubIsDrop(value, "");
    PathsDistinct(value);
    forall i | 0 <= i < |paths| ensures
      && Parse("" + Render(paths[i])) == Some(paths[i])
      && Resolve(value, "" + Render(paths[i])).Some? && NamesOmittedMember(value, paths[i])
    {
      assert "" + Render(paths[i]) == Render(paths[i]);
      RenderRoundTrip(paths[i]);
      PathsResolve(value, i);
    }
    forall path ensures [] + path in PlaceSet(paths) <==> path in paths {
      assert [] + path == path;
    }
    DeleteIsDrop(value, [], PlaceSet(paths));
  }
}
