/** What the key rule of the export policy means, and where its refusals point. */
module ExportLaws {
  import opened Base
  import opened JsonPointer
  import opened ExportScrub
  import opened ExportPolicy

  // ------------------------------------------------------------------------- keys

  lemma {:induction false} NormalizeConcat(a: string, b: string)
    ensures NormalizeKey(a + b) == NormalizeKey(a) + NormalizeKey(b)
  {
    if a == "" {
      assert a + b == b;
    } else {
      var head := if AsciiAlnum(a[0]) then [LowerChar(a[0])] else "";
      assert (a + b)[1..] == a[1..] + b && (a + b)[0] == a[0];
      NormalizeConcat(a[1..], b);
      Associates(head, NormalizeKey(a[1..]), NormalizeKey(b));
    }
  }

  /** A capital and its small letter are at the same place of the alphabet. */
  lemma LetterCase(c: char)
    ensures 'A' <= c <= 'Z' ==> 'a' <= LowerChar(c) <= 'z' && LowerChar(c) as int - 'a' as int == c as int - 'A' as int
    ensures !('A' <= c <= 'Z') ==> LowerChar(c) == c
  {
  }

  /** Only small ASCII letters and digits are left. */
  predicate Plain(key: string) {
    forall i | 0 <= i < |key| :: 'a' <= key[i] <= 'z' || '0' <= key[i] <= '9'
  }

  lemma {:induction false} NormalizedIsPlain(key: string)
    ensures Plain(NormalizeKey(key))
  {
    if key != "" {
      NormalizedIsPlain(key[1..]);
    }
  }

  lemma {:induction false} PlainIsNormalized(key: string)
    requires Plain(key)
    ensures NormalizeKey(key) == key
  {
    if key != "" {
      PlainIsNormalized(key[1..]);
      assert key == [key[0]] + key[1..];
    }
  }

  lemma {:induction false} CaseIsIgnored(key: string)
    ensures NormalizeKey(Lower(key)) == NormalizeKey(key)
  {
    if key != "" {
      assert Lower(key)[1..] == Lower(key[1..]);
      CaseIsIgnored(key[1..]);
    }
  }

  /** The rule for keys: letter case does not matter, any character that is no ASCII letter
      or digit may stand anywhere, and a name of small letters and digits stands for itself. */
  lemma KeysMean(a: string, c: char, b: string)
    ensures NormalizeKey(Lower(a)) == NormalizeKey(a)
    ensures !AsciiAlnum(c) ==> NormalizeKey(a + [c] + b) == NormalizeKey(a + b)
    ensures Plain(NormalizeKey(a)) && (Plain(a) ==> NormalizeKey(a) == a)
    ensures AsciiAlnum(c) <==> 'a' <= c <= 'z' || 'A' <= c <= 'Z' || '0' <= c <= '9'
  {
    CaseIsIgnored(a);
    NormalizedIsPlain(a);
    if Plain(a) {
      PlainIsNormalized(a);
    }
    NormalizeConcat(a + [c], b);
    NormalizeConcat(a, [c]);
    NormalizeConcat(a, b);
    assert [c][1..] == "";
  }

  /** Whatever stands before it, a name that ends like a secret is refused. */
  lemma EndingsRefused(prefix: string)
    ensures Forbidden(prefix + "secret") && Forbidden(prefix + "password") && Forbidden(prefix + "credentialvalue")
    ensures Forbidden(prefix + "privatekey") && Forbidden(prefix + "authorizationheader")
  {
    EndingKept(prefix, "secret");
    EndingKept(prefix, "password");
    EndingKept(prefix, "credentialvalue");
    EndingKept(prefix, "privatekey");
    EndingKept(prefix, "authorizationheader");
  }

  lemma EndingKept(prefix: string, name: string)
    requires Plain(name)
    ensures EndsWith(NormalizeKey(prefix + name), name)
  {
    NormalizeConcat(prefix, name);
    PlainIsNormalized(name);
  }

  // ------------------------------------------------------------------------ texts

  lemma PrefixedToken(a: string, prefix: string, token: string, b: string)
    requires |token| == 16 && forall i :: 0 <= i < 16 ==> AsciiAlnum(token[i])
    ensures LooksLikeToken(a + prefix + token + b, prefix)
  {
    var text := a + prefix + token + b;
    assert text[|a|..|a| + |prefix|] == prefix;
    assert text[|a| + |prefix|..] == token + b;
    assert PartAt(text, |a|, prefix) && StartsAlnum(text[|a| + |prefix|..], 16);
  }

  lemma LowerParts(a: string, middle: string, b: string)
    ensures Lower(a + middle + b) == Lower(a) + Lower(middle) + Lower(b)
  {
  }

  lemma HeldInside(a: string, middle: string, b: string, part: string)
    requires Lower(middle) == part
    ensures OccursIn(Lower(a + middle + b), part)
  {
    LowerParts(a, middle, b);
    assert Lower(a + middle + b)[|a|..|a| + |part|] == part;
    assert PartAt(Lower(a + middle + b), |a|, part);
  }

  /** Wherever it stands, a key prefix with sixteen letters or digits is refused, and so is
      the head of a private key in any letter case. */
  lemma CredentialsRefused(a: string, middle: string, b: string)
    ensures |middle| == 16 && (forall i :: 0 <= i < 16 ==> AsciiAlnum(middle[i])) ==>
              && CredentialLike(a + "sk-" + middle + b) && CredentialLike(a + "ghp_" + middle + b)
              && CredentialLike(a + "github_pat_" + middle + b)
    ensures Lower(middle) == "-----begin private key-----" || Lower(middle) == "-----begin rsa private key-----" ==>
              CredentialLike(a + middle + b)
    ensures Lower(middle) == "bearer " ==> CredentialLike(middle + b)
  {
    if |middle| == 16 && forall i :: 0 <= i < 16 ==> AsciiAlnum(middle[i]) {
      PrefixedToken(a, "sk-", middle, b);
      PrefixedToken(a, "ghp_", middle, b);
      PrefixedToken(a, "github_pat_", middle, b);
    }
    HeldInside(a, middle, b, Lower(middle));
    if Lower(middle) == "bearer " {
      LowerParts("", middle, b);
      assert "" + middle + b == middle + b && Lower("") == "";
      assert Lower(middle + b)[..7] == "bearer ";
    }
  }

  /** Home directories, network shares and drive letters are refused at the start of a text. */
  lemma MachinePathsRefused(letter: char, rest: string)
    ensures LooksLikeMachinePath("/home/" + rest) && LooksLikeMachinePath("/Users/" + rest)
    ensures LooksLikeMachinePath("\\\\" + rest)
    ensures (AsciiUpper(letter) || AsciiLower(letter)) && rest != "" ==>
              LooksLikeMachinePath([letter] + ":/" + rest) && LooksLikeMachinePath([letter] + ":\\" + rest)
  {
    if (AsciiUpper(letter) || AsciiLower(letter)) && rest != "" {
      LongerThanThree([letter] + ":/" + rest);
      LongerThanThree([letter] + ":\\" + rest);
    }
  }

  lemma {:induction false} AtLeastAsLong(text: string)
    ensures Utf8Length(text) >= |text|
  {
    if text != "" {
      AtLeastAsLong(text[1..]);
    }
  }

  lemma LongerThanThree(text: string)
    requires |text| > 3
    ensures Utf8Length(text) > 3
  {
    AtLeastAsLong(text);
  }

  // --------------------------------------------------------------------- refusals

  ghost predicate IsText(value: Option<Json>, credential: bool) {
    && value.Some? && value.value.Text?
    && CredentialLike(value.value.text) == credential
    && (credential || LooksLikeMachinePath(value.value.text))
  }

  /** The error names a place of the value, and what stands there is what it says. */
  ghost predicate Points(error: ExportError, prefix: string, value: Json, path: Tokens) {
    match error
    case ForbiddenField(pointer) =>
      && pointer == prefix + Render(path) && path != [] && Evaluate(value, path).Some?
      && Forbidden(path[|path| - 1]) && !Omitted(path[|path| - 1])
    case CredentialLikeValue(pointer) => pointer == prefix + Render(path) && IsText(Evaluate(value, path), true)
    case MachinePath(pointer) => pointer == prefix + Render(path) && IsText(Evaluate(value, path), false)
    case _ => false
  }

  lemma RenderCons(prefix: string, token: string, path: Tokens)
    ensures prefix + Render([token] + path) == prefix + "/" + Escape(token) + Render(path)
    ensures ([token] + path)[1..] == path && ([token] + path)[0] == token
  {
    assert ([token] + path)[1..] == path;
  }

  /** An error inside one child points into the parent. */
  lemma PointsUp(error: ExportError, prefix: string, token: string, child: Json, parent: Json, path: Tokens)
    requires Points(error, prefix + "/" + Escape(token), child, path)
    requires Evaluate(parent, [token] + path) == Evaluate(child, path)
    ensures Points(error, prefix, parent, [token] + path)
  {
    RenderCons(prefix, token, path);
    assert path != [] ==> ([token] + path)[|path|] == path[|path| - 1];
  }

  lemma {:induction false} RefusalPoints(value: Json, prefix: string) returns (path: Tokens)
    requires KeysDistinct(value) && Scrub(value, prefix).Err?
    ensures Points(Scrub(value, prefix).error, prefix, value, path)
    decreases value
  {
    match value
    case Array(items) => path := ItemRefusalPoints(items, 0, items, prefix);
    case Object(members) => path := MemberRefusalPoints(members, members, prefix);
    case Text(_) =>
      path := [];
      assert prefix + Render([]) == prefix;
  }

  lemma {:induction false} ItemRefusalPoints(items: Items, index: nat, all: Items, prefix: string) returns (path: Tokens)
    requires KeysDistinctItems(items) && ScrubItems(items, prefix, index).Err?
    requires forall k: nat :: ItemAt(items, k) == ItemAt(all, index + k)
    ensures Points(ScrubItems(items, prefix, index).error, prefix, Array(all), path)
    decreases items
  {
    var field := prefix + "/" + Decimal(index);
    if Scrub(items.head, field).Err? {
      var inner := RefusalPoints(items.head, field);
      DecimalEscape(index);
      IndexRoundTrip(index);
      assert ItemAt(items, 0) == ItemAt(all, index);
      path := [Decimal(index)] + inner;
      assert path[1..] == inner;
      PointsUp(Scrub(items.head, field).error, prefix, Decimal(index), items.head, Array(all), inner);
    } else {
      forall k: nat ensures ItemAt(items.tail, k) == ItemAt(all, index + 1 + k) {
        assert ItemAt(items, k + 1) == ItemAt(all, index + (k + 1));
      }
      path := ItemRefusalPoints(items.tail, index + 1, all, prefix);
    }
  }

  lemma {:induction false} MemberRefusalPoints(members: Members, all: Members, prefix: string) returns (path: Tokens)
    requires KeysDistinctMembers(members) && ScrubMembers(members, prefix).Err?
    requires forall k :: HasKey(members, k) ==> MemberOf(members, k) == MemberOf(all, k)
    ensures Points(ScrubMembers(members, prefix).error, prefix, Object(all), path)
    decreases members
  {
    var key := members.key;
    var field := prefix + "/" + Escape(key);
    assert HasKey(members, key);
    if !Omitted(key) && Forbidden(key) {
      path := [key];
      RenderCons(prefix, key, []);
      assert [key] + [] == [key] && Render([]) == "";
    } else if !Omitted(key) && Scrub(members.value, field).Err? {
      var inner := RefusalPoints(members.value, field);
      path := [key] + inner;
      assert path[1..] == inner;
      PointsUp(Scrub(members.value, field).error, prefix, key, members.value, Object(all), inner);
    } else {
      forall k | HasKey(members.rest, k) ensures MemberOf(members.rest, k) == MemberOf(all, k) {
        assert HasKey(members, k);
      }
      path := MemberRefusalPoints(members.rest, all, prefix);
    }
  }

  /** A refused export names a real offender: its pointer resolves in the value, to a member
      with a forbidden name or to a text of the kind the error says. */
  lemma RefusalsResolve(value: Json) returns (path: Tokens)
    requires KeysDistinct(value) && Scrub(value, "").Err?
    ensures Points(Scrub(value, "").error, "", value, path)
    ensures Parse(Scrub(value, "").error.pointer) == Some(path) && Resolve(value, Scrub(value, "").error.pointer).Some?
  {
    path := RefusalPoints(value, "");
    assert "" + Render(path) == Render(path);
    RenderRoundTrip(path);
  }

  // ------------------------------------------------------------------------ records

  lemma {:induction false} VocabularyExactly(members: Members, allowed: set<string>)
    ensures match UnknownKey(members, allowed)
            case None => forall key :: HasKey(members, key) ==> key in allowed
            case Some(key) => HasKey(members, key) && key !in allowed
  {
    if members.Member? {
      VocabularyExactly(members.rest, allowed);
    }
  }

  /** A typed record is let in exactly when it is an object all of whose keys are in its
      vocabulary; a refusal names a key that is not. */
  lemma RecordsExactly(recordClass: RecordClass, value: Json)
    requires !recordClass.SemanticPayload?
    ensures RootError(recordClass, value).None? <==>
              value.Object? && forall key :: HasKey(value.members, key) ==> key in AllowedKeys(recordClass)
    ensures !value.Object? ==> RootError(recordClass, value) == Some(WrongRecordShape)
    ensures value.Object? && RootError(recordClass, value).Some? ==>
              exists key :: HasKey(value.members, key) && key !in AllowedKeys(recordClass)
                && RootError(recordClass, value) == Some(UnknownField("/" + key))
  {
    if value.Object? {
      VocabularyExactly(value.members, AllowedKeys(recordClass));
    }
  }
}
