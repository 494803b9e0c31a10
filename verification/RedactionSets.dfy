/** Fail-closed single-pass redaction of evidence text (`RedactionSet`). */
module RedactionSets {
  import opened Base
  import opened Occurrences

  const MAX_SECRET_VALUES: nat := 256
  const MAX_SECRET_VALUE_BYTES: nat := 16 * 1024
  const MAX_REDACTED_OUTPUT_BYTES: nat := 2 * 1024 * 1024

  datatype RedactionError =
    | TooManySecretValues
    | InvalidSecretValue
    | NulByte
    | OutputTooLarge
    | ResidualSecret

  datatype Result<+T> = Ok(value: T) | Err(error: RedactionError)

  datatype RedactedPayload = RedactedPayload(bytes: Bytes, replacements: nat)

  /** One replaced stretch of the text. */
  datatype Match = Match(at: nat, length: nat) {
    function End(): nat { at + length }
  }

  // ------------------------------------------------- the declarative meaning

  ghost predicate OccursSome(text: Bytes, secrets: seq<Bytes>, p: nat) {
    exists s :: s in secrets && OccursAt(s, text, p)
  }

  /** `m` is the longest secret at its place, and no secret starts between `cursor` and it. */
  ghost predicate LeftmostLongest(text: Bytes, secrets: seq<Bytes>, cursor: nat, m: Match) {
    && cursor <= m.at && m.End() <= |text|
    && text[m.at..m.End()] in secrets
    && (forall s :: s in secrets && OccursAt(s, text, m.at) ==> |s| <= m.length)
    && (forall p: nat :: cursor <= p < m.at ==> !OccursSome(text, secrets, p))
  }

  /** The replaced stretches from `cursor` on: each leftmost-longest after the
      one before it, and no secret left to the right of the last. */
  ghost predicate Selects(text: Bytes, secrets: seq<Bytes>, cursor: nat, matches: seq<Match>)
    decreases |matches|
  {
    if matches == [] then
      forall p: nat :: cursor <= p ==> !OccursSome(text, secrets, p)
    else
      && LeftmostLongest(text, secrets, cursor, matches[0])
      && Selects(text, secrets, matches[0].End(), matches[1..])
  }

  predicate Placed(text: Bytes, cursor: nat, matches: seq<Match>)
    decreases |matches|
  {
    if matches == [] then cursor <= |text|
    else
      && cursor <= matches[0].at && matches[0].End() <= |text|
      && Placed(text, matches[0].End(), matches[1..])
  }

  /** The text from `cursor` on with each stretch replaced by the marker. */
  function Rendered(marker: Bytes, text: Bytes, cursor: nat, matches: seq<Match>): (r: Bytes)
    requires Placed(text, cursor, matches)
    decreases |matches|
  {
    if matches == [] then text[cursor..]
    else text[cursor..matches[0].at] + marker + Rendered(marker, text, matches[0].End(), matches[1..])
  }

  function TotalLength(matches: seq<Match>): nat {
    if matches == [] then 0 else matches[0].length + TotalLength(matches[1..])
  }

  lemma {:induction false} RenderedLength(marker: Bytes, text: Bytes, cursor: nat, matches: seq<Match>)
    requires Placed(text, cursor, matches)
    ensures cursor + TotalLength(matches) <= |text|
    ensures |Rendered(marker, text, cursor, matches)|
         == |text| - cursor - TotalLength(matches) + |marker| * |matches|
    decreases |matches|
  {
    if matches != [] {
      RenderedLength(marker, text, matches[0].End(), matches[1..]);
      assert |marker| * |matches| == |marker| + |marker| * |matches[1..]|;
    }
  }

  /** The selection is unique, so the outcome does not depend on the order of the secrets. */
  lemma {:induction false} SelectionUnique(text: Bytes, secrets: seq<Bytes>, others: seq<Bytes>, cursor: nat,
                                           a: seq<Match>, b: seq<Match>)
    requires forall s :: s in secrets <==> s in others
    requires Selects(text, secrets, cursor, a) && Selects(text, others, cursor, b)
    ensures a == b
    decreases |a|
  {
    if a != [] && b != [] {
      SelectedOccurs(text, secrets, cursor, a[0]);
      SelectedOccurs(text, others, cursor, b[0]);
      assert OccursSome(text, others, a[0].at) && OccursSome(text, secrets, b[0].at);
      assert a[0].at == b[0].at;
      assert a[0] == b[0];
      SelectionUnique(text, secrets, others, a[0].End(), a[1..], b[1..]);
    } else if a != [] {
      SelectedOccurs(text, secrets, cursor, a[0]);
      assert OccursSome(text, others, a[0].at);
    } else if b != [] {
      SelectedOccurs(text, others, cursor, b[0]);
      assert OccursSome(text, secrets, b[0].at);
    }
  }

  lemma SelectedOccurs(text: Bytes, secrets: seq<Bytes>, cursor: nat, m: Match)
    requires LeftmostLongest(text, secrets, cursor, m)
    ensures OccursSome(text, secrets, m.at)
    ensures exists s :: s in secrets && |s| == m.length && OccursAt(s, text, m.at)
  {
    assert OccursAt(text[m.at..m.End()], text, m.at);
  }

  // ------------------------------------------------------- finding the matches

  predicate Before(a: Match, b: Match) {
    a.at < b.at || (a.at == b.at && a.length >= b.length)
  }

  /** The `min_by` over the first occurrence of each secret. */
  function Next(text: Bytes, secrets: seq<Bytes>, cursor: nat): (m: Option<Match>)
    ensures m.Some? ==> cursor <= m.value.at && m.value.End() <= |text|
  {
    if secrets == [] then None
    else
      var rest := Next(text, secrets[1..], cursor);
      match Find(secrets[0], text, cursor)
      case None => rest
      case Some(i) =>
        var here := Match(i, |secrets[0]|);
        if rest.None? || Before(here, rest.value) then Some(here) else rest
  }

  /** It is a match of some secret and no secret gives a better one. */
  lemma {:induction false} NextIsLeast(text: Bytes, secrets: seq<Bytes>, cursor: nat)
    ensures match Next(text, secrets, cursor)
            case None => forall s, p: nat :: s in secrets && cursor <= p ==> !OccursAt(s, text, p)
            case Some(m) =>
              && text[m.at..m.End()] in secrets
              && forall s, p: nat :: s in secrets && cursor <= p && OccursAt(s, text, p) ==> Before(m, Match(p, |s|))
  {
    if secrets != [] {
      NextIsLeast(text, secrets[1..], cursor);
      FindSpec(secrets[0], text, cursor);
      assert forall s :: s in secrets <==> s == secrets[0] || s in secrets[1..];
    }
  }

  lemma NextIsLeftmostLongest(text: Bytes, secrets: seq<Bytes>, cursor: nat)
    ensures match Next(text, secrets, cursor)
            case None => Selects(text, secrets, cursor, [])
            case Some(m) => LeftmostLongest(text, secrets, cursor, m)
  {
    NextIsLeast(text, secrets, cursor);
  }

  lemma NextAdvances(text: Bytes, secrets: seq<Bytes>, cursor: nat)
    requires [] !in secrets
    ensures Next(text, secrets, cursor).Some? ==> Next(text, secrets, cursor).value.End() > cursor
  {
    NextIsLeast(text, secrets, cursor);
  }

  /** All matches of the scan, from a cursor on. */
  function Matches(text: Bytes, secrets: seq<Bytes>, cursor: nat): (matches: seq<Match>)
    requires [] !in secrets && cursor <= |text|
    ensures Placed(text, cursor, matches) && |matches| <= |text| - cursor
    decreases |text| - cursor
  {
    NextAdvances(text, secrets, cursor);
    match Next(text, secrets, cursor)
    case None => []
    case Some(m) => [m] + Matches(text, secrets, m.End())
  }

  /** The scan selects exactly the leftmost-longest stretches. */
  lemma {:induction false} MatchesSelect(text: Bytes, secrets: seq<Bytes>, cursor: nat)
    requires [] !in secrets && cursor <= |text|
    ensures Selects(text, secrets, cursor, Matches(text, secrets, cursor))
    decreases |text| - cursor
  {
    NextIsLeftmostLongest(text, secrets, cursor);
    NextAdvances(text, secrets, cursor);
    if Next(text, secrets, cursor).Some? {
      var m := Next(text, secrets, cursor).value;
      MatchesSelect(text, secrets, m.End());
      assert Matches(text, secrets, cursor)[1..] == Matches(text, secrets, m.End());
    }
  }

  // --------------------------------------------------------------- the set itself

  predicate Acceptable(s: Bytes) {
    && s != [] && |s| <= MAX_SECRET_VALUE_BYTES && 0 !in s
    && Find(MARKER, s, 0).None? && Find(s, MARKER, 0).None?
  }

  datatype RedactionSet = RedactionSet(generation: nat, secrets: seq<Bytes>) {
    ghost predicate Valid() {
      forall s :: s in secrets ==> Acceptable(s)
    }
  }

  /** `RedactionSet::new`, for the secret values: they are accepted exactly when
      there are few enough and each one is acceptable. */
  method NewRedactionSet(generation: nat, secrets: seq<Bytes>) returns (r: Result<RedactionSet>)
    ensures |secrets| > 256 <==> r == Err(TooManySecretValues)
    ensures r.Ok? <==> |secrets| <= 256 && forall s :: s in secrets ==> Acceptable(s)
    ensures r.Ok? ==>
              && r.value.generation == generation && r.value.Valid() && LongestFirst(r.value.secrets)
              && forall s :: s in r.value.secrets <==> s in secrets
    ensures r.Err? ==> r.error in {TooManySecretValues, InvalidSecretValue}
  {
    if |secrets| > MAX_SECRET_VALUES {
      return Err(TooManySecretValues);
    }
    for i := 0 to |secrets|
      invariant forall s :: s in secrets[..i] ==> Acceptable(s)
    {
      if !Acceptable(secrets[i]) {
        return Err(InvalidSecretValue);
      }
    }
    assert secrets[..|secrets|] == secrets;
    return Ok(RedactionSet(generation, Dedup(SortByLength(secrets))));
  }

  /** The whole-input meaning of `redact_text`, before its final checks. */
  function RedactedText(text: Bytes, secrets: seq<Bytes>): (r: Bytes)
    requires [] !in secrets
  {
    Rendered(MARKER, text, 0, Matches(text, secrets, 0))
  }

  ghost function Outcome(text: Bytes, secrets: seq<Bytes>): (r: Result<RedactedPayload>)
    requires [] !in secrets
  {
    if 0 in text then Err(NulByte)
    else if |text| > MAX_REDACTED_OUTPUT_BYTES then Err(OutputTooLarge)
    else if |RedactedText(text, secrets)| > MAX_REDACTED_OUTPUT_BYTES then Err(OutputTooLarge)
    else if exists s :: s in secrets && Contains(RedactedText(text, secrets), s) then Err(ResidualSecret)
    else Ok(RedactedPayload(RedactedText(text, secrets), |Matches(text, secrets, 0)|))
  }

  /** The fold of one loop iteration. */
  lemma ScanStep(done: Bytes, text: Bytes, secrets: seq<Bytes>, cursor: nat)
    requires [] !in secrets && cursor <= |text|
    ensures Next(text, secrets, cursor).None? ==>
              && Matches(text, secrets, cursor) == []
              && Rendered(MARKER, text, cursor, Matches(text, secrets, cursor)) == text[cursor..]
    ensures Next(text, secrets, cursor).Some? ==>
              var m := Next(text, secrets, cursor).value;
              && m.End() > cursor
              && |Matches(text, secrets, cursor)| == 1 + |Matches(text, secrets, m.End())|
              && done + Rendered(MARKER, text, cursor, Matches(text, secrets, cursor))
                 == done + text[cursor..m.at] + MARKER + Rendered(MARKER, text, m.End(), Matches(text, secrets, m.End()))
  {
    NextAdvances(text, secrets, cursor);
    if Next(text, secrets, cursor).Some? {
      var m := Next(text, secrets, cursor).value;
      var rest := Matches(text, secrets, m.End());
      assert Matches(text, secrets, cursor) == [m] + rest;
      assert ([m] + rest)[1..] == rest;
      var tail := Rendered(MARKER, text, m.End(), rest);
      assert Rendered(MARKER, text, cursor, Matches(text, secrets, cursor)) == text[cursor..m.at] + MARKER + tail;
      assert done + (text[cursor..m.at] + MARKER + tail) == done + text[cursor..m.at] + MARKER + tail;
    }
  }

  /** `redact_text`: the cursor loop computes the leftmost-longest replacement;
      the checks inside the loop report nothing the final ones would not. */
  method RedactText(redaction: RedactionSet, text: Bytes) returns (r: Result<RedactedPayload>)
    requires redaction.Valid()
    ensures r == Outcome(text, redaction.secrets)
  {
    if 0 in text {
      return Err(NulByte);
    }
    if |text| > MAX_REDACTED_OUTPUT_BYTES {
      return Err(OutputTooLarge);
    }
    var secrets := redaction.secrets;
    var redacted: Bytes := [];
    var replacements := 0;
    var cursor := 0;
    ghost var whole := RedactedText(text, secrets);
    while cursor < |text|
      invariant 0 <= cursor <= |text|
      invariant redacted + Rendered(MARKER, text, cursor, Matches(text, secrets, cursor)) == whole
      invariant replacements + |Matches(text, secrets, cursor)| == |Matches(text, secrets, 0)|
    {
      ScanStep(redacted, text, secrets, cursor);
      match Next(text, secrets, cursor)
      case None =>
        redacted := redacted + text[cursor..];
        assert redacted == whole && replacements == |Matches(text, secrets, 0)|;
        break;
      case Some(m) =>
        redacted := redacted + text[cursor..m.at] + MARKER;
        if |redacted| > MAX_REDACTED_OUTPUT_BYTES {
          return Err(OutputTooLarge);
        }
        replacements := replacements + 1;
        cursor := m.End();
    }
    if cursor == |text| {
      ScanStep(redacted, text, secrets, cursor);
    }
    assert redacted == whole && replacements == |Matches(text, secrets, 0)|;
    if |redacted| > MAX_REDACTED_OUTPUT_BYTES {
      return Err(OutputTooLarge);
    }
    for i := 0 to |secrets|
      invariant forall s :: s in secrets[..i] ==> !Contains(redacted, s)
    {
      FindSpec(secrets[i], redacted, 0);
      if Find(secrets[i], redacted, 0).Some? {
        assert Contains(redacted, secrets[i]);
        return Err(ResidualSecret);
      }
    }
    assert secrets[..|secrets|] == secrets;
    return Ok(RedactedPayload(redacted, replacements));
  }

  // ------------------------------------------------------------- the guarantees

  /** The output is the leftmost-longest replacement, with its exact length. */
  lemma RedactedTextMeaning(text: Bytes, secrets: seq<Bytes>)
    requires [] !in secrets
    ensures var matches := Matches(text, secrets, 0);
            && Selects(text, secrets, 0, matches)
            && RedactedText(text, secrets) == Rendered(MARKER, text, 0, matches)
            && |RedactedText(text, secrets)| == |text| - TotalLength(matches) + 10 * |matches|
  {
    var matches := Matches(text, secrets, 0);
    MatchesSelect(text, secrets, 0);
    RenderedLength(MARKER, text, 0, matches);
    assert |MARKER| * |matches| == 10 * |matches|;
  }

  /** Sorting and deduplicating the secrets cannot change any outcome. */
  lemma OrderOfSecretsIrrelevant(text: Bytes, secrets: seq<Bytes>, others: seq<Bytes>)
    requires [] !in secrets && forall s :: s in secrets <==> s in others
    ensures Outcome(text, secrets) == Outcome(text, others)
  {
    MatchesSelect(text, secrets, 0);
    MatchesSelect(text, others, 0);
    SelectionUnique(text, secrets, others, 0, Matches(text, secrets, 0), Matches(text, others, 0));
  }

  /** A text is let through exactly when it has no zero byte, neither it nor its redaction is
      over 2 MiB, and no secret is left in the redaction; then that is the answer, with the
      number of stretches replaced. */
  lemma OutcomeExactly(text: Bytes, secrets: seq<Bytes>)
    requires [] !in secrets
    ensures var r, redacted := Outcome(text, secrets), RedactedText(text, secrets);
            && (r.Ok? <==>
                  && 0 !in text && |text| <= 2 * 1024 * 1024 && |redacted| <= 2 * 1024 * 1024
                  && forall s, p: nat :: s in secrets ==> !OccursAt(s, redacted, p))
            && (r.Ok? ==> r.value.bytes == redacted && Selects(text, secrets, 0, Matches(text, secrets, 0))
                          && r.value.replacements == |Matches(text, secrets, 0)|)
            && (r == Err(NulByte) <==> 0 in text)
  {
    MatchesSelect(text, secrets, 0);
    if s, p: nat :| s in secrets && OccursAt(s, RedactedText(text, secrets), p) {
      assert Contains(RedactedText(text, secrets), s);
    }
  }
}
