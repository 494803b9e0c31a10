/** Batch and streaming secret redaction (`Redactor` and `StreamingRedactor`). */
module StreamingRedaction {
  import opened Base
  import opened Occurrences

  /** `str::replace(needle, "[REDACTED]")`: leftmost, non-overlapping, one pass. */
  function Replace(marker: Bytes, text: Bytes, needle: Bytes): (r: Bytes)
    requires needle != []
    decreases |text|
  {
    match Find(needle, text, 0)
    case None => text
    case Some(i) => text[..i] + marker + Replace(marker, text[i + |needle|..], needle)
  }

  /** `Redactor::redact`: one replacement pass per secret, in the stored order. */
  function Redact(marker: Bytes, text: Bytes, secrets: seq<Bytes>): (r: Bytes)
    requires [] !in secrets
    decreases |secrets|
  {
    if secrets == [] then text
    else Redact(marker, Replace(marker, text, secrets[0]), secrets[1..])
  }

  ghost predicate Clean(text: Bytes, secrets: seq<Bytes>) {
    forall s :: s in secrets ==> !Contains(text, s)
  }

  ghost predicate AllNoClash(marker: Bytes, secrets: seq<Bytes>) {
    forall s :: s in secrets ==> NoClash(marker, s)
  }

  // ---------------------------------------------------------------- one pass

  /** A pass removes every occurrence of its own secret. */
  lemma {:induction false} ReplaceRemovesNeedle(marker: Bytes, text: Bytes, s: Bytes, p: nat)
    requires NoClash(marker, s)
    ensures !OccursAt(s, Replace(marker, text, s), p)
    decreases |text|
  {
    FindSpec(s, text, 0);
    match Find(s, text, 0)
    case None =>
    case Some(i) =>
      var tail := text[i + |s|..];
      OccurrencesAroundMarker(marker, text[..i], Replace(marker, tail, s), s, p);
      OccursInTake(s, text, i, p);
      if i + |marker| <= p {
        ReplaceRemovesNeedle(marker, tail, s, p - i - |marker|);
      }
  }

  /** A pass for one secret never creates an occurrence of another. */
  lemma {:induction false} ReplaceCreatesNone(marker: Bytes, text: Bytes, needle: Bytes, t: Bytes, p: nat)
    requires needle != [] && NoClash(marker, t) && !Contains(text, t)
    ensures !OccursAt(t, Replace(marker, text, needle), p)
    decreases |text|
  {
    FindSpec(needle, text, 0);
    match Find(needle, text, 0)
    case None =>
    case Some(i) =>
      var tail := text[i + |needle|..];
      OccurrencesAroundMarker(marker, text[..i], Replace(marker, tail, needle), t, p);
      OccursInTake(t, text, i, p);
      if i + |marker| <= p {
        forall q: nat ensures !OccursAt(t, tail, q) {
          OccursInDrop(t, text, i + |needle|, q);
        }
        ReplaceCreatesNone(marker, tail, needle, t, p - i - |marker|);
      }
  }

  /** Nor one that starts in text already emitted and runs into the replaced part. */
  lemma ReplaceCreatesNoneAcross(marker: Bytes, emitted: Bytes, text: Bytes, needle: Bytes, t: Bytes, p: nat)
    requires needle != [] && NoClash(marker, t) && p < |emitted| && !OccursAt(t, emitted + text, p)
    ensures !OccursAt(t, emitted + Replace(marker, text, needle), p)
  {
    FindSpec(needle, text, 0);
    match Find(needle, text, 0)
    case None =>
    case Some(i) =>
      var rest := Replace(marker, text[i + |needle|..], needle);
      var before := emitted + text[..i];
      Glue(emitted, text[..i], marker, rest);
      OccurrencesAroundMarker(marker, before, rest, t, p);
      assert before == (emitted + text)[..|before|];
      OccursInTake(t, emitted + text, |before|, p);
  }

  // -------------------------------------------------------------- all passes

  lemma {:induction false} RedactCreatesNone(marker: Bytes, text: Bytes, secrets: seq<Bytes>, t: Bytes)
    requires [] !in secrets && NoClash(marker, t) && !Contains(text, t)
    ensures !Contains(Redact(marker, text, secrets), t)
    decreases |secrets|
  {
    if secrets != [] {
      forall p: nat ensures !OccursAt(t, Replace(marker, text, secrets[0]), p) {
        ReplaceCreatesNone(marker, text, secrets[0], t, p);
      }
      RedactCreatesNone(marker, Replace(marker, text, secrets[0]), secrets[1..], t);
    }
  }

  lemma {:induction false} RedactCreatesNoneAcross(marker: Bytes, emitted: Bytes, text: Bytes, secrets: seq<Bytes>, t: Bytes, p: nat)
    requires [] !in secrets && NoClash(marker, t) && p < |emitted| && !OccursAt(t, emitted + text, p)
    ensures !OccursAt(t, emitted + Redact(marker, text, secrets), p)
    decreases |secrets|
  {
    if secrets != [] {
      ReplaceCreatesNoneAcross(marker, emitted, text, secrets[0], t, p);
      RedactCreatesNoneAcross(marker, emitted, Replace(marker, text, secrets[0]), secrets[1..], t, p);
    }
  }

  /** Batch redaction leaves no secret, whatever the order of the passes. */
  lemma {:induction false} RedactClean(marker: Bytes, text: Bytes, secrets: seq<Bytes>)
    requires [] !in secrets && AllNoClash(marker, secrets)
    ensures Clean(Redact(marker, text, secrets), secrets)
    decreases |secrets|
  {
    if secrets != [] {
      var s, once := secrets[0], Replace(marker, text, secrets[0]);
      forall p: nat ensures !OccursAt(s, once, p) {
        ReplaceRemovesNeedle(marker, text, s, p);
      }
      RedactCreatesNone(marker, once, secrets[1..], s);
      RedactClean(marker, once, secrets[1..]);
    }
  }

  // -------------------------------------------------------------- the redactor

  datatype Redactor = Redactor(secrets: seq<Bytes>, maximum: nat) {
    /** What `Redactor::new` establishes. */
    ghost predicate Valid() {
      && [] !in secrets
      && (forall s :: s in secrets ==> |s| <= maximum)
      && (secrets == [] ==> maximum == 0)
    }

    function Retain(): nat {
      if maximum == 0 then 0 else maximum - 1
    }
  }

  /** `str::is_char_boundary`: a continuation byte is one of 0x80..0xBF. */
  predicate IsCharBoundary(text: Bytes, i: nat) {
    i == 0 || i == |text| || (i < |text| && !(128 <= text[i] < 192))
  }

  /** The greatest character boundary not above `at`. */
  function BoundaryBelow(text: Bytes, at: nat): (split: nat)
    requires at <= |text|
    ensures split <= at && IsCharBoundary(text, split)
    ensures forall i: nat :: split < i <= at ==> !IsCharBoundary(text, i)
  {
    if at == 0 || IsCharBoundary(text, at) then at else BoundaryBelow(text, at - 1)
  }

  /** What one `push` emits, and what it keeps pending. */
  function Pushed(marker: Bytes, r: Redactor, pending: Bytes, chunk: Bytes): (next: (Bytes, Bytes))
    requires r.Valid()
  {
    var redacted := Redact(marker, pending + chunk, r.secrets);
    if r.Retain() == 0 then (redacted, [])
    else if |redacted| <= r.Retain() then ([], pending + chunk)
    else
      var split := BoundaryBelow(redacted, |redacted| - r.Retain());
      (redacted[..split], redacted[split..])
  }

  /** Everything a reader sees: each `push` in turn, then `finish`. */
  function Streamed(marker: Bytes, r: Redactor, pending: Bytes, chunks: seq<Bytes>): (out: Bytes)
    requires r.Valid()
    decreases |chunks|
  {
    if chunks == [] then Redact(marker, pending, r.secrets)
    else
      var (emitted, kept) := Pushed(marker, r, pending, chunks[0]);
      emitted + Streamed(marker, r, kept, chunks[1..])
  }

  /** The streaming invariant: no secret starts in what was emitted, and once
      something was emitted the pending text covers the longest secret but one byte. */
  ghost predicate Guarded(r: Redactor, emitted: Bytes, pending: Bytes) {
    && (emitted == [] || |pending| >= r.Retain())
    && forall s, p: nat :: s in r.secrets && p < |emitted| ==> !OccursAt(s, emitted + pending, p)
  }

  /** More input cannot complete a secret that starts in emitted text. */
  lemma GuardedExtends(r: Redactor, emitted: Bytes, pending: Bytes, chunk: Bytes)
    requires r.Valid() && Guarded(r, emitted, pending)
    ensures Guarded(r, emitted, pending + chunk)
  {
    forall s, p: nat | s in r.secrets && p < |emitted|
      ensures !OccursAt(s, emitted + (pending + chunk), p)
    {
      assert p + |s| <= |emitted + pending|;
      OccursInPrefix(s, emitted + pending, chunk, p);
      assert emitted + pending + chunk == emitted + (pending + chunk);
    }
  }

  /** Appending the redaction of the pending text to what was emitted shows no secret. */
  lemma GuardedRedactClean(marker: Bytes, r: Redactor, emitted: Bytes, pending: Bytes)
    requires r.Valid() && AllNoClash(marker, r.secrets) && Guarded(r, emitted, pending)
    ensures Clean(emitted + Redact(marker, pending, r.secrets), r.secrets)
  {
    var shown := Redact(marker, pending, r.secrets);
    RedactClean(marker, pending, r.secrets);
    forall s, p: nat | s in r.secrets ensures !OccursAt(s, emitted + shown, p) {
      if p < |emitted| {
        RedactCreatesNoneAcross(marker, emitted, pending, r.secrets, s, p);
      } else {
        assert !Contains(shown, s);
        OccursInSuffix(s, emitted, shown, p);
      }
    }
  }

  /** Every `push` keeps the invariant. */
  lemma PushKeepsGuard(marker: Bytes, r: Redactor, emitted: Bytes, pending: Bytes, chunk: Bytes)
    requires r.Valid() && AllNoClash(marker, r.secrets) && Guarded(r, emitted, pending)
    ensures var (out, kept) := Pushed(marker, r, pending, chunk); Guarded(r, emitted + out, kept)
  {
    var (out, kept) := Pushed(marker, r, pending, chunk);
    var redacted := Redact(marker, pending + chunk, r.secrets);
    GuardedExtends(r, emitted, pending, chunk);
    if r.Retain() > 0 && |redacted| <= r.Retain() {
      assert emitted + out == emitted;
    } else {
      GuardedRedactClean(marker, r, emitted, pending + chunk);
      assert out + kept == redacted;
      assert emitted + out + kept == emitted + redacted;
      forall s, p: nat | s in r.secrets && p < |emitted + out|
        ensures !OccursAt(s, emitted + out + kept, p)
      {
        assert !Contains(emitted + redacted, s);
      }
    }
  }

  lemma {:induction false} StreamedClean(marker: Bytes, r: Redactor, emitted: Bytes, pending: Bytes, chunks: seq<Bytes>)
    requires r.Valid() && AllNoClash(marker, r.secrets) && Guarded(r, emitted, pending)
    ensures Clean(emitted + Streamed(marker, r, pending, chunks), r.secrets)
    decreases |chunks|
  {
    if chunks == [] {
      GuardedRedactClean(marker, r, emitted, pending);
    } else {
      var (out, kept) := Pushed(marker, r, pending, chunks[0]);
      PushKeepsGuard(marker, r, emitted, pending, chunks[0]);
      var rest := Streamed(marker, r, kept, chunks[1..]);
      StreamedClean(marker, r, emitted + out, kept, chunks[1..]);
      assert Streamed(marker, r, pending, chunks) == out + rest;
      Associates(emitted, out, rest);
    }
  }

  ghost predicate LeakFree(r: Redactor, chunks: seq<Bytes>)
    requires r.Valid()
  {
    Clean(Streamed(MARKER, r, [], chunks), r.secrets)
  }

  /** Secrets that cannot touch a marker, brackets or not, are never visible in a stream. */
  lemma NoClashNeverLeaks(r: Redactor, chunks: seq<Bytes>)
    requires r.Valid() && AllNoClash(MARKER, r.secrets)
    ensures LeakFree(r, chunks)
  {
    StreamedClean(MARKER, r, [], [], chunks);
    assert [] + Streamed(MARKER, r, [], chunks) == Streamed(MARKER, r, [], chunks);
  }

  /** No secret is ever visible in a stream, however the input is cut into chunks. */
  lemma StreamNeverLeaks(r: Redactor, chunks: seq<Bytes>)
    requires r.Valid()
    requires forall s :: s in r.secrets ==> BracketFree(s) && !Contains(WORD, s)
    ensures Clean(Streamed(MARKER, r, [], chunks), r.secrets)
  {
    forall s | s in r.secrets ensures NoClash(MARKER, s) {
      BracketFreeNoClash(s);
    }
    NoClashNeverLeaks(r, chunks);
  }

  // ---------------------------------------------------- a pass on longer text

  /** A prefix in which no occurrence starts passes through unchanged. */
  lemma ReplaceSkipsPrefix(marker: Bytes, x: Bytes, y: Bytes, s: Bytes)
    requires s != [] && forall p: nat :: p < |x| ==> !OccursAt(s, x + y, p)
    ensures Replace(marker, x + y, s) == x + Replace(marker, y, s)
  {
    FindSkipsPrefix(s, x, y);
    if Find(s, y, 0).Some? {
      var j := Find(s, y, 0).value;
      SliceAcross(x, y, j, |s|);
      ReplaceSkipsTo(marker, x, y, x + y, s, j);
    }
  }

  lemma ReplaceSkipsTo(marker: Bytes, x: Bytes, y: Bytes, z: Bytes, s: Bytes, j: nat)
    requires s != [] && Find(s, y, 0) == Some(j) && Find(s, z, 0) == Some(|x| + j)
    requires z[..|x| + j] == x + y[..j] && z[|x| + j + |s|..] == y[j + |s|..]
    ensures Replace(marker, z, s) == x + Replace(marker, y, s)
  {
    Glue(x, y[..j], marker, Replace(marker, y[j + |s|..], s));
  }

  lemma Glue(x: Bytes, a: Bytes, b: Bytes, c: Bytes)
    ensures x + a + b + c == x + (a + b + c)
  {
  }

  lemma FindSkipsPrefix(s: Bytes, x: Bytes, y: Bytes)
    requires forall p: nat :: p < |x| ==> !OccursAt(s, x + y, p)
    ensures Find(s, x + y, 0) == match Find(s, y, 0) case None => None case Some(j) => Some(|x| + j)
  {
    FindSpec(s, y, 0);
    match Find(s, y, 0)
    case None =>
      forall p: nat ensures !OccursAt(s, x + y, p) {
        if |x| <= p {
          OccursInSuffix(s, x, y, p);
        }
      }
    case Some(j) =>
      OccursInSuffix(s, x, y, |x| + j);
      forall p: nat | p < |x| + j ensures !OccursAt(s, x + y, p) {
        if |x| <= p {
          OccursInSuffix(s, x, y, p);
        }
      }
      FindIs(s, x + y, |x| + j);
  }

  lemma SliceAcross(x: Bytes, y: Bytes, j: nat, n: nat)
    requires j + n <= |y|
    ensures (x + y)[..|x| + j] == x + y[..j]
    ensures (x + y)[|x| + j + n..] == y[j + n..]
  {
  }

  lemma FindInExtension(s: Bytes, text: Bytes, rest: Bytes)
    requires Find(s, text, 0).Some?
    ensures Find(s, text + rest, 0) == Find(s, text, 0)
  {
    var i := Find(s, text, 0).value;
    FindSpec(s, text, 0);
    forall p: nat | p <= i ensures OccursAt(s, text, p) <==> OccursAt(s, text + rest, p) {
      OccursInPrefix(s, text, rest, p);
    }
    FindIs(s, text + rest, i);
  }

  /** No occurrence starts before the end of the first marker of a pass. */
  lemma NoneBeforeFirstMarker(marker: Bytes, text: Bytes, s: Bytes, after: Bytes, p: nat)
    requires NoClash(marker, s) && Find(s, text, 0).Some?
    requires p < Find(s, text, 0).value + |marker|
    ensures !OccursAt(s, text[..Find(s, text, 0).value] + marker + after, p)
  {
    var i := Find(s, text, 0).value;
    FindSpec(s, text, 0);
    OccurrencesAroundMarker(marker, text[..i], after, s, p);
    OccursInTake(s, text, i, p);
  }

  /** Redacting early what has arrived does not change the redaction of the whole. */
  lemma {:induction false} ReplaceAbsorbs(marker: Bytes, text: Bytes, rest: Bytes, s: Bytes)
    requires NoClash(marker, s)
    ensures Replace(marker, Replace(marker, text, s) + rest, s) == Replace(marker, text + rest, s)
    decreases |text|
  {
    FindSpec(s, text, 0);
    match Find(s, text, 0)
    case None =>
    case Some(i) =>
      var head, tail := text[..i] + marker, text[i + |s|..];
      var early := Replace(marker, tail, s);
      forall p: nat | p < |head| ensures !OccursAt(s, head + (early + rest), p) {
        NoneBeforeFirstMarker(marker, text, s, early + rest, p);
      }
      ReplaceSkipsPrefix(marker, head, early + rest, s);
      ReplaceAbsorbs(marker, tail, rest, s);
      calc {
        Replace(marker, Replace(marker, text, s) + rest, s);
        { Associates(head, early, rest); }
        Replace(marker, head + (early + rest), s);
        head + Replace(marker, tail + rest, s);
        { ReplaceExtended(marker, text, rest, s); }
        Replace(marker, text + rest, s);
      }
  }

  lemma ReplaceExtended(marker: Bytes, text: Bytes, rest: Bytes, s: Bytes)
    requires s != [] && Find(s, text, 0).Some?
    ensures var i := Find(s, text, 0).value;
            Replace(marker, text + rest, s) == text[..i] + marker + Replace(marker, text[i + |s|..] + rest, s)
  {
    FindInExtension(s, text, rest);
    SliceOfExtension(text, rest, Find(s, text, 0).value, |s|);
  }

  lemma SliceOfExtension(x: Bytes, y: Bytes, j: nat, n: nat)
    requires j + n <= |x|
    ensures (x + y)[..j] == x[..j]
    ensures (x + y)[j + n..] == x[j + n..] + y
  {
  }

  lemma RedactSingle(marker: Bytes, text: Bytes, s: Bytes)
    requires s != []
    ensures Redact(marker, text, [s]) == Replace(marker, text, s)
  {
    assert [s][1..] == [];
    assert Redact(marker, Replace(marker, text, s), []) == Replace(marker, text, s);
  }

  /** With several secrets a stream may differ from the batch: of "abcd" and "bc",
      the shorter is already replaced when the input "abcd" arrives as "abc", "d". */
  lemma NestedSecretsStreamDiffers()
    ensures var r := Redactor([[97, 98, 99, 100], [98, 99]], 4);
            Streamed(MARKER, r, [], [[97, 98, 99], [100]]) != Redact(MARKER, [97, 98, 99, 100], r.secrets)
  {
    var long: Bytes, short: Bytes := [97, 98, 99, 100], [98, 99];
    ShortReplacedFirst(long, short, [97, 98, 99]);
    LongReplacedFirst(long, short);
  }

  /** The first push: only the short secret is there to be replaced. */
  lemma ShortReplacedFirst(long: Bytes, short: Bytes, first: Bytes)
    requires long == [97, 98, 99, 100] && short == [98, 99] && first == [97, 98, 99]
    ensures var out := Pushed(MARKER, Redactor([long, short], 4), [], first).0; |out| > 0 && out[0] == 97
  {
    var r := Redactor([long, short], 4);
    FindSpec(long, first, 0);
    OccursAtElements(short, first, 0);
    assert first[0 + 0] != short[0];
    FindIs(short, first, 1);
    assert r.secrets[1..] == [short];
    RedactSingle(MARKER, first, short);
    assert [] + first == first;
    var redacted := Redact(MARKER, first, r.secrets);
    assert redacted == Replace(MARKER, first, short);
    assert redacted[0] == 97 && |redacted| >= 11;
    assert IsCharBoundary(redacted, 1);
  }

  /** The batch replaces the long secret first. */
  lemma LongReplacedFirst(long: Bytes, short: Bytes)
    requires long == [97, 98, 99, 100] && short == [98, 99]
    ensures var out := Redact(MARKER, long, [long, short]); |out| > 0 && out[0] == 91
  {
    FindIs(long, long, 0);
    var once := Replace(MARKER, long, long);
    assert once[0] == 91;
    assert [long, short][1..] == [short];
    RedactSingle(MARKER, once, short);
    FirstByteStays(MARKER, once, short);
  }

  lemma FirstByteStays(marker: Bytes, text: Bytes, s: Bytes)
    requires s != [] && text != [] && marker != [] && marker[0] == text[0]
    ensures Replace(marker, text, s) != [] && Replace(marker, text, s)[0] == text[0]
  {
  }

  // --------------------------------------------- exactly when nothing leaks

  lemma ContainsTransitive(text: Bytes, marker: Bytes, t: Bytes)
    requires Contains(text, marker) && Contains(marker, t)
    ensures Contains(text, t)
  {
    var i: nat :| OccursAt(marker, text, i);
    var j: nat :| OccursAt(t, marker, j);
    OccursInside(t, marker, text, j, i);
  }

  /** The word REDACTED is part of the marker. */
  lemma WordInMarker(t: Bytes)
    requires Contains(WORD, t)
    ensures Contains(MARKER, t)
  {
    assert WORD == MARKER[1..9];
    assert OccursAt(WORD, MARKER, 1);
    ContainsTransitive(MARKER, WORD, t);
  }

  /** A pass changes nothing or leaves a whole marker behind. */
  lemma ReplaceMarks(marker: Bytes, text: Bytes, s: Bytes)
    requires s != []
    ensures Replace(marker, text, s) == text || Contains(Replace(marker, text, s), marker)
    ensures Find(s, text, 0).Some? ==> Contains(Replace(marker, text, s), marker)
  {
    if Find(s, text, 0).Some? {
      var i := Find(s, text, 0).value;
      var rest := Replace(marker, text[i + |s|..], s);
      assert OccursAt(marker, text[..i] + marker + rest, i);
    }
  }

  lemma {:induction false} RedactMarks(marker: Bytes, text: Bytes, secrets: seq<Bytes>)
    requires [] !in secrets
    ensures Redact(marker, text, secrets) == text || Contains(Redact(marker, text, secrets), marker)
    decreases |secrets|
  {
    if secrets != [] {
      ReplaceMarks(marker, text, secrets[0]);
      RedactMarks(marker, Replace(marker, text, secrets[0]), secrets[1..]);
    }
  }

  /** Redacting a text that is itself one of the secrets leaves a marker. */
  lemma {:induction false} RedactSecretMarks(marker: Bytes, t: Bytes, secrets: seq<Bytes>)
    requires [] !in secrets && t in secrets
    ensures Contains(Redact(marker, t, secrets), marker)
    decreases |secrets|
  {
    var next := Replace(marker, t, secrets[0]);
    ReplaceMarks(marker, t, secrets[0]);
    if secrets[0] == t {
      FindSpec(t, t, 0);
      assert OccursAt(t, t, 0);
    }
    if next == t && secrets[0] != t {
      RedactSecretMarks(marker, t, secrets[1..]);
    } else {
      RedactMarks(marker, next, secrets[1..]);
    }
  }

  /** A push that emits anything only cuts the redacted text in two. */
  lemma PushedSplits(marker: Bytes, r: Redactor, pending: Bytes, chunk: Bytes)
    requires r.Valid()
    requires var redacted := Redact(marker, pending + chunk, r.secrets); r.Retain() == 0 || |redacted| > r.Retain()
    ensures var (out, kept) := Pushed(marker, r, pending, chunk); out + kept == Redact(marker, pending + chunk, r.secrets)
  {
  }

  lemma MarkedEitherWay(marker: Bytes, out: Bytes, kept: Bytes, last: Bytes)
    requires Contains(out + kept, marker) && (last == kept || Contains(last, marker))
    ensures Contains(out + last, marker)
  {
    if last != kept {
      var i: nat :| OccursAt(marker, last, i);
      OccursInSuffix(marker, out, last, |out| + i);
    }
  }

  /** Streaming a secret as a single chunk also shows a marker. */
  lemma StreamedSecretMarks(marker: Bytes, r: Redactor, t: Bytes)
    requires r.Valid() && t in r.secrets
    ensures Contains(Streamed(marker, r, [], [t]), marker)
  {
    var (out, kept) := Pushed(marker, r, [], t);
    var last := Redact(marker, kept, r.secrets);
    assert [] + t == t && [t][1..] == [];
    assert Streamed(marker, r, [], [t]) == out + last;
    RedactSecretMarks(marker, t, r.secrets);
    if r.Retain() == 0 || |Redact(marker, t, r.secrets)| > r.Retain() {
      PushedSplits(marker, r, [], t);
      RedactMarks(marker, kept, r.secrets);
      MarkedEitherWay(marker, out, kept, last);
    } else {
      assert out + last == last;
    }
  }

  /** A secret that is part of the marker shows itself wherever it is redacted. */
  lemma PartOfMarkerLeaks(r: Redactor, s: Bytes)
    requires r.Valid() && s in r.secrets && Contains(MARKER, s)
    ensures !LeakFree(r, [s])
  {
    StreamedSecretMarks(MARKER, r, s);
    ContainsTransitive(Streamed(MARKER, r, [], [s]), MARKER, s);
  }

  /** When each secret either cannot touch a marker or is part of it, no stream ever leaks
      exactly when none is part of it. `Redactor::new` checks neither. */
  lemma StreamLeakFreeExactly(r: Redactor)
    requires r.Valid() && forall s :: s in r.secrets ==> NoClash(MARKER, s) || Contains(MARKER, s)
    ensures (forall chunks :: LeakFree(r, chunks)) <==> (forall s :: s in r.secrets ==> !Contains(MARKER, s))
  {
    if forall s :: s in r.secrets ==> !Contains(MARKER, s) {
      forall chunks ensures LeakFree(r, chunks) {
        NoClashNeverLeaks(r, chunks);
      }
    } else {
      var s :| s in r.secrets && Contains(MARKER, s);
      PartOfMarkerLeaks(r, s);
    }
  }

  /** All secrets without brackets are of that kind: there, none may be part of the word REDACTED. */
  lemma BracketFreeLeakFreeExactly(r: Redactor)
    requires r.Valid() && forall s :: s in r.secrets ==> BracketFree(s)
    ensures (forall chunks :: LeakFree(r, chunks)) <==> (forall s :: s in r.secrets ==> !Contains(WORD, s))
  {
    if forall s :: s in r.secrets ==> !Contains(WORD, s) {
      forall chunks ensures LeakFree(r, chunks) {
        StreamNeverLeaks(r, chunks);
      }
    } else {
      var s :| s in r.secrets && Contains(WORD, s);
      WordInMarker(s);
      PartOfMarkerLeaks(r, s);
    }
  }

  /** A secret that only overlaps a marker can leak although it is no part of it:
      "a[" when "aa[" is redacted. */
  lemma BracketedSecretLeaks()
    ensures var r := Redactor([[97, 91]], 2); r.Valid() && !Contains(MARKER, [97, 91]) && !LeakFree(r, [[97, 97, 91]])
  {
    var s: Bytes, text: Bytes := [97, 91], [97, 97, 91];
    forall p: nat ensures !OccursAt(s, MARKER, p) {
      if p + 2 <= |MARKER| {
        OccursAtElements(s, MARKER, p);
        assert MARKER[p + 0] != s[0];
      }
    }
    BracketedExample(s, text, Redactor([s], 2));
  }

  lemma BracketedExample(s: Bytes, text: Bytes, r: Redactor)
    requires s == [97, 91] && text == [97, 97, 91] && r == Redactor([s], 2)
    ensures r.Valid() && Contains(Streamed(MARKER, r, [], [text]), s)
  {
    BracketedPush(s, text, r);
    OneChunk(MARKER, r, text);
    var shown := Streamed(MARKER, r, [], [text]);
    assert shown[0..0 + |s|] == s;
    assert OccursAt(s, shown, 0);
  }

  lemma BracketedPush(s: Bytes, text: Bytes, r: Redactor)
    requires s == [97, 91] && text == [97, 97, 91] && r == Redactor([s], 2)
    ensures var out := Pushed(MARKER, r, [], text).0; |out| == 10 && out[0] == 97 && out[1] == 91
  {
    OccursAtElements(s, text, 0);
    assert text[0 + 1] != s[1] && text[1..1 + |s|] == s;
    FindIs(s, text, 1);
    FindSpec(s, [], 0);
    RedactSingle(MARKER, text, s);
    assert [] + text == text;
    var redacted := Redact(MARKER, text, r.secrets);
    assert redacted == [97] + MARKER + [];
    assert IsCharBoundary(redacted, 10);
  }

  lemma OneChunk(marker: Bytes, r: Redactor, chunk: Bytes)
    requires r.Valid()
    ensures var (out, kept) := Pushed(marker, r, [], chunk);
            Streamed(marker, r, [], [chunk]) == out + Redact(marker, kept, r.secrets)
  {
    assert [chunk][1..] == [];
    var (out, kept) := Pushed(marker, r, [], chunk);
    assert Streamed(marker, r, kept, []) == Redact(marker, kept, r.secrets);
  }

  // ----------------------------------------------------- building a redactor

  function WithoutEmpty(secrets: seq<Bytes>): (r: seq<Bytes>)
    ensures [] !in r && forall s :: s in r <==> s in secrets && s != []
  {
    if secrets == [] then []
    else (if secrets[0] == [] then [] else [secrets[0]]) + WithoutEmpty(secrets[1..])
  }

  function MaximumLength(secrets: seq<Bytes>): (n: nat)
    ensures forall s :: s in secrets ==> |s| <= n
    ensures secrets == [] ==> n == 0
    ensures secrets != [] ==> exists s :: s in secrets && |s| == n
  {
    if secrets == [] then 0
    else
      var rest := MaximumLength(secrets[1..]);
      if |secrets[0]| >= rest then |secrets[0]| else rest
  }

  /** `Redactor::new`. */
  function NewRedactor(secrets: seq<Bytes>): (r: Redactor)
    ensures r.Valid() && LongestFirst(r.secrets)
    ensures forall s :: s in r.secrets <==> s in secrets && s != []
    ensures r.secrets != [] ==> exists s :: s in secrets && |s| == r.maximum
  {
    var kept := Dedup(SortByLength(WithoutEmpty(secrets)));
    Redactor(kept, MaximumLength(kept))
  }

  lemma NewRedactorNeverLeaks(secrets: seq<Bytes>, chunks: seq<Bytes>)
    ensures (forall s :: s in secrets && s != [] ==> BracketFree(s) && !Contains(WORD, s)) ==>
            forall s :: s in secrets && s != [] ==> !Contains(Streamed(MARKER, NewRedactor(secrets), [], chunks), s)
  {
    if forall s :: s in secrets && s != [] ==> BracketFree(s) && !Contains(WORD, s) {
      StreamNeverLeaks(NewRedactor(secrets), chunks);
    }
  }

  // ------------------------------------------------------- the stateful stream

  class StreamingRedactor {
    const redactor: Redactor
    var pending: Bytes

    constructor (redactor: Redactor)
      ensures this.redactor == redactor && pending == []
    {
      this.redactor := redactor;
      pending := [];
    }

    method Push(chunk: Bytes) returns (emitted: Bytes)
      requires redactor.Valid()
      modifies this
      ensures (emitted, pending) == Pushed(MARKER, redactor, old(pending), chunk)
    {
      pending := pending + chunk;
      var redacted := Redact(MARKER, pending, redactor.secrets);
      var retain := redactor.Retain();
      if retain == 0 || |redacted| <= retain {
        if retain == 0 {
          pending := [];
          return redacted;
        }
        return [];
      }
      var split := |redacted| - retain;
      while split > 0 && !IsCharBoundary(redacted, split)
        invariant 0 <= split <= |redacted| - retain
        invariant BoundaryBelow(redacted, split) == BoundaryBelow(redacted, |redacted| - retain)
      {
        split := split - 1;
      }
      emitted := redacted[..split];
      pending := redacted[split..];
    }

    method Finish() returns (last: Bytes)
      requires redactor.Valid()
      modifies this
      ensures last == Redact(MARKER, old(pending), redactor.secrets) && pending == []
    {
      last := Redact(MARKER, pending, redactor.secrets);
      pending := [];
    }
  }

  lemma StreamedStep(marker: Bytes, r: Redactor, out: Bytes, pending: Bytes, chunks: seq<Bytes>, i: nat)
    requires r.Valid() && i < |chunks|
    ensures var (emitted, kept) := Pushed(marker, r, pending, chunks[i]);
            out + Streamed(marker, r, pending, chunks[i..]) == out + emitted + Streamed(marker, r, kept, chunks[i + 1..])
  {
    var (emitted, kept) := Pushed(marker, r, pending, chunks[i]);
    assert chunks[i..][1..] == chunks[i + 1..];
    Associates(out, emitted, Streamed(marker, r, kept, chunks[i + 1..]));
  }

  /** Pushing every chunk of an input and finishing, as a caller of the stream does. */
  method StreamAll(r: Redactor, chunks: seq<Bytes>) returns (out: Bytes)
    requires r.Valid()
    ensures out == Streamed(MARKER, r, [], chunks)
  {
    var stream := new StreamingRedactor(r);
    out := [];
    for i := 0 to |chunks|
      invariant stream.redactor == r
      invariant out + Streamed(MARKER, r, stream.pending, chunks[i..]) == Streamed(MARKER, r, [], chunks)
    {
      StreamedStep(MARKER, r, out, stream.pending, chunks, i);
      var emitted := stream.Push(chunks[i]);
      out := out + emitted;
    }
    ghost var kept := stream.pending;
    assert Streamed(MARKER, r, kept, chunks[|chunks|..]) == Redact(MARKER, kept, r.secrets);
    var last := stream.Finish();
    out := out + last;
  }
}
