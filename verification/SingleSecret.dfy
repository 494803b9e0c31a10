/** Exactly when a chunked redactor with one secret can show it, brackets or not. */
module SingleSecret {
  import opened Base
  import opened Occurrences
  import opened StreamingRedaction

  // ------------------------------------------------------------- a safe secret

  ghost predicate FirstOnly(before: Bytes, t: Bytes) {
    forall q: nat :: q < |before| ==> !OccursAt(t, before + t, q)
  }

  lemma FirstOnlyFound(text: Bytes, t: Bytes, i: nat)
    requires Find(t, text, 0) == Some(i)
    ensures FirstOnly(text[..i], t)
  {
    FindSpec(t, text, 0);
    assert text[..i] + t == text[..i + |t|];
    forall q: nat | q < i ensures !OccursAt(t, text[..i] + t, q) {
      OccursInTake(t, text, i + |t|, q);
    }
  }

  lemma NotBefore(before: Bytes, t: Bytes, p: nat)
    requires t != [] && FirstOnly(before, t)
    ensures !OccursAt(t, before, p)
  {
    if p + |t| <= |before| {
      OccursInPrefix(t, before, t, p);
    }
  }

  lemma {:induction false} SafeReplaceClean(marker: Bytes, text: Bytes, t: Bytes, p: nat)
    requires Safe(marker, t)
    ensures !OccursAt(t, Replace(marker, text, t), p)
    decreases |text|
  {
    FindSpec(t, text, 0);
    if Find(t, text, 0).Some? {
      var i := Find(t, text, 0).value;
      var tail := text[i + |t|..];
      FirstOnlyFound(text, t, i);
      NotBefore(text[..i], t, p);
      SafeAroundMarker(marker, text[..i], Replace(marker, tail, t), t, p);
      if i + |marker| <= p {
        SafeReplaceClean(marker, tail, t, p - i - |marker|);
      }
    }
  }

  /** No secret starts in what was emitted. */
  ghost predicate NotEmitted(emitted: Bytes, pending: Bytes, t: Bytes) {
    forall p: nat :: p < |emitted| ==> !OccursAt(t, emitted + pending, p)
  }

  lemma FirstOnlyAcross(emitted: Bytes, pending: Bytes, t: Bytes, i: nat)
    requires NotEmitted(emitted, pending, t) && Find(t, pending, 0) == Some(i)
    ensures FirstOnly(emitted + pending[..i], t)
  {
    var before, whole := emitted + pending[..i], emitted + pending;
    FindSpec(t, pending, 0);
    assert pending[i..i + |t|] == t;
    assert before + t == whole[..|before| + |t|];
    forall q: nat | q < |before| ensures !OccursAt(t, before + t, q) {
      OccursInTake(t, whole, |before| + |t|, q);
      if |emitted| <= q {
        OccursInSuffix(t, emitted, pending, q);
      }
    }
  }

  /** Appending the redaction of the pending text to what was emitted shows no secret. */
  lemma SafeShown(marker: Bytes, emitted: Bytes, pending: Bytes, t: Bytes, p: nat)
    requires Safe(marker, t) && NotEmitted(emitted, pending, t)
    ensures !OccursAt(t, emitted + Replace(marker, pending, t), p)
  {
    FindSpec(t, pending, 0);
    match Find(t, pending, 0)
    case None =>
      if |emitted| <= p {
        OccursInSuffix(t, emitted, pending, p);
      }
    case Some(i) =>
      var before, rest := emitted + pending[..i], Replace(marker, pending[i + |t|..], t);
      FirstOnlyAcross(emitted, pending, t, i);
      NotBefore(before, t, p);
      SafeAroundMarker(marker, before, rest, t, p);
      Glue(emitted, pending[..i], marker, rest);
      if |before| + |marker| <= p {
        SafeReplaceClean(marker, pending[i + |t|..], t, p - |before| - |marker|);
      }
  }

  ghost function One(t: Bytes): (r: Redactor)
    requires t != []
    ensures r.Valid()
  {
    Redactor([t], |t|)
  }

  /** Whatever is cut off a redacted text, the rest still waits unharmed. */
  lemma SafeCut(marker: Bytes, t: Bytes, emitted: Bytes, text: Bytes, out: Bytes, kept: Bytes)
    requires Safe(marker, t) && NotEmitted(emitted, text, t) && out + kept == Replace(marker, text, t)
    ensures NotEmitted(emitted + out, kept, t)
  {
    Associates(emitted, out, kept);
    forall p: nat ensures !OccursAt(t, emitted + Replace(marker, text, t), p) {
      SafeShown(marker, emitted, text, t, p);
    }
  }

  lemma PushedParts(marker: Bytes, t: Bytes, pending: Bytes, chunk: Bytes)
    requires t != []
    ensures var (out, kept) := Pushed(marker, One(t), pending, chunk);
            || (out == [] && kept == pending + chunk)
            || (out + kept == Replace(marker, pending + chunk, t) && |kept| >= |t| - 1)
  {
    RedactSingle(marker, pending + chunk, t);
  }

  lemma OneGuarded(t: Bytes, emitted: Bytes, pending: Bytes)
    requires t != []
    ensures Guarded(One(t), emitted, pending)
       <==> (emitted == [] || |pending| >= |t| - 1) && NotEmitted(emitted, pending, t)
  {
    assert t in One(t).secrets;
  }

  /** Every `push` keeps the streaming invariant. */
  lemma SafePush(marker: Bytes, t: Bytes, emitted: Bytes, pending: Bytes, chunk: Bytes)
    requires Safe(marker, t) && Guarded(One(t), emitted, pending)
    ensures var (out, kept) := Pushed(marker, One(t), pending, chunk); Guarded(One(t), emitted + out, kept)
  {
    var text := pending + chunk;
    var (out, kept) := Pushed(marker, One(t), pending, chunk);
    GuardedExtends(One(t), emitted, pending, chunk);
    OneGuarded(t, emitted, text);
    OneGuarded(t, emitted + out, kept);
    PushedParts(marker, t, pending, chunk);
    if out == [] && kept == text {
      assert emitted + [] == emitted;
    } else {
      SafeCut(marker, t, emitted, text, out, kept);
    }
  }

  lemma {:induction false} SafeStreamed(marker: Bytes, t: Bytes, emitted: Bytes, pending: Bytes, chunks: seq<Bytes>, p: nat)
    requires Safe(marker, t) && Guarded(One(t), emitted, pending)
    ensures !OccursAt(t, emitted + Streamed(marker, One(t), pending, chunks), p)
    decreases |chunks|
  {
    var r := One(t);
    if chunks == [] {
      RedactSingle(marker, pending, t);
      OneGuarded(t, emitted, pending);
      SafeShown(marker, emitted, pending, t, p);
    } else {
      var (out, kept) := Pushed(marker, r, pending, chunks[0]);
      SafePush(marker, t, emitted, pending, chunks[0]);
      SafeStreamed(marker, t, emitted + out, kept, chunks[1..], p);
      Associates(emitted, out, Streamed(marker, r, kept, chunks[1..]));
    }
  }

  // ------------------------------------------------------------- an unsafe one

  /** A run of one plain character. */
  function Run(x: byte, n: nat): (r: Bytes)
    ensures |r| == n && forall i :: 0 <= i < n ==> r[i] == x
  {
    seq(n, _ => x)
  }

  lemma ContainsLonger(front: Bytes, text: Bytes, t: Bytes)
    requires Contains(front, t) && front <= text
    ensures Contains(text, t)
  {
    var i: nat :| OccursAt(t, front, i);
    OccursInTake(t, text, |front|, i);
  }

  lemma FrontEmitted(marker: Bytes, t: Bytes, text: Bytes, front: Bytes, x: byte)
    requires |t| > 1 && x < 128 && Replace(marker, text, t) == front + Run(x, |t|)
    ensures front <= Pushed(marker, One(t), [], text).0
  {
    RedactSingle(marker, text, t);
    assert [] + text == text;
    assert IsCharBoundary(front + Run(x, |t|), |front| + 1);
  }

  /** What stands well before the end of a redacted text is emitted by the first push. */
  lemma FrontShown(marker: Bytes, t: Bytes, text: Bytes, front: Bytes, x: byte)
    requires |t| > 1 && x < 128 && Replace(marker, text, t) == front + Run(x, |t|) && Contains(front, t)
    ensures Contains(Streamed(marker, One(t), [], [text]), t)
  {
    FrontEmitted(marker, t, text, front, x);
    OneChunk(marker, One(t), text);
    ContainsLonger(front, Streamed(marker, One(t), [], [text]), t);
  }

  /** A text shorter than a secret, then a run of a byte the secret does not end with. */
  lemma FilledTail(b: Bytes, t: Bytes, x: byte)
    requires |b| < |t| && x != t[|t| - 1]
    ensures Find(t, b + Run(x, |t|), 0) == None
  {
    var tail := b + Run(x, |t|);
    forall p: nat ensures !OccursAt(t, tail, p) {
      if p + |t| <= |tail| {
        OccursAtElements(t, tail, p);
        assert tail[p + (|t| - 1)] == x;
      }
    }
    FindSpec(t, tail, 0);
  }

  lemma ReplacedOnce(marker: Bytes, before: Bytes, t: Bytes, tail: Bytes)
    requires t != [] && Find(t, before + t + tail, 0) == Some(|before|) && Find(t, tail, 0) == None
    ensures Replace(marker, before + t + tail, t) == before + marker + tail
  {
    var text := before + t + tail;
    assert text[..|before|] == before && text[|before| + |t|..] == tail;
  }

  /** A text with the secret in it, whose redaction shows the secret. */
  lemma Shows(marker: Bytes, before: Bytes, t: Bytes, b: Bytes, x: byte)
    requires |t| > 1 && |b| < |t| && x < 128 && x != t[|t| - 1] && Contains(before + marker + b, t)
    requires Find(t, before + t + (b + Run(x, |t|)), 0) == Some(|before|)
    ensures Contains(Streamed(marker, One(t), [], [before + t + (b + Run(x, |t|))]), t)
  {
    var fill := Run(x, |t|);
    FilledTail(b, t, x);
    ReplacedOnce(marker, before, t, b + fill);
    Associates(before + marker, b, fill);
    FrontShown(marker, t, before + t + (b + fill), before + marker + b, x);
  }

  lemma BeginsAfterShown(marker: Bytes, t: Bytes, j: nat)
    requires BeginsAfter(marker, t, j)
    ensures Contains([] + marker + t[j..], t)
  {
    var front := [] + marker + t[j..];
    assert front[|marker| - j..|marker| - j + |t|] == marker[|marker| - j..] + t[j..] == t;
    assert OccursAt(t, front, |marker| - j);
  }

  lemma FoundAtStart(t: Bytes, tail: Bytes)
    ensures Find(t, [] + t + tail, 0) == Some(0)
  {
    assert ([] + t + tail)[0..0 + |t|] == t;
    FindIs(t, [] + t + tail, 0);
  }

  lemma BeginsAfterLeaks(marker: Bytes, t: Bytes, j: nat, x: byte)
    requires BeginsAfter(marker, t, j) && x < 128 && x != t[|t| - 1]
    ensures Contains(Streamed(marker, One(t), [], [[] + t + (t[j..] + Run(x, |t|))]), t)
  {
    FoundAtStart(t, t[j..] + Run(x, |t|));
    BeginsAfterShown(marker, t, j);
    Shows(marker, [], t, t[j..], x);
  }

  lemma EndsBeforeLeaks(marker: Bytes, t: Bytes, k: nat, x: byte)
    requires EndsBeforeMarker(marker, t, k) && x < 128 && x != t[|t| - 1]
    ensures Contains(Streamed(marker, One(t), [], [t[..k] + t + ([] + Run(x, |t|))]), t)
  {
    var tail, start := [] + Run(x, |t|), t[..k];
    var text, front := start + t + tail, start + marker + [];
    forall p: nat | p < k ensures !OccursAt(t, text, p) {
      OccursInPrefix(t, start + t, tail, p);
    }
    assert text[k..k + |t|] == t;
    FindIs(t, text, k);
    assert front[0..0 + |t|] == start + t[k..] == t;
    assert OccursAt(t, front, 0);
    Shows(marker, start, t, [], x);
  }

  /** The first byte of a marker appears in it once, so two markers never overlap. */
  ghost predicate StartsOnce(marker: Bytes) {
    marker != [] && forall k :: 0 < k < |marker| ==> marker[k] != marker[0]
  }

  lemma MarkersApart(marker: Bytes, w: Bytes, p: nat, q: nat)
    requires StartsOnce(marker) && OccursAt(marker, w, p) && p < q < p + |marker|
    ensures !OccursAt(marker, w, q)
  {
    OccursAtElements(marker, w, p);
    assert w[p + (q - p)] == marker[q - p];
    if q + |marker| <= |w| {
      OccursAtElements(marker, w, q);
      assert w[q + 0] != marker[0];
    }
  }

  lemma EarlierMarker(marker: Bytes, t: Bytes, i: nat, fill: Bytes, text: Bytes, q: nat)
    requires StartsOnce(marker) && IsFirst(marker, t, 0, i) && text == t[..i] + (t + fill)
    requires OccursAt(marker, text, i + i) && q < i
    ensures !OccursAt(t, text, q)
  {
    if OccursAt(t, text, q) {
      OccursInside(marker, t, text, i, q);
      if i < q + |marker| {
        MarkersApart(marker, text, q + i, i + i);
      }
      OccursInSuffix(marker, t[..i], t + fill, q + i);
      OccursInPrefix(marker, t, fill, q);
    }
  }

  /** A secret around its first marker, put between its own two sides, is found there first. */
  lemma FoundBetweenSides(marker: Bytes, t: Bytes, i: nat, fill: Bytes)
    requires StartsOnce(marker) && Find(marker, t, 0) == Some(i)
    ensures Find(t, t[..i] + t + fill, 0) == Some(i)
  {
    var a := t[..i];
    var text := a + t + fill;
    FindSpec(marker, t, 0);
    assert text[i..i + |t|] == t;
    assert text == a + (t + fill);
    OccursInPrefix(marker, t, fill, i);
    OccursInSuffix(marker, a, t + fill, i + i);
    forall q: nat | q < i ensures !OccursAt(t, text, q) {
      EarlierMarker(marker, t, i, fill, text, q);
    }
    FindIs(t, text, i);
  }

  lemma HoldsMarkerLeaks(marker: Bytes, a: Bytes, b: Bytes, t: Bytes, x: byte)
    requires StartsOnce(marker) && |t| > 1 && x < 128 && x != t[|t| - 1]
    requires t == a + marker + b && Find(marker, t, 0) == Some(|a|)
    ensures Contains(Streamed(marker, One(t), [], [a + t + (b + Run(x, |t|))]), t)
  {
    assert t[..|a|] == a;
    assert t[0..0 + |t|] == t;
    assert OccursAt(t, t, 0);
    FoundBetweenSides(marker, t, |a|, b + Run(x, |t|));
    Shows(marker, a, t, b, x);
  }

  // ----------------------------------------------------------------- exactly when

  /** A text whose stream shows an exposed secret. */
  lemma ExposedLeaks(marker: Bytes, t: Bytes) returns (text: Bytes)
    requires Exposed(marker, t)
    ensures Contains(Streamed(marker, One(t), [], [text]), t)
  {
    var x: byte := if t[|t| - 1] == 97 then 98 else 97;
    if j: nat :| BeginsAfter(marker, t, j) {
      BeginsAfterLeaks(marker, t, j, x);
      text := [] + t + (t[j..] + Run(x, |t|));
    } else {
      var k: nat :| EndsBeforeMarker(marker, t, k);
      EndsBeforeLeaks(marker, t, k, x);
      text := t[..k] + t + ([] + Run(x, |t|));
    }
  }

  lemma MarkedLeaks(marker: Bytes, t: Bytes) returns (text: Bytes)
    requires StartsOnce(marker) && |t| > 1 && Contains(t, marker)
    ensures Contains(Streamed(marker, One(t), [], [text]), t)
  {
    FindSpec(marker, t, 0);
    var i := Find(marker, t, 0).value;
    var x: byte := if t[|t| - 1] == 97 then 98 else 97;
    var a, b := t[..i], t[i + |marker|..];
    assert t == a + marker + b;
    HoldsMarkerLeaks(marker, a, b, t, x);
    text := a + t + (b + Run(x, |t|));
  }

  /** One secret is never shown by any stream exactly when it neither holds a whole marker
      nor is part of one, does not begin with the end of one, and does not end with the
      beginning of one unless it is found earlier there. */
  lemma SingleLeakFreeExactly(t: Bytes)
    requires t != []
    ensures (forall chunks :: LeakFree(One(t), chunks)) <==> Safe(MARKER, t)
  {
    var r := One(t);
    assert t in r.secrets;
    if Safe(MARKER, t) {
      forall chunks ensures LeakFree(r, chunks) {
        SafeLeakFree(t, chunks);
      }
    } else if Contains(MARKER, t) {
      PartOfMarkerLeaks(r, t);
    } else if Contains(t, MARKER) {
      var text := MarkedLeaks(MARKER, t);
      assert !LeakFree(r, [text]);
    } else {
      var text := ExposedLeaks(MARKER, t);
      assert !LeakFree(r, [text]);
    }
  }

  lemma SafeLeakFree(t: Bytes, chunks: seq<Bytes>)
    requires Safe(MARKER, t)
    ensures LeakFree(One(t), chunks)
  {
    var shown := Streamed(MARKER, One(t), [], chunks);
    forall p: nat ensures !OccursAt(t, shown, p) {
      SafeStreamed(MARKER, t, [], [], chunks, p);
      assert [] + shown == shown;
    }
  }

  /** Overlapping a marker does not decide it: of the secrets "a[" and "[[", which both do,
      only the first can be shown. */
  lemma OverlapDoesNotDecide()
    ensures !Safe(MARKER, [97, 91]) && Safe(MARKER, [91, 91])
    ensures !NoClash(MARKER, [97, 91]) && !NoClash(MARKER, [91, 91])
  {
    var a: Bytes, b: Bytes := [97, 91], [91, 91];
    assert Agrees(MARKER, a, -1) && Agrees(MARKER, b, -1);
    assert a[1..] <= MARKER;
    OccursAtElements(a, a[..1] + a, 0);
    assert (a[..1] + a)[0 + 1] != a[1];
    assert EndsBeforeMarker(MARKER, a, 1);
    DoubleBracketSafe(b);
  }

  lemma DoubleBracketSafe(b: Bytes)
    requires b == [91, 91]
    ensures Safe(MARKER, b)
  {
    forall p: nat ensures !OccursAt(b, MARKER, p) {
      if p + 2 <= |MARKER| {
        OccursAtElements(b, MARKER, p);
        assert MARKER[p + 1] != b[1];
      }
    }
    forall j: nat ensures !BeginsAfter(MARKER, b, j) {
      if j == 1 {
        assert MARKER[|MARKER| - 1..][0] != b[..1][0];
      }
    }
    forall k: nat ensures !EndsBeforeMarker(MARKER, b, k) {
      if k == 1 {
        assert (b[..1] + b)[0..0 + |b|] == b;
        assert OccursAt(b, b[..1] + b, 0);
      }
    }
  }
}
