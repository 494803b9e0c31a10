/** Redaction of texts: every piece a stream emits is valid UTF-8, and what it holds back
    stays bounded. */
module TextStreams {
  import opened Base
  import opened Occurrences
  import opened StreamingRedaction
  import opened Utf8

  ghost predicate AllText(parts: seq<Bytes>) {
    forall part :: part in parts ==> ValidUtf8(part)
  }

  /** In a valid text, the boundaries are exactly the places where both sides are texts. */
  lemma BoundariesExactly(text: Bytes, k: nat)
    requires ValidUtf8(text) && k <= |text|
    ensures IsCharBoundary(text, k) <==> ValidUtf8(text[..k])
    ensures IsCharBoundary(text, k) <==> ValidUtf8(text[k..])
  {
    CutsBetweenChars(text, k);
    if k == 0 {
      assert text[0..] == text && text[..0] == [];
    }
  }

  /** A text occurs in a text only between whole characters. */
  lemma OccursBetweenChars(s: Bytes, text: Bytes, i: nat)
    requires ValidUtf8(text) && ValidUtf8(s) && s != [] && OccursAt(s, text, i)
    ensures ValidUtf8(text[..i]) && ValidUtf8(text[i + |s|..])
  {
    assert text[i] == text[i..i + |s|][0] == s[0];
    FirstByte(s);
    CutsBetweenChars(text, i);
    var rest := text[i + |s|..];
    assert text[i..] == s + rest;
    ValidConcat(s, rest);
  }

  lemma {:induction false} ReplaceIsText(marker: Bytes, text: Bytes, s: Bytes)
    requires ValidUtf8(marker) && ValidUtf8(text) && ValidUtf8(s) && s != []
    ensures ValidUtf8(Replace(marker, text, s))
    decreases |text|
  {
    FindSpec(s, text, 0);
    match Find(s, text, 0)
    case None =>
    case Some(i) =>
      var tail := text[i + |s|..];
      OccursBetweenChars(s, text, i);
      ReplaceIsText(marker, tail, s);
      ThreeTexts(text[..i], marker, Replace(marker, tail, s));
  }

  lemma ThreeTexts(a: Bytes, b: Bytes, c: Bytes)
    requires ValidUtf8(a) && ValidUtf8(b) && ValidUtf8(c)
    ensures ValidUtf8(a + b + c)
  {
    ValidConcat(a, b);
    ValidConcat(a + b, c);
  }

  lemma {:induction false} RedactIsText(marker: Bytes, text: Bytes, secrets: seq<Bytes>)
    requires ValidUtf8(marker) && ValidUtf8(text) && [] !in secrets && AllText(secrets)
    ensures ValidUtf8(Redact(marker, text, secrets))
    decreases |secrets|
  {
    if secrets != [] {
      ReplaceIsText(marker, text, secrets[0]);
      RedactIsText(marker, Replace(marker, text, secrets[0]), secrets[1..]);
    }
  }

  /** Both what a push emits and what it keeps are texts. */
  lemma PushedIsText(marker: Bytes, r: Redactor, pending: Bytes, chunk: Bytes)
    requires r.Valid() && ValidUtf8(marker) && AllText(r.secrets) && ValidUtf8(pending) && ValidUtf8(chunk)
    ensures var (out, kept) := Pushed(marker, r, pending, chunk); ValidUtf8(out) && ValidUtf8(kept)
  {
    ValidConcat(pending, chunk);
    var redacted := Redact(marker, pending + chunk, r.secrets);
    RedactIsText(marker, pending + chunk, r.secrets);
    if r.Retain() > 0 && |redacted| > r.Retain() {
      BoundariesExactly(redacted, BoundaryBelow(redacted, |redacted| - r.Retain()));
    }
  }

  /** What each push and the final call emit, one by one. */
  function Emissions(marker: Bytes, r: Redactor, pending: Bytes, chunks: seq<Bytes>): (parts: seq<Bytes>)
    requires r.Valid()
    ensures |parts| == |chunks| + 1
    decreases |chunks|
  {
    if chunks == [] then [Redact(marker, pending, r.secrets)]
    else
      var (emitted, kept) := Pushed(marker, r, pending, chunks[0]);
      [emitted] + Emissions(marker, r, kept, chunks[1..])
  }

  lemma {:induction false} EmissionsJoin(marker: Bytes, r: Redactor, pending: Bytes, chunks: seq<Bytes>)
    requires r.Valid()
    ensures Joined(Emissions(marker, r, pending, chunks)) == Streamed(marker, r, pending, chunks)
    decreases |chunks|
  {
    if chunks == [] {
      var only := [Redact(marker, pending, r.secrets)];
      assert only[1..] == [] && Joined(only) == only[0] + [];
    } else {
      var (emitted, kept) := Pushed(marker, r, pending, chunks[0]);
      EmissionsJoin(marker, r, kept, chunks[1..]);
      var rest := Emissions(marker, r, kept, chunks[1..]);
      assert ([emitted] + rest)[1..] == rest;
    }
  }

  lemma {:induction false} EmissionsAreText(marker: Bytes, r: Redactor, pending: Bytes, chunks: seq<Bytes>)
    requires r.Valid() && ValidUtf8(marker) && AllText(r.secrets) && ValidUtf8(pending) && AllText(chunks)
    ensures AllText(Emissions(marker, r, pending, chunks))
    decreases |chunks|
  {
    if chunks == [] {
      RedactIsText(marker, pending, r.secrets);
    } else {
      var (emitted, kept) := Pushed(marker, r, pending, chunks[0]);
      PushedIsText(marker, r, pending, chunks[0]);
      EmissionsAreText(marker, r, kept, chunks[1..]);
    }
  }

  lemma MarkerIsText()
    ensures ValidUtf8(MARKER) && MARKER == Encode("[REDACTED]")
  {
    EncodeAscii("[REDACTED]");
    assert Encode("[REDACTED]") == MARKER;
    DecodeEncoded("[REDACTED]");
  }

  /** Of texts as chunks and texts as secrets, every single emission of every stream is a
      text, and together they are the stream. */
  lemma StreamsEmitText(r: Redactor, chunks: seq<Bytes>)
    requires r.Valid() && AllText(r.secrets) && AllText(chunks)
    ensures AllText(Emissions(MARKER, r, [], chunks))
    ensures Joined(Emissions(MARKER, r, [], chunks)) == Streamed(MARKER, r, [], chunks)
  {
    MarkerIsText();
    EmissionsAreText(MARKER, r, [], chunks);
    EmissionsJoin(MARKER, r, [], chunks);
  }

  // -------------------------------------------------------------- what is held back

  /** Of four bytes in a row of a text, one starts a character. */
  lemma {:induction false} BoundaryNear(text: Bytes, k: nat)
    requires ValidUtf8(text) && k <= |text|
    ensures exists i: nat :: i <= k < i + 4 && IsCharBoundary(text, i)
    decreases |text|
  {
    if text == [] || k == 0 {
      assert IsCharBoundary(text, 0);
    } else {
      var n := DecodeChar(text).value.1;
      if k < n {
        assert IsCharBoundary(text, 0);
      } else {
        BoundaryNear(text[n..], k - n);
        var i: nat :| i <= k - n < i + 4 && IsCharBoundary(text[n..], i);
        CutsBetweenChars(text, n + i);
        CutAfterChar(text, n, n + i);
        assert IsCharBoundary(text, n + i);
      }
    }
  }

  lemma SplitNear(text: Bytes, at: nat)
    requires ValidUtf8(text) && at <= |text|
    ensures BoundaryBelow(text, at) + 3 >= at
  {
    BoundaryNear(text, at);
  }

  /** After a push no more is held back than the longest secret needs, and at most three
      bytes of a character; or the redaction of what is held back is that short. */
  lemma HeldBackBounded(marker: Bytes, r: Redactor, pending: Bytes, chunk: Bytes)
    requires r.Valid() && ValidUtf8(marker) && AllText(r.secrets) && ValidUtf8(pending) && ValidUtf8(chunk)
    ensures var kept := Pushed(marker, r, pending, chunk).1;
            |kept| <= r.Retain() + 3 || |Redact(marker, kept, r.secrets)| <= r.Retain()
  {
    ValidConcat(pending, chunk);
    var redacted := Redact(marker, pending + chunk, r.secrets);
    RedactIsText(marker, pending + chunk, r.secrets);
    if |redacted| > r.Retain() {
      SplitNear(redacted, |redacted| - r.Retain());
    }
  }

  // ------------------------------------------------------------- building a redactor

  /** A redactor takes every secret that is not empty, longest first, without repeated
      neighbours, and remembers the length of the longest. */
  lemma NewRedactorExactly(secrets: seq<Bytes>, i: nat, j: nat)
    ensures var r := NewRedactor(secrets);
            && (i < j < |r.secrets| ==> |r.secrets[i]| >= |r.secrets[j]|)
            && (j == i + 1 < |r.secrets| ==> r.secrets[i] != r.secrets[j])
            && (forall s :: s in r.secrets <==> s in secrets && s != [])
            && (r.secrets != [] ==> |r.secrets[0]| == r.maximum) && (r.secrets == [] ==> r.maximum == 0)
  {
    DedupApart(SortByLength(WithoutEmpty(secrets)));
    var r := NewRedactor(secrets);
    if i < j < |r.secrets| {
      LongerBefore(r.secrets, i, j);
    }
    if r.secrets != [] {
      LongestIsFirst(r.secrets, r.maximum);
    }
  }

  lemma LongestIsFirst(secrets: seq<Bytes>, maximum: nat)
    requires LongestFirst(secrets) && (forall s :: s in secrets ==> |s| <= maximum)
    requires exists s :: s in secrets && |s| == maximum
    ensures secrets != [] && |secrets[0]| == maximum
  {
    var s :| s in secrets && |s| == maximum;
    var k :| 0 <= k < |secrets| && secrets[k] == s;
    if k > 0 {
      LongerBefore(secrets, 0, k);
    }
  }

  lemma {:induction false} LongerBefore(secrets: seq<Bytes>, i: nat, j: nat)
    requires LongestFirst(secrets) && i < j < |secrets|
    ensures |secrets[i]| >= |secrets[j]|
    decreases i
  {
    if i == 0 {
      assert secrets[j] == secrets[1..][j - 1];
    } else {
      LongerBefore(secrets[1..], i - 1, j - 1);
    }
  }
}
