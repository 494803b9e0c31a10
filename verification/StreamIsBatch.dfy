/** Exactly when a chunked redaction shows the same as redacting the whole input. */
module StreamIsBatch {
  import opened Base
  import opened Occurrences
  import opened StreamingRedaction

  // ------------------------------------------------------------- around a marker

  /** A pass works on the two sides of a marker separately. */
  lemma {:induction false} ReplaceAround(marker: Bytes, a: Bytes, b: Bytes, s: Bytes)
    requires NoClash(marker, s)
    ensures Replace(marker, a + marker + b, s) == Replace(marker, a, s) + marker + Replace(marker, b, s)
    decreases |a|
  {
    FindSpec(s, a, 0);
    match Find(s, a, 0)
    case None =>
      forall p: nat | p < |a + marker| ensures !OccursAt(s, a + marker + b, p) {
        OccurrencesAroundMarker(marker, a, b, s, p);
      }
      ReplaceSkipsPrefix(marker, a + marker, b, s);
    case Some(i) =>
      var tail := a[i + |s|..];
      ReplaceExtended(marker, a, marker + b, s);
      ReplaceAround(marker, tail, b, s);
      Associates(a, marker, b);
      Associates(tail, marker, b);
      var done := Replace(marker, tail, s);
      Regroup(a[..i] + marker, done, marker, Replace(marker, b, s));
  }

  lemma Regroup(a: Bytes, b: Bytes, c: Bytes, d: Bytes)
    ensures a + (b + c + d) == a + b + c + d
  {
  }

  lemma {:induction false} RedactAround(marker: Bytes, a: Bytes, b: Bytes, secrets: seq<Bytes>)
    requires [] !in secrets && AllNoClash(marker, secrets)
    ensures Redact(marker, a + marker + b, secrets) == Redact(marker, a, secrets) + marker + Redact(marker, b, secrets)
    decreases |secrets|
  {
    if secrets != [] {
      var s := secrets[0];
      ReplaceAround(marker, a, b, s);
      RedactAround(marker, Replace(marker, a, s), Replace(marker, b, s), secrets[1..]);
    }
  }

  lemma {:induction false} RedactCleanText(marker: Bytes, text: Bytes, secrets: seq<Bytes>)
    requires [] !in secrets && Clean(text, secrets)
    ensures Redact(marker, text, secrets) == text
    decreases |secrets|
  {
    if secrets != [] {
      assert !Contains(text, secrets[0]);
      FindSpec(secrets[0], text, 0);
      RedactCleanText(marker, text, secrets[1..]);
    }
  }

  lemma RedactEmpty(marker: Bytes, secrets: seq<Bytes>)
    requires [] !in secrets
    ensures Redact(marker, [], secrets) == []
  {
    forall s, p: nat | s in secrets ensures !OccursAt(s, [], p) {
      assert s != [];
    }
    RedactCleanText(marker, [], secrets);
  }

  lemma ReplaceAtFront(marker: Bytes, s: Bytes, rest: Bytes)
    requires s != []
    ensures Replace(marker, s + rest, s) == marker + Replace(marker, rest, s)
  {
    assert OccursAt(s, s + rest, 0);
    FindIs(s, s + rest, 0);
    assert (s + rest)[0 + |s|..] == rest && (s + rest)[..0] == [];
  }

  // ---------------------------------------------------------------- cutting a text

  /** A prefix in which no secret starts passes through every pass. */
  lemma {:induction false} RedactSkipsPrefix(marker: Bytes, x: Bytes, y: Bytes, secrets: seq<Bytes>)
    requires [] !in secrets && AllNoClash(marker, secrets)
    requires forall s, p: nat :: s in secrets && p < |x| ==> !OccursAt(s, x + y, p)
    ensures Redact(marker, x + y, secrets) == x + Redact(marker, y, secrets)
    decreases |secrets|
  {
    if secrets != [] {
      var s := secrets[0];
      ReplaceSkipsPrefix(marker, x, y, s);
      forall t, p: nat | t in secrets[1..] && p < |x| ensures !OccursAt(t, x + Replace(marker, y, s), p) {
        ReplaceCreatesNoneAcross(marker, x, y, s, t, p);
      }
      RedactSkipsPrefix(marker, x, Replace(marker, y, s), secrets[1..]);
    }
  }

  /** Redacted text can be cut anywhere but in its last bytes, one fewer than any secret has. */
  lemma RedactAfterCut(marker: Bytes, clean: Bytes, rest: Bytes, secrets: seq<Bytes>, split: nat)
    requires [] !in secrets && AllNoClash(marker, secrets) && Clean(clean, secrets) && split <= |clean|
    requires forall s :: s in secrets ==> split + |s| <= |clean| + 1
    ensures clean[..split] + Redact(marker, clean[split..] + rest, secrets) == Redact(marker, clean + rest, secrets)
  {
    var x, y := clean[..split], clean[split..] + rest;
    assert x + y == clean + rest;
    forall s, p: nat | s in secrets && p < |x| ensures !OccursAt(s, x + y, p) {
      OccursInPrefix(s, clean, rest, p);
      assert !Contains(clean, s);
    }
    RedactSkipsPrefix(marker, x, y, secrets);
  }

  // ------------------------------------------------------------ redacting early

  lemma InTail(a: Bytes, n: nat, z: Bytes, s: Bytes, q: nat)
    requires n <= |a|
    ensures OccursAt(s, a[n..] + z, q) <==> OccursAt(s, a + z, n + q)
  {
    assert a + z == a[..n] + (a[n..] + z);
    OccursInSuffix(s, a[..n], a[n..] + z, n + q);
  }

  /** The occurrences around the first marker of a pass come from the text itself. */
  lemma AroundPass(marker: Bytes, a: Bytes, i: nat, rest: Bytes, z: Bytes, s: Bytes, p: nat)
    requires NoClash(marker, s) && i <= |a|
    ensures OccursAt(s, a[..i] + marker + rest + z, p) ==>
              || (p + |s| <= i && OccursAt(s, a + z, p))
              || (i + |marker| <= p && OccursAt(s, rest + z, p - i - |marker|))
  {
    Associates(a[..i] + marker, rest, z);
    OccurrencesAroundMarker(marker, a[..i], rest + z, s, p);
    if p + |s| <= i {
      OccursInTake(s, a, i, p);
      OccursInPrefix(s, a, z, p);
    }
  }

  /** Where no secret starts, none starts once the text before is redacted. */
  lemma {:induction false} ReplaceKeepsStarts(marker: Bytes, a: Bytes, z: Bytes, needle: Bytes, s: Bytes, p: nat)
    requires needle != [] && NoClash(marker, s) && p < |Replace(marker, a, needle)|
    requires forall q: nat :: q < |a| ==> !OccursAt(s, a + z, q)
    ensures !OccursAt(s, Replace(marker, a, needle) + z, p)
    decreases |a|
  {
    if Find(needle, a, 0).Some? {
      var i := Find(needle, a, 0).value;
      var tail := a[i + |needle|..];
      AroundPass(marker, a, i, Replace(marker, tail, needle), z, s, p);
      if i + |marker| <= p {
        forall q: nat | q < |tail| ensures !OccursAt(s, tail + z, q) {
          InTail(a, i + |needle|, z, s, q);
        }
        ReplaceKeepsStarts(marker, tail, z, needle, s, p - i - |marker|);
      }
    }
  }

  ghost predicate StartsNowhere(a: Bytes, z: Bytes, s: Bytes) {
    forall p: nat :: p < |a| ==> !OccursAt(s, a + z, p)
  }

  lemma {:induction false} RedactKeepsStarts(marker: Bytes, a: Bytes, z: Bytes, secrets: seq<Bytes>, s: Bytes)
    requires [] !in secrets && NoClash(marker, s) && StartsNowhere(a, z, s)
    ensures StartsNowhere(Redact(marker, a, secrets), z, s)
    decreases |secrets|
  {
    if secrets != [] {
      var once := Replace(marker, a, secrets[0]);
      forall p: nat | p < |once| ensures !OccursAt(s, once + z, p) {
        ReplaceKeepsStarts(marker, a, z, secrets[0], s, p);
      }
      RedactKeepsStarts(marker, once, z, secrets[1..], s);
    }
  }

  /** No occurrence reaches into the end of a text. */
  ghost predicate EndsBefore(a: Bytes, e: Bytes, t: Bytes) {
    forall p: nat :: OccursAt(t, a + e, p) ==> p + |t| <= |a|
  }

  lemma TailEndsBefore(a: Bytes, n: nat, e: Bytes, t: Bytes)
    requires n <= |a| && EndsBefore(a, e, t)
    ensures EndsBefore(a[n..], e, t)
  {
    forall p: nat | OccursAt(t, a[n..] + e, p) ensures p + |t| <= |a[n..]| {
      InTail(a, n, e, t, p);
    }
  }

  lemma {:induction false} ReplaceKeepsEnd(marker: Bytes, a: Bytes, e: Bytes, t: Bytes)
    requires t != [] && EndsBefore(a, e, t)
    ensures Replace(marker, a + e, t) == Replace(marker, a, t) + e
    decreases |a|
  {
    FindSpec(t, a, 0);
    match Find(t, a, 0)
    case None =>
      forall p: nat ensures !OccursAt(t, a + e, p) {
        if p + |t| <= |a| {
          OccursInPrefix(t, a, e, p);
        }
      }
      FindSpec(t, a + e, 0);
    case Some(i) =>
      var tail := a[i + |t|..];
      ReplaceExtended(marker, a, e, t);
      TailEndsBefore(a, i + |t|, e, t);
      ReplaceKeepsEnd(marker, tail, e, t);
      Associates(a[..i] + marker, Replace(marker, tail, t), e);
  }

  lemma {:induction false} ReplaceKeepsEnds(marker: Bytes, a: Bytes, e: Bytes, needle: Bytes, t: Bytes, p: nat)
    requires needle != [] && NoClash(marker, t) && EndsBefore(a, e, t)
    ensures OccursAt(t, Replace(marker, a, needle) + e, p) ==> p + |t| <= |Replace(marker, a, needle)|
    decreases |a|
  {
    if Find(needle, a, 0).Some? {
      var i := Find(needle, a, 0).value;
      var tail := a[i + |needle|..];
      AroundPass(marker, a, i, Replace(marker, tail, needle), e, t, p);
      if i + |marker| <= p {
        TailEndsBefore(a, i + |needle|, e, t);
        ReplaceKeepsEnds(marker, tail, e, needle, t, p - i - |marker|);
      }
    }
  }

  /** An end no secret reaches into passes through every pass. */
  lemma {:induction false} RedactKeepsEnd(marker: Bytes, a: Bytes, e: Bytes, secrets: seq<Bytes>)
    requires [] !in secrets && AllNoClash(marker, secrets) && forall t :: t in secrets ==> EndsBefore(a, e, t)
    ensures Redact(marker, a + e, secrets) == Redact(marker, a, secrets) + e
    decreases |secrets|
  {
    if secrets != [] {
      var s := secrets[0];
      ReplaceKeepsEnd(marker, a, e, s);
      forall t | t in secrets[1..] ensures EndsBefore(Replace(marker, a, s), e, t) {
        forall p: nat | OccursAt(t, Replace(marker, a, s) + e, p) ensures p + |t| <= |Replace(marker, a, s)| {
          ReplaceKeepsEnds(marker, a, e, s, t, p);
        }
      }
      RedactKeepsEnd(marker, Replace(marker, a, s), e, secrets[1..]);
    }
  }

  // ------------------------------------------------------------- harmless secrets

  /** `t`, laid `d` places after the start of `s`, overlaps and agrees with it and ends first. */
  ghost predicate EndsInside(s: Bytes, t: Bytes, d: int) {
    && -|t| < d && d + |t| < |s|
    && forall k: nat :: k < |t| && 0 <= d + k ==> s[d + k] == t[k]
  }

  /** No secret can end inside one that an earlier pass replaces. */
  ghost predicate Harmless(secrets: seq<Bytes>) {
    forall i: nat, j: nat, d: int :: i < j < |secrets| && secrets[i] != secrets[j] ==> !EndsInside(secrets[i], secrets[j], d)
  }

  lemma HarmlessTail(secrets: seq<Bytes>)
    requires secrets != [] && Harmless(secrets)
    ensures Harmless(secrets[1..])
    ensures forall t, d: int :: t in secrets[1..] && t != secrets[0] ==> !EndsInside(secrets[0], t, d)
  {
    var rest := secrets[1..];
    forall i: nat, j: nat, d: int | i < j < |rest| && rest[i] != rest[j] ensures !EndsInside(rest[i], rest[j], d) {
      assert rest[i] == secrets[i + 1] && rest[j] == secrets[j + 1];
    }
    forall t, d: int | t in rest && t != secrets[0] ensures !EndsInside(secrets[0], t, d) {
      var j :| 0 <= j < |rest| && rest[j] == t;
      assert secrets[j + 1] == t;
    }
  }

  /** An occurrence in arrived text that overlaps one of `s` still arriving ends inside it. */
  lemma OverlapEndsInside(u: Bytes, r: Bytes, s: Bytes, q: nat, t: Bytes, p: nat)
    requires OccursAt(s, u + r, q) && |u| < q + |s| && OccursAt(t, u, p) && q < p + |t|
    ensures EndsInside(s, t, p - q)
  {
    OccursAtElements(s, u + r, q);
    OccursAtElements(t, u, p);
    forall k: nat | k < |t| && 0 <= p - q + k ensures s[p - q + k] == t[k] {
      assert (u + r)[q + (p - q + k)] == s[p - q + k];
    }
  }

  /** Redacting early what has arrived does not change the redaction of the whole. */
  lemma {:induction false} RedactAbsorbs(marker: Bytes, text: Bytes, rest: Bytes, secrets: seq<Bytes>)
    requires [] !in secrets && AllNoClash(marker, secrets) && Harmless(secrets)
    ensures Redact(marker, Redact(marker, text, secrets) + rest, secrets) == Redact(marker, text + rest, secrets)
    decreases |secrets|
  {
    if secrets != [] {
      var s, others := secrets[0], secrets[1..];
      var u := Replace(marker, text, s);
      var early := Redact(marker, u, others);
      HarmlessTail(secrets);
      ReplaceAbsorbs(marker, text, rest, s);
      forall p: nat ensures !OccursAt(s, u, p) {
        ReplaceRemovesNeedle(marker, text, s, p);
      }
      FindSpec(s, u + rest, 0);
      var found := Find(s, u + rest, 0);
      if found.None? || found.value >= |u| {
        assert StartsNowhere(u, rest, s);
        RedactKeepsStarts(marker, u, rest, others, s);
        ReplaceSkipsPrefix(marker, u, rest, s);
        ReplaceSkipsPrefix(marker, early, rest, s);
        RedactAbsorbs(marker, u, Replace(marker, rest, s), others);
      } else {
        SpanningSecret(marker, u, rest, s, others, found.value);
      }
    }
  }

  /** The case of a secret that has arrived in part: no pass touched that part. */
  lemma SpanningSecret(marker: Bytes, u: Bytes, rest: Bytes, s: Bytes, others: seq<Bytes>, q: nat)
    requires [] !in others && AllNoClash(marker, others) && NoClash(marker, s) && !Contains(u, s)
    requires forall t, d: int :: t in others && t != s ==> !EndsInside(s, t, d)
    requires q < |u| && IsFirst(s, u + rest, 0, q)
    ensures Redact(marker, Replace(marker, Redact(marker, u, others) + rest, s), others)
            == Redact(marker, Replace(marker, u + rest, s), others)
  {
    var a, e := u[..q], u[q..];
    if q + |s| <= |u| {
      OccursInPrefix(s, u, rest, q);
    }
    var after := (u + rest)[q + |s|..];
    assert u + rest == a + (s + after);
    assert e + rest == s + after;
    forall t | t in others ensures EndsBefore(a, e, t) {
      assert a + e == u;
      forall p: nat | OccursAt(t, u, p) ensures p + |t| <= |a| {
        if |a| < p + |t| {
          OverlapEndsInside(u, rest, s, q, t, p);
        }
      }
    }
    var b := Redact(marker, a, others);
    assert a + e == u;
    RedactKeepsEnd(marker, a, e, others);
    Associates(b, e, rest);
    RedactKeepsStarts(marker, a, s + after, others, s);
    BothReplaced(marker, a, b, s, after, others);
  }

  lemma BothReplaced(marker: Bytes, a: Bytes, b: Bytes, s: Bytes, after: Bytes, others: seq<Bytes>)
    requires [] !in others && AllNoClash(marker, others) && NoClash(marker, s) && b == Redact(marker, a, others)
    requires StartsNowhere(a, s + after, s) && StartsNowhere(b, s + after, s)
    ensures Redact(marker, Replace(marker, b + (s + after), s), others) == Redact(marker, Replace(marker, a + (s + after), s), others)
  {
    ReplaceSkipsPrefix(marker, a, s + after, s);
    ReplaceSkipsPrefix(marker, b, s + after, s);
    ReplaceAtFront(marker, s, after);
    var tail := Replace(marker, after, s);
    Associates(a, marker, tail);
    Associates(b, marker, tail);
    RedactAround(marker, a, tail, others);
    RedactAround(marker, b, tail, others);
    RedactClean(marker, a, others);
    RedactCleanText(marker, b, others);
  }

  // ------------------------------------------------------------------- the stream

  /** A push that emits anything shows the redacted text cut in two, ahead of its last bytes. */
  lemma PushedCuts(marker: Bytes, r: Redactor, pending: Bytes, chunk: Bytes, rest: Bytes)
    requires r.Valid() && AllNoClash(marker, r.secrets)
    requires r.Retain() == 0 || |Redact(marker, pending + chunk, r.secrets)| > r.Retain()
    ensures var (out, kept) := Pushed(marker, r, pending, chunk);
            out + Redact(marker, kept + rest, r.secrets)
            == Redact(marker, Redact(marker, pending + chunk, r.secrets) + rest, r.secrets)
  {
    var redacted := Redact(marker, pending + chunk, r.secrets);
    RedactClean(marker, pending + chunk, r.secrets);
    var split := if r.Retain() == 0 then |redacted| else BoundaryBelow(redacted, |redacted| - r.Retain());
    assert redacted[..|redacted|] == redacted && redacted[|redacted|..] == [];
    assert Pushed(marker, r, pending, chunk) == (redacted[..split], redacted[split..]);
    RedactAfterCut(marker, redacted, rest, r.secrets, split);
  }

  /** emitted ++ redact(kept ++ rest) == redact(pending ++ chunk ++ rest), for every future. */
  lemma PushKeepsMeaning(marker: Bytes, r: Redactor, pending: Bytes, chunk: Bytes, rest: Bytes)
    requires r.Valid() && AllNoClash(marker, r.secrets) && Harmless(r.secrets)
    ensures var (out, kept) := Pushed(marker, r, pending, chunk);
            out + Redact(marker, kept + rest, r.secrets) == Redact(marker, pending + chunk + rest, r.secrets)
  {
    if r.Retain() == 0 || |Redact(marker, pending + chunk, r.secrets)| > r.Retain() {
      PushedCuts(marker, r, pending, chunk, rest);
      RedactAbsorbs(marker, pending + chunk, rest, r.secrets);
    } else {
      var same := Redact(marker, pending + chunk + rest, r.secrets);
      assert [] + same == same;
    }
  }

  lemma {:induction false} StreamedIsRedact(marker: Bytes, r: Redactor, pending: Bytes, chunks: seq<Bytes>)
    requires r.Valid() && AllNoClash(marker, r.secrets) && Harmless(r.secrets)
    ensures Streamed(marker, r, pending, chunks) == Redact(marker, pending + Joined(chunks), r.secrets)
    decreases |chunks|
  {
    if chunks == [] {
      assert pending + [] == pending;
    } else {
      var (out, kept) := Pushed(marker, r, pending, chunks[0]);
      StreamedIsRedact(marker, r, kept, chunks[1..]);
      PushKeepsMeaning(marker, r, pending, chunks[0], Joined(chunks[1..]));
      Associates(pending, chunks[0], Joined(chunks[1..]));
    }
  }

  ghost predicate SameAsBatch(marker: Bytes, r: Redactor, chunks: seq<Bytes>)
    requires r.Valid()
  {
    Streamed(marker, r, [], chunks) == Redact(marker, Joined(chunks), r.secrets)
  }

  lemma HarmlessStreamIsBatch(marker: Bytes, r: Redactor, chunks: seq<Bytes>)
    requires r.Valid() && AllNoClash(marker, r.secrets) && Harmless(r.secrets)
    ensures SameAsBatch(marker, r, chunks)
  {
    StreamedIsRedact(marker, r, [], chunks);
    assert [] + Joined(chunks) == Joined(chunks);
  }

  // ------------------------------------------------------- harmful secrets differ

  /** Markers no secret can touch, to fill what a push would hold back. */
  function Fill(marker: Bytes, n: nat): Bytes {
    if n == 0 then [] else marker + Fill(marker, n - 1)
  }

  lemma {:induction false} RedactFilled(marker: Bytes, n: nat, text: Bytes, secrets: seq<Bytes>)
    requires marker != [] && [] !in secrets && AllNoClash(marker, secrets)
    ensures Redact(marker, Fill(marker, n) + text, secrets) == Fill(marker, n) + Redact(marker, text, secrets)
    ensures |Fill(marker, n)| >= n
  {
    var rest := Redact(marker, text, secrets);
    if n == 0 {
      assert [] + text == text && [] + rest == rest;
    } else {
      var more := Fill(marker, n - 1);
      RedactFilled(marker, n - 1, text, secrets);
      Associates(marker, more, text);
      AfterMarker(marker, more + text, secrets);
      Associates(marker, more, rest);
    }
  }

  /** A stream can be made to redact a text early and the rest later. */
  lemma StreamsEarly(marker: Bytes, r: Redactor, text: Bytes, rest: Bytes)
    requires marker != [] && r.Valid() && AllNoClash(marker, r.secrets)
    requires Redact(marker, Redact(marker, text, r.secrets) + rest, r.secrets) != Redact(marker, text + rest, r.secrets)
    ensures exists chunks :: !SameAsBatch(marker, r, chunks)
  {
    var n := r.Retain() + 1;
    var fill, secrets := Fill(marker, n), r.secrets;
    var first, redacted := fill + text, Redact(marker, text, secrets);
    var chunks := [first, rest];
    RedactFilled(marker, n, text, secrets);
    RedactFilled(marker, n, redacted + rest, secrets);
    RedactFilled(marker, n, text + rest, secrets);
    assert [] + first == first;
    PushedCuts(marker, r, [], first, rest);
    var (out, kept) := Pushed(marker, r, [], first);
    TwoChunks(first, rest);
    Associates(fill, redacted, rest);
    Associates(fill, text, rest);
    SameFront(fill, Redact(marker, redacted + rest, secrets), Redact(marker, text + rest, secrets));
    LastPush(marker, r, kept, rest);
    assert chunks[1..] == [rest];
    assert !SameAsBatch(marker, r, chunks);
  }

  /** The last chunk of a stream is redacted with what is pending, however it is cut. */
  lemma LastPush(marker: Bytes, r: Redactor, pending: Bytes, chunk: Bytes)
    requires r.Valid() && AllNoClash(marker, r.secrets)
    ensures Streamed(marker, r, pending, [chunk]) == Redact(marker, pending + chunk, r.secrets)
  {
    var (out, kept) := Pushed(marker, r, pending, chunk);
    var redacted, last := Redact(marker, pending + chunk, r.secrets), Redact(marker, kept, r.secrets);
    assert [chunk][1..] == [];
    assert Streamed(marker, r, kept, []) == last;
    if r.Retain() == 0 || |redacted| > r.Retain() {
      PushedCuts(marker, r, pending, chunk, []);
      assert kept + [] == kept && redacted + [] == redacted;
      RedactClean(marker, pending + chunk, r.secrets);
      RedactCleanText(marker, redacted, r.secrets);
    } else {
      assert [] + redacted == redacted;
    }
  }

  lemma SameFront(front: Bytes, a: Bytes, b: Bytes)
    ensures front + a == front + b <==> a == b
  {
    if front + a == front + b {
      assert a == (front + a)[|front|..] == (front + b)[|front|..] == b;
    }
  }

  lemma TwoChunks(first: Bytes, rest: Bytes)
    ensures Joined([first, rest]) == first + rest
  {
    assert [first, rest][1..] == [rest];
    assert [rest][1..] == [];
    assert Joined([rest]) == rest + [] == rest;
  }

  lemma {:induction false} LongestFirstAt(secrets: seq<Bytes>, i: nat, j: nat)
    requires LongestFirst(secrets) && i <= j < |secrets|
    ensures |secrets[i]| >= |secrets[j]|
  {
    if i > 0 {
      LongestFirstAt(secrets[1..], i - 1, j - 1);
    } else if j > 0 {
      assert secrets[j] == secrets[1..][j - 1];
    }
  }

  ghost predicate Unrepeated(secrets: seq<Bytes>) {
    forall i: nat, j: nat :: i < j < |secrets| ==> secrets[i] != secrets[j]
  }

  /** Longest first, a secret on its own becomes one marker. */
  lemma {:induction false} RedactOwn(marker: Bytes, t: Bytes, secrets: seq<Bytes>)
    requires [] !in secrets && AllNoClash(marker, secrets) && LongestFirst(secrets) && t in secrets
    ensures Redact(marker, t, secrets) == marker
    decreases |secrets|
  {
    var s, others := secrets[0], secrets[1..];
    if s == t {
      assert t + [] == t;
      ReplaceAtFront(marker, t, []);
      FindSpec(t, [], 0);
      assert marker + [] == marker;
      RedactMarker(marker, others);
    } else {
      assert |s| >= |t|;
      forall p: nat ensures !OccursAt(s, t, p) {
        assert |s| == |t| ==> t[0..|s|] != s;
      }
      FindSpec(s, t, 0);
      RedactOwn(marker, t, others);
    }
  }

  lemma RedactMarker(marker: Bytes, secrets: seq<Bytes>)
    requires [] !in secrets && AllNoClash(marker, secrets)
    ensures Redact(marker, marker, secrets) == marker
  {
    RedactAround(marker, [], [], secrets);
    RedactEmpty(marker, secrets);
    assert [] + marker + [] == marker;
  }

  lemma {:induction false} RedactNonEmpty(marker: Bytes, text: Bytes, secrets: seq<Bytes>)
    requires marker != [] && text != [] && [] !in secrets
    ensures Redact(marker, text, secrets) != []
    decreases |secrets|
  {
    if secrets != [] {
      assert Replace(marker, text, secrets[0]) != [];
      RedactNonEmpty(marker, Replace(marker, text, secrets[0]), secrets[1..]);
    }
  }

  /** A secret inside a longer one that goes on after it: the longer is missed. */
  lemma NestedDiffers(marker: Bytes, s: Bytes, t: Bytes, d: nat, secrets: seq<Bytes>)
    requires marker != [] && [] !in secrets && AllNoClash(marker, secrets) && LongestFirst(secrets)
    requires s in secrets && t in secrets && EndsInside(s, t, d)
    ensures var x, y := s[..d + |t|], s[d + |t|..];
            Redact(marker, Redact(marker, x, secrets) + y, secrets) != Redact(marker, x + y, secrets)
  {
    var x, y := s[..d + |t|], s[d + |t|..];
    assert x + y == s;
    RedactOwn(marker, s, secrets);
    var early := Redact(marker, x, secrets);
    OccursAtElements(t, x, d);
    assert Contains(x, t);
    RedactClean(marker, x, secrets);
    RedactMarks(marker, x, secrets);
    assert early != x;
    MarkedStaysLonger(marker, early, y, secrets);
  }

  lemma MarkedStaysLonger(marker: Bytes, early: Bytes, y: Bytes, secrets: seq<Bytes>)
    requires marker != [] && y != [] && [] !in secrets && AllNoClash(marker, secrets) && Contains(early, marker)
    ensures |Redact(marker, early + y, secrets)| > |marker|
  {
    var i: nat :| OccursAt(marker, early, i);
    var a, b := early[..i], early[i + |marker|..];
    assert early + y == a + marker + (b + y);
    RedactAround(marker, a, b + y, secrets);
    RedactNonEmpty(marker, b + y, secrets);
  }

  // ---------------------------------------------- overlapping, but nothing nested

  ghost predicate Nested(secrets: seq<Bytes>) {
    exists i: nat, j: nat, d: nat :: i < j < |secrets| && secrets[i] != secrets[j] && EndsInside(secrets[i], secrets[j], d)
  }

  ghost predicate Overlapping(secrets: seq<Bytes>, i: nat, j: nat, k: nat) {
    i < j < |secrets| && secrets[i] != secrets[j] && EndsInside(secrets[i], secrets[j], -(k as int))
  }

  /** No earlier secret is overlapped, and this one by no shorter start. */
  ghost predicate Least(secrets: seq<Bytes>, i: nat, j: nat, k: nat) {
    && Overlapping(secrets, i, j, k)
    && (forall i2: nat, j2: nat, k2: nat :: i2 < i ==> !Overlapping(secrets, i2, j2, k2))
    && (forall j2: nat, k2: nat :: k2 < k ==> !Overlapping(secrets, i, j2, k2))
  }

  lemma {:induction false} LeastExists(secrets: seq<Bytes>, i: nat, j: nat, k: nat)
    requires Overlapping(secrets, i, j, k)
    ensures exists i2: nat, j2: nat, k2: nat :: Least(secrets, i2, j2, k2)
    decreases i, k
  {
    if i2: nat, j2: nat, k2: nat :| i2 < i && Overlapping(secrets, i2, j2, k2) {
      LeastExists(secrets, i2, j2, k2);
    } else if j2: nat, k2: nat :| k2 < k && Overlapping(secrets, i, j2, k2) {
      LeastExists(secrets, i, j2, k2);
    } else {
      assert Least(secrets, i, j, k);
    }
  }

  /** `s` begun before it by the start of `t`: the text of both. */
  lemma UnionText(s: Bytes, t: Bytes, k: nat, w: Bytes)
    requires k <= |t| && EndsInside(s, t, -(k as int)) && w == t[..k] + s
    ensures k < |t| < |w| && w[..|t|] == t && w[|t|..] == s[|t| - k..]
  {
    forall m: nat | m < |t| ensures w[m] == t[m] {
      assert m >= k ==> s[-(k as int) + m] == t[m];
    }
  }

  /** A secret at least as long as `s` that occurs there is overlapped by `t`. */
  lemma OccurrenceOverlaps(s: Bytes, t: Bytes, k: nat, w: Bytes, u: Bytes, p: nat)
    requires k <= |t| && EndsInside(s, t, -(k as int)) && w == t[..k] + s
    requires |u| >= |s| >= |t| && u != t
    ensures OccursAt(u, w, p) ==> EndsInside(u, t, -(p as int))
  {
    UnionText(s, t, k, w);
    assert w[0..0 + |t|] == t;
    if OccursAt(u, w, p) {
      OccursAtElements(u, w, p);
      forall m: nat | m < |t| && 0 <= m - p ensures u[m - p] == t[m] {
        assert w[p + (m - p)] == u[m - p] && w[m] == w[..|t|][m];
      }
    }
  }

  ghost predicate Chosen(secrets: seq<Bytes>, i: nat, j: nat, k: nat, w: Bytes) {
    && Unrepeated(secrets) && LongestFirst(secrets) && !Nested(secrets)
    && Least(secrets, i, j, k) && k <= |secrets[j]| && w == secrets[j][..k] + secrets[i]
  }

  /** The secrets before `s` do not occur in that text. */
  lemma EarlierAbsent(secrets: seq<Bytes>, i: nat, j: nat, k: nat, w: Bytes, q: nat, p: nat)
    requires Chosen(secrets, i, j, k, w) && q < i
    ensures !OccursAt(secrets[q], w, p)
  {
    LongestFirstAt(secrets, q, i);
    LongestFirstAt(secrets, i, j);
    OccurrenceOverlaps(secrets[i], secrets[j], k, w, secrets[q], p);
    assert !Overlapping(secrets, q, j, p);
  }

  /** And `s` occurs first at its own place. */
  lemma FirstInUnion(secrets: seq<Bytes>, i: nat, j: nat, k: nat, w: Bytes)
    requires Chosen(secrets, i, j, k, w)
    ensures Find(secrets[i], w, 0) == Some(k)
  {
    var s, t := secrets[i], secrets[j];
    LongestFirstAt(secrets, i, j);
    assert w[k..k + |s|] == s;
    forall p: nat | p < k ensures !OccursAt(s, w, p) {
      OccurrenceOverlaps(s, t, k, w, s, p);
      assert !Overlapping(secrets, i, j, p);
    }
    FindIs(s, w, k);
  }

  /** Nothing else occurs in the start of `t`. */
  lemma StartClean(secrets: seq<Bytes>, j: nat, k: nat)
    requires [] !in secrets && Unrepeated(secrets) && LongestFirst(secrets) && !Nested(secrets)
    requires j < |secrets| && k < |secrets[j]|
    ensures Clean(secrets[j][..k], secrets)
  {
    var t := secrets[j];
    forall m: nat, p: nat | m < |secrets| ensures !OccursAt(secrets[m], t[..k], p) {
      if m <= j {
        LongestFirstAt(secrets, m, j);
      } else {
        ShorterAbsent(secrets, j, k, m, p);
      }
    }
    forall z | z in secrets ensures !Contains(t[..k], z) {
      var m: nat :| m < |secrets| && secrets[m] == z;
    }
  }

  lemma ShorterAbsent(secrets: seq<Bytes>, j: nat, k: nat, m: nat, p: nat)
    requires [] !in secrets && Unrepeated(secrets) && !Nested(secrets) && j < m < |secrets| && k < |secrets[j]|
    ensures !OccursAt(secrets[m], secrets[j][..k], p)
  {
    var t, z := secrets[j], secrets[m];
    assert z in secrets && !EndsInside(t, z, p);
    if p + |z| <= k {
      OccursAtElements(z, t[..k], p);
      var x: nat :| x < |z| && t[p + x] != z[x];
      assert t[..k][p + x] != z[x];
    }
  }

  lemma {:induction false} RedactFrom(marker: Bytes, secrets: seq<Bytes>, i: nat, j: nat, k: nat, w: Bytes, q: nat)
    requires [] !in secrets && AllNoClash(marker, secrets) && Chosen(secrets, i, j, k, w) && q <= i
    ensures [] !in secrets[q..] && Redact(marker, w, secrets[q..]) == secrets[j][..k] + marker
    decreases i - q
  {
    var rest := secrets[q..];
    assert rest[0] == secrets[q] && rest[1..] == secrets[q + 1..];
    if q < i {
      forall p: nat ensures !OccursAt(secrets[q], w, p) {
        EarlierAbsent(secrets, i, j, k, w, q, p);
      }
      FindSpec(secrets[q], w, 0);
      RedactFrom(marker, secrets, i, j, k, w, q + 1);
    } else {
      FirstInUnion(secrets, i, j, k, w);
      UnionText(secrets[i], secrets[j], k, w);
      AfterOwnPass(marker, secrets, i, j, k, w);
    }
  }

  lemma AfterOwnPass(marker: Bytes, secrets: seq<Bytes>, i: nat, j: nat, k: nat, w: Bytes)
    requires [] !in secrets && AllNoClash(marker, secrets) && Chosen(secrets, i, j, k, w)
    requires Find(secrets[i], w, 0) == Some(k) && k < |secrets[j]|
    ensures [] !in secrets[i + 1..]
    ensures Redact(marker, Replace(marker, w, secrets[i]), secrets[i + 1..]) == secrets[j][..k] + marker
  {
    var s, start, others := secrets[i], secrets[j][..k], secrets[i + 1..];
    assert w[k + |s|..] == [] && w[..k] == start;
    FindSpec(s, [], 0);
    assert Replace(marker, w, s) == start + marker + [];
    StartClean(secrets, j, k);
    assert Clean(start, others);
    RedactCleanText(marker, start, others);
    RedactEmpty(marker, others);
    RedactAround(marker, start, [], others);
    assert start + marker + [] == start + marker;
  }

  /** No marker inside a marker begins it again. */
  ghost predicate Unbordered(marker: Bytes) {
    marker != [] && forall k: nat :: 0 < k < |marker| ==> marker[k] != marker[0]
  }

  lemma MarkerNotShifted(marker: Bytes, t: Bytes, k: nat, rest: Bytes)
    requires Unbordered(marker) && NoClash(marker, t) && 0 < k < |t|
    ensures marker + rest != t[..k] + marker
  {
    assert !Agrees(marker, t, 0);
    var m: nat :| m < |t| && 0 <= 0 + m < |marker| && t[m] != marker[0 + m];
    var a, b := marker + rest, t[..k] + marker;
    if m < k {
      assert a[m] != b[m];
    } else {
      assert a[k] == marker[k] && b[k] == marker[0];
    }
  }

  /** Overlapping secrets: the later one is replaced before the earlier has arrived. */
  lemma OverlapDiffers(marker: Bytes, secrets: seq<Bytes>, i: nat, j: nat, k: nat, w: Bytes)
    requires [] !in secrets && AllNoClash(marker, secrets) && Unbordered(marker) && Chosen(secrets, i, j, k, w)
    ensures var t, y := secrets[j], w[|secrets[j]|..];
            Redact(marker, Redact(marker, t, secrets) + y, secrets) != Redact(marker, t + y, secrets)
  {
    var s, t := secrets[i], secrets[j];
    var y := w[|t|..];
    UnionText(s, t, k, w);
    assert t + y == w && secrets[0..] == secrets;
    RedactFrom(marker, secrets, i, j, k, w, 0);
    RedactOwn(marker, t, secrets);
    AfterMarker(marker, y, secrets);
    assert k > 0 by {
      assert !EndsInside(s, t, 0);
    }
    MarkerNotShifted(marker, t, k, Redact(marker, y, secrets));
  }

  lemma AfterMarker(marker: Bytes, y: Bytes, secrets: seq<Bytes>)
    requires [] !in secrets && AllNoClash(marker, secrets)
    ensures Redact(marker, marker + y, secrets) == marker + Redact(marker, y, secrets)
  {
    RedactAround(marker, [], y, secrets);
    RedactEmpty(marker, secrets);
    var rest := Redact(marker, y, secrets);
    assert [] + marker + y == marker + y && [] + marker + rest == marker + rest;
  }

  lemma NestedHarm(marker: Bytes, r: Redactor)
    requires marker != [] && r.Valid() && LongestFirst(r.secrets) && AllNoClash(marker, r.secrets) && Nested(r.secrets)
    ensures exists chunks :: !SameAsBatch(marker, r, chunks)
  {
    var secrets := r.secrets;
    var i: nat, j: nat, d: nat :| i < j < |secrets| && secrets[i] != secrets[j] && EndsInside(secrets[i], secrets[j], d);
    var s, t := secrets[i], secrets[j];
    NestedDiffers(marker, s, t, d, secrets);
    StreamsEarly(marker, r, s[..d + |t|], s[d + |t|..]);
  }

  lemma OverlapHarm(marker: Bytes, r: Redactor, i: nat, j: nat, k: nat, w: Bytes)
    requires r.Valid() && AllNoClash(marker, r.secrets) && Unbordered(marker) && Chosen(r.secrets, i, j, k, w)
    requires |r.secrets[j]| <= |w|
    ensures exists chunks :: !SameAsBatch(marker, r, chunks)
  {
    OverlapDiffers(marker, r.secrets, i, j, k, w);
    StreamsEarly(marker, r, r.secrets[j], w[|r.secrets[j]|..]);
  }

  lemma OverlapChosen(secrets: seq<Bytes>) returns (i: nat, j: nat, k: nat, w: Bytes)
    requires Unrepeated(secrets) && LongestFirst(secrets) && !Nested(secrets) && !Harmless(secrets)
    ensures Chosen(secrets, i, j, k, w) && |secrets[j]| <= |w|
  {
    var i1: nat, j1: nat, d: int :| i1 < j1 < |secrets| && secrets[i1] != secrets[j1] && EndsInside(secrets[i1], secrets[j1], d);
    assert d < 0;
    assert Overlapping(secrets, i1, j1, -d);
    LeastExists(secrets, i1, j1, -d);
    i, j, k :| Least(secrets, i, j, k);
    w := secrets[j][..k] + secrets[i];
    UnionText(secrets[i], secrets[j], k, w);
  }

  lemma HarmfulDiffers(marker: Bytes, r: Redactor)
    requires r.Valid() && LongestFirst(r.secrets) && Unrepeated(r.secrets)
    requires AllNoClash(marker, r.secrets) && Unbordered(marker) && !Harmless(r.secrets)
    ensures exists chunks :: !SameAsBatch(marker, r, chunks)
  {
    if Nested(r.secrets) {
      NestedHarm(marker, r);
    } else {
      var i, j, k, w := OverlapChosen(r.secrets);
      OverlapHarm(marker, r, i, j, k, w);
    }
  }

  // ------------------------------------------------------------------ the iff

  function Without(secrets: seq<Bytes>, s: Bytes): (r: seq<Bytes>)
    ensures |r| <= |secrets| && forall t :: t in r <==> t in secrets && t != s
  {
    if secrets == [] then []
    else (if secrets[0] == s then [] else [secrets[0]]) + Without(secrets[1..], s)
  }

  /** Each secret once, where it first stands. `Redactor::new` drops a repetition only
      next to the first. */
  function Once(secrets: seq<Bytes>): (r: seq<Bytes>)
    ensures forall t :: t in r <==> t in secrets
    decreases |secrets|
  {
    if secrets == [] then [] else [secrets[0]] + Once(Without(secrets[1..], secrets[0]))
  }

  lemma {:induction false} OnceUnrepeated(secrets: seq<Bytes>)
    ensures Unrepeated(Once(secrets))
    decreases |secrets|
  {
    if secrets != [] {
      var rest := Once(Without(secrets[1..], secrets[0]));
      OnceUnrepeated(Without(secrets[1..], secrets[0]));
      forall i: nat, j: nat | i < j < 1 + |rest| ensures ([secrets[0]] + rest)[i] != ([secrets[0]] + rest)[j] {
        assert rest[j - 1] in rest;
        assert i > 0 ==> rest[i - 1] != rest[j - 1];
      }
    }
  }

  lemma {:induction false} WithoutLongestFirst(secrets: seq<Bytes>, s: Bytes)
    requires LongestFirst(secrets)
    ensures LongestFirst(Without(secrets, s))
  {
    if secrets != [] {
      WithoutLongestFirst(secrets[1..], s);
      var rest := Without(secrets[1..], s);
      assert ([secrets[0]] + rest)[1..] == rest && [] + rest == rest;
    }
  }

  lemma {:induction false} OnceLongestFirst(secrets: seq<Bytes>)
    requires LongestFirst(secrets)
    ensures LongestFirst(Once(secrets))
    decreases |secrets|
  {
    if secrets != [] {
      var others := Without(secrets[1..], secrets[0]);
      WithoutLongestFirst(secrets[1..], secrets[0]);
      OnceLongestFirst(others);
      assert ([secrets[0]] + Once(others))[1..] == Once(others);
    }
  }

  /** A pass for a secret that is not there does nothing. */
  lemma {:induction false} WithoutSame(marker: Bytes, text: Bytes, secrets: seq<Bytes>, s: Bytes)
    requires [] !in secrets && NoClash(marker, s) && !Contains(text, s)
    ensures Redact(marker, text, secrets) == Redact(marker, text, Without(secrets, s))
    decreases |secrets|
  {
    if secrets != [] {
      var head, rest := secrets[0], Without(secrets[1..], s);
      var once := Replace(marker, text, head);
      forall p: nat ensures !OccursAt(s, once, p) {
        ReplaceCreatesNone(marker, text, head, s, p);
      }
      WithoutSame(marker, once, secrets[1..], s);
      FindSpec(s, text, 0);
      assert ([head] + rest)[1..] == rest && [] + rest == rest;
    }
  }

  lemma {:induction false} OnceSame(marker: Bytes, text: Bytes, secrets: seq<Bytes>)
    requires [] !in secrets && AllNoClash(marker, secrets)
    ensures Redact(marker, text, secrets) == Redact(marker, text, Once(secrets))
    decreases |secrets|
  {
    if secrets != [] {
      var s := secrets[0];
      var once, others := Replace(marker, text, s), Without(secrets[1..], s);
      forall p: nat ensures !OccursAt(s, once, p) {
        ReplaceRemovesNeedle(marker, text, s, p);
      }
      WithoutSame(marker, once, secrets[1..], s);
      OnceSame(marker, once, others);
      assert ([s] + Once(others))[1..] == Once(others);
    }
  }

  lemma OncePushes(marker: Bytes, r: Redactor, same: Redactor, pending: Bytes, chunk: Bytes)
    requires r.Valid() && AllNoClash(marker, r.secrets) && same == r.(secrets := Once(r.secrets)) && same.Valid()
    ensures Pushed(marker, r, pending, chunk) == Pushed(marker, same, pending, chunk)
  {
    OnceSame(marker, pending + chunk, r.secrets);
  }

  lemma {:induction false} OnceStreams(marker: Bytes, r: Redactor, same: Redactor, pending: Bytes, chunks: seq<Bytes>)
    requires r.Valid() && AllNoClash(marker, r.secrets) && same == r.(secrets := Once(r.secrets)) && same.Valid()
    ensures Streamed(marker, r, pending, chunks) == Streamed(marker, same, pending, chunks)
    decreases |chunks|
  {
    if chunks == [] {
      OnceSame(marker, pending, r.secrets);
    } else {
      OncePushes(marker, r, same, pending, chunks[0]);
      OnceStreams(marker, r, same, Pushed(marker, r, pending, chunks[0]).1, chunks[1..]);
    }
  }

  lemma OnceSameAsBatch(marker: Bytes, r: Redactor, same: Redactor, chunks: seq<Bytes>)
    requires r.Valid() && AllNoClash(marker, r.secrets) && same == r.(secrets := Once(r.secrets)) && same.Valid()
    ensures SameAsBatch(marker, r, chunks) <==> SameAsBatch(marker, same, chunks)
  {
    OnceStreams(marker, r, same, [], chunks);
    OnceSame(marker, Joined(chunks), r.secrets);
  }

  lemma UnrepeatedExactly(marker: Bytes, r: Redactor)
    requires r.Valid() && LongestFirst(r.secrets) && Unrepeated(r.secrets)
    requires AllNoClash(marker, r.secrets) && Unbordered(marker)
    ensures (forall chunks :: SameAsBatch(marker, r, chunks)) <==> Harmless(r.secrets)
  {
    if Harmless(r.secrets) {
      forall chunks ensures SameAsBatch(marker, r, chunks) {
        HarmlessStreamIsBatch(marker, r, chunks);
      }
    } else {
      HarmfulDiffers(marker, r);
    }
  }

  lemma RepeatedExactly(marker: Bytes, r: Redactor, same: Redactor)
    requires r.Valid() && LongestFirst(r.secrets) && AllNoClash(marker, r.secrets) && Unbordered(marker)
    requires same == r.(secrets := Once(r.secrets)) && same.Valid()
    ensures (forall chunks :: SameAsBatch(marker, r, chunks)) <==> Harmless(same.secrets)
  {
    OnceUnrepeated(r.secrets);
    OnceLongestFirst(r.secrets);
    UnrepeatedExactly(marker, same);
    forall chunks ensures SameAsBatch(marker, r, chunks) <==> SameAsBatch(marker, same, chunks) {
      OnceSameAsBatch(marker, r, same, chunks);
    }
  }

  /** For secrets that cannot touch a marker, longest first: every stream shows the batch
      redaction exactly when no secret can end inside one that an earlier pass replaces. */
  lemma StreamIsBatchExactly(r: Redactor)
    requires r.Valid() && LongestFirst(r.secrets) && AllNoClash(MARKER, r.secrets)
    ensures (forall chunks :: SameAsBatch(MARKER, r, chunks)) <==> Harmless(Once(r.secrets))
  {
    MarkerUnbordered();
    RepeatedExactly(MARKER, r, r.(secrets := Once(r.secrets)));
  }

  lemma MarkerUnbordered()
    ensures Unbordered(MARKER)
  {
  }

  /** A single secret can end inside no other. */
  lemma SingleSecretStreamIsBatch(s: Bytes, chunks: seq<Bytes>)
    requires NoClash(MARKER, s)
    ensures Streamed(MARKER, Redactor([s], |s|), [], chunks) == Redact(MARKER, Joined(chunks), [s])
  {
    HarmlessStreamIsBatch(MARKER, Redactor([s], |s|), chunks);
  }
}
