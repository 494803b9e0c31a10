/** Occurrences of one byte string in another, and the redaction marker.
    Rust strings are modelled as their UTF-8 bytes: `find`, `contains` and
    `replace` on `str` compare bytes. */
module Occurrences {
  import opened Base

  predicate OccursAt(needle: Bytes, text: Bytes, i: nat) {
    i + |needle| <= |text| && text[i..i + |needle|] == needle
  }

  ghost predicate Contains(text: Bytes, needle: Bytes) {
    exists i: nat :: OccursAt(needle, text, i)
  }

  predicate IsFirst(needle: Bytes, text: Bytes, from: nat, i: nat) {
    && from <= i && OccursAt(needle, text, i)
    && forall p: nat :: from <= p < i ==> !OccursAt(needle, text, p)
  }

  lemma {:induction false} FirstExists(needle: Bytes, text: Bytes, from: nat, i: nat)
    requires from <= i && OccursAt(needle, text, i)
    ensures exists k: nat :: k <= |text| && IsFirst(needle, text, from, k)
    decreases i - from
  {
    if !IsFirst(needle, text, from, i) {
      var p: nat :| from <= p < i && OccursAt(needle, text, p);
      FirstExists(needle, text, from, p);
    }
  }

  /** `str::find` restarted at a cursor: the least occurrence at or after `from`. */
  function Find(needle: Bytes, text: Bytes, from: nat): (r: Option<nat>)
    ensures r.Some? ==> from <= r.value && r.value + |needle| <= |text|
  {
    if exists i: nat :: i <= |text| && IsFirst(needle, text, from, i) then
      var i: nat :| i <= |text| && IsFirst(needle, text, from, i);
      Some(i)
    else None
  }

  lemma FindSpec(needle: Bytes, text: Bytes, from: nat)
    ensures match Find(needle, text, from)
            case Some(i) => IsFirst(needle, text, from, i)
            case None => forall p: nat :: from <= p ==> !OccursAt(needle, text, p)
  {
    if Find(needle, text, from).None? {
      forall p: nat | from <= p ensures !OccursAt(needle, text, p) {
        if OccursAt(needle, text, p) {
          FirstExists(needle, text, from, p);
        }
      }
    }
  }

  lemma FindIs(needle: Bytes, text: Bytes, i: nat)
    requires OccursAt(needle, text, i) && forall p: nat :: p < i ==> !OccursAt(needle, text, p)
    ensures Find(needle, text, 0) == Some(i)
  {
    FindSpec(needle, text, 0);
  }

  /** The bytes of "REDACTED". */
  const WORD: Bytes := [82, 69, 68, 65, 67, 84, 69, 68]

  /** The bytes of "[REDACTED]". */
  const MARKER: Bytes := [91, 82, 69, 68, 65, 67, 84, 69, 68, 93]

  /** `t`, laid `d` places after the start of the marker, agrees with it wherever they overlap. */
  ghost predicate Agrees(marker: Bytes, t: Bytes, d: int) {
    forall j: nat :: j < |t| && 0 <= d + j < |marker| ==> t[j] == marker[d + j]
  }

  /** No occurrence of `t` can share a byte with a marker. */
  ghost predicate NoClash(marker: Bytes, t: Bytes) {
    && t != []
    && forall d: int :: -|t| < d < |marker| ==> !Agrees(marker, t, d)
  }

  predicate BracketFree(t: Bytes) {
    91 !in t && 93 !in t
  }

  /** Bracket-free text that is no part of the word REDACTED cannot touch a MARKER. */
  lemma BracketFreeNoClash(t: Bytes)
    requires t != [] && BracketFree(t) && !Contains(WORD, t)
    ensures NoClash(MARKER, t)
  {
    forall d: int | -|t| < d < |MARKER| ensures !Agrees(MARKER, t, d) {
      if d <= 0 {
        assert t[-d] != MARKER[d + -d];
      } else if d + |t| > 9 {
        assert t[9 - d] != MARKER[d + (9 - d)];
      } else {
        assert !OccursAt(t, WORD, d - 1);
        OccursAtElements(t, WORD, d - 1);
        var j: nat :| j < |t| && WORD[d - 1 + j] != t[j];
        assert WORD == MARKER[1..9];
        assert t[j] != MARKER[d + j];
      }
    }
  }

  lemma OccursAtElements(needle: Bytes, text: Bytes, i: nat)
    requires i + |needle| <= |text|
    ensures OccursAt(needle, text, i) <==> forall j: nat :: j < |needle| ==> text[i + j] == needle[j]
  {
    if forall j: nat :: j < |needle| ==> text[i + j] == needle[j] {
      assert text[i..i + |needle|] == needle;
    }
    if OccursAt(needle, text, i) {
      forall j: nat | j < |needle| ensures text[i + j] == needle[j] {
        assert text[i..i + |needle|][j] == needle[j];
      }
    }
  }

  lemma OccursInside(w: Bytes, t: Bytes, text: Bytes, i: nat, q: nat)
    requires OccursAt(w, t, i) && OccursAt(t, text, q)
    ensures OccursAt(w, text, q + i)
  {
    OccursAtElements(t, text, q);
    OccursAtElements(w, t, i);
    OccursAtElements(w, text, q + i);
    forall j: nat | j < |w| ensures text[q + i + j] == w[j] {
      assert text[q + (i + j)] == t[i + j];
    }
  }

  /** An occurrence of a non-clashing `t` lies wholly before or wholly after a marker. */
  lemma OccurrenceAvoidsMarker(marker: Bytes, before: Bytes, after: Bytes, t: Bytes, p: nat)
    requires NoClash(marker, t)
    ensures OccursAt(t, before + marker + after, p) ==> p + |t| <= |before| || |before| + |marker| <= p
  {
    var whole := before + marker + after;
    var d := p - |before|;
    if -|t| < d < |marker| && p + |t| <= |whole| {
      OccursAtElements(t, whole, p);
      assert !Agrees(marker, t, d);
      var j: nat :| j < |t| && 0 <= d + j < |marker| && t[j] != marker[d + j];
      assert whole[|before| + (d + j)] == marker[d + j];
      assert whole[p + j] != t[j];
    }
  }

  /** Occurrences inside a prefix, a suffix or the whole, transported by `OccursAtElements`. */
  lemma OccursInPrefix(t: Bytes, a: Bytes, b: Bytes, p: nat)
    requires p + |t| <= |a|
    ensures OccursAt(t, a, p) <==> OccursAt(t, a + b, p)
  {
    assert a[p..p + |t|] == (a + b)[p..p + |t|];
  }

  lemma OccursInSuffix(t: Bytes, a: Bytes, b: Bytes, p: nat)
    requires |a| <= p
    ensures OccursAt(t, b, p - |a|) <==> OccursAt(t, a + b, p)
  {
    if p + |t| <= |a| + |b| {
      assert b[p - |a|..p - |a| + |t|] == (a + b)[p..p + |t|];
    }
  }

  lemma OccursInTake(t: Bytes, text: Bytes, k: nat, p: nat)
    requires k <= |text|
    ensures OccursAt(t, text[..k], p) ==> OccursAt(t, text, p)
  {
    if p + |t| <= k {
      assert text[..k][p..p + |t|] == text[p..p + |t|];
    }
  }

  lemma OccursInDrop(t: Bytes, text: Bytes, k: nat, p: nat)
    requires k <= |text|
    ensures OccursAt(t, text[k..], p) <==> OccursAt(t, text, k + p)
  {
    if k + p + |t| <= |text| {
      assert text[k..][p..p + |t|] == text[k + p..k + p + |t|];
    }
  }

  /** Around a marker, the occurrences of a non-clashing `t` are those on either side. */
  lemma OccurrencesAroundMarker(marker: Bytes, before: Bytes, after: Bytes, t: Bytes, p: nat)
    requires NoClash(marker, t)
    ensures OccursAt(t, before + marker + after, p) <==>
            || OccursAt(t, before, p)
            || (|before| + |marker| <= p && OccursAt(t, after, p - |before| - |marker|))
  {
    OccurrenceAvoidsMarker(marker, before, after, t, p);
    assert before + marker + after == before + (marker + after);
    if p + |t| <= |before| {
      OccursInPrefix(t, before, marker + after, p);
    } else if |before + marker| <= p {
      OccursInSuffix(t, before + marker, after, p);
    }
  }

  // --------------------------------------------- texts that overlap a marker

  /** `t` begins with the last `j` bytes of the marker and goes on. */
  predicate BeginsAfter(marker: Bytes, t: Bytes, j: nat) {
    0 < j < |t| && j <= |marker| && t[..j] == marker[|marker| - j..]
  }

  /** `t` ends, after `k` bytes, with a beginning of the marker, and is not already found
      when those `k` bytes stand before it. */
  ghost predicate EndsBeforeMarker(marker: Bytes, t: Bytes, k: nat) {
    0 < k < |t| && t[k..] <= marker && forall q: nat :: q < k ==> !OccursAt(t, t[..k] + t, q)
  }

  /** Replacing an occurrence of `t` can make another one. */
  ghost predicate Exposed(marker: Bytes, t: Bytes) {
    (exists j: nat :: BeginsAfter(marker, t, j)) || (exists k: nat :: EndsBeforeMarker(marker, t, k))
  }

  /** Neither holds the other, and replacing `t` cannot make it again. */
  ghost predicate Safe(marker: Bytes, t: Bytes) {
    t != [] && !Contains(t, marker) && !Contains(marker, t) && !Exposed(marker, t)
  }

  /** What an occurrence looks like that runs into a marker put for a first occurrence. */
  lemma IntoMarker(marker: Bytes, before: Bytes, after: Bytes, t: Bytes, p: nat)
    requires p < |before| < p + |t| && forall q: nat :: q < |before| ==> !OccursAt(t, before + t, q)
    ensures OccursAt(t, before + marker + after, p) ==> Contains(t, marker) || EndsBeforeMarker(marker, t, |before| - p)
  {
    var whole, k := before + marker + after, |before| - p;
    if OccursAt(t, whole, p) {
      OccursAtElements(t, whole, p);
      if |t| - k < |marker| {
        forall m: nat | m < |t| - k ensures t[k..][m] == marker[m] {
          assert whole[p + (k + m)] == t[k + m];
        }
        StartRepeats(before, t, p, k, whole);
      } else {
        forall m: nat | m < |marker| ensures t[k + m] == marker[m] {
          assert whole[p + (k + m)] == t[k + m];
        }
        OccursAtElements(marker, t, k);
      }
    }
  }

  lemma StartRepeats(before: Bytes, t: Bytes, p: nat, k: nat, whole: Bytes)
    requires |before| == p + k && 0 < k < |t| && OccursAt(t, whole, p) && before <= whole
    requires forall q: nat :: q < |before| ==> !OccursAt(t, before + t, q)
    ensures forall q: nat :: q < k ==> !OccursAt(t, t[..k] + t, q)
  {
    assert t[..k] == whole[p..p + |t|][..k] == before[p..];
    assert before + t == before[..p] + (t[..k] + t);
    forall q: nat | q < k ensures !OccursAt(t, t[..k] + t, q) {
      OccursInSuffix(t, before[..p], t[..k] + t, p + q);
    }
  }

  /** And one that starts in a marker. */
  lemma OutOfMarker(marker: Bytes, before: Bytes, after: Bytes, t: Bytes, p: nat)
    requires |before| <= p < |before| + |marker|
    ensures OccursAt(t, before + marker + after, p) ==>
              Contains(marker, t) || BeginsAfter(marker, t, |before| + |marker| - p)
  {
    var whole, at := before + marker + after, p - |before|;
    if OccursAt(t, whole, p) {
      OccursAtElements(t, whole, p);
      forall m: nat | m < |t| && at + m < |marker| ensures t[m] == marker[at + m] {
        assert whole[p + m] == t[m];
      }
      if at + |t| <= |marker| {
        OccursAtElements(t, marker, at);
      } else {
        assert t[..|marker| - at] == marker[at..];
      }
    }
  }

  /** Around such a marker, the occurrences of a safe `t` are those on either side. */
  lemma SafeAroundMarker(marker: Bytes, before: Bytes, after: Bytes, t: Bytes, p: nat)
    requires Safe(marker, t) && forall q: nat :: q < |before| ==> !OccursAt(t, before + t, q)
    ensures OccursAt(t, before + marker + after, p) ==>
              || OccursAt(t, before, p)
              || (|before| + |marker| <= p && OccursAt(t, after, p - |before| - |marker|))
  {
    if p + |t| <= |before| {
      Associates(before, marker, after);
      OccursInPrefix(t, before, marker + after, p);
    } else if |before| + |marker| <= p {
      OccursInSuffix(t, before + marker, after, p);
    } else if p < |before| {
      IntoMarker(marker, before, after, t, p);
    } else {
      OutOfMarker(marker, before, after, t, p);
    }
  }

  // ------------------------------------------------------- lists of secrets

  ghost predicate LongestFirst(secrets: seq<Bytes>) {
    secrets != [] ==>
      && (forall s :: s in secrets[1..] ==> |secrets[0]| >= |s|)
      && LongestFirst(secrets[1..])
  }

  function InsertByLength(s: Bytes, sorted: seq<Bytes>): (r: seq<Bytes>)
    requires LongestFirst(sorted)
    ensures LongestFirst(r) && forall t :: t in r <==> t == s || t in sorted
  {
    if sorted == [] || |s| >= |sorted[0]| then
      assert ([s] + sorted)[1..] == sorted;
      [s] + sorted
    else
      var rest := InsertByLength(s, sorted[1..]);
      assert ([sorted[0]] + rest)[1..] == rest;
      [sorted[0]] + rest
  }

  /** A stable sort, longest first. */
  function SortByLength(secrets: seq<Bytes>): (r: seq<Bytes>)
    ensures LongestFirst(r) && forall t :: t in r <==> t in secrets
  {
    if secrets == [] then []
    else InsertByLength(secrets[0], SortByLength(secrets[1..]))
  }

  /** `Vec::dedup`: adjacent repetitions are dropped. */
  function Dedup(secrets: seq<Bytes>): (r: seq<Bytes>)
    requires LongestFirst(secrets)
    ensures LongestFirst(r) && forall t :: t in r <==> t in secrets
    decreases |secrets|
  {
    if |secrets| <= 1 then secrets
    else
      var rest := Dedup(secrets[1..]);
      assert ([secrets[0]] + rest)[1..] == rest;
      if secrets[0] == secrets[1] then rest else [secrets[0]] + rest
  }

  /** The secrets of one length, in their order. */
  function OfLength(secrets: seq<Bytes>, n: nat): seq<Bytes> {
    if secrets == [] then []
    else (if |secrets[0]| == n then [secrets[0]] else []) + OfLength(secrets[1..], n)
  }

  lemma OfLengthCons(s: Bytes, rest: seq<Bytes>, n: nat)
    ensures OfLength([s] + rest, n) == if |s| == n then [s] + OfLength(rest, n) else OfLength(rest, n)
  {
    assert ([s] + rest)[1..] == rest;
  }

  lemma {:induction false} InsertStable(s: Bytes, sorted: seq<Bytes>, n: nat)
    requires LongestFirst(sorted)
    ensures OfLength(InsertByLength(s, sorted), n) == OfLength([s] + sorted, n)
    decreases |sorted|
  {
    if sorted != [] && |s| < |sorted[0]| {
      InsertStable(s, sorted[1..], n);
      OfLengthCons(sorted[0], InsertByLength(s, sorted[1..]), n);
      OfLengthCons(s, sorted[1..], n);
      OfLengthCons(s, sorted, n);
    }
  }

  /** Sorting keeps the order of secrets of one length, which decides between passes. */
  lemma {:induction false} SortStable(secrets: seq<Bytes>, n: nat)
    ensures OfLength(SortByLength(secrets), n) == OfLength(secrets, n)
  {
    if secrets != [] {
      var rest := SortByLength(secrets[1..]);
      SortStable(secrets[1..], n);
      InsertStable(secrets[0], rest, n);
      assert ([secrets[0]] + rest)[1..] == rest;
    }
  }

  /** After dropping repetitions no two neighbours are equal. */
  lemma {:induction false} DedupApart(secrets: seq<Bytes>)
    requires LongestFirst(secrets)
    ensures Dedup(secrets) != [] ==> Dedup(secrets)[0] == secrets[0]
    ensures forall i :: 0 < i < |Dedup(secrets)| ==> Dedup(secrets)[i - 1] != Dedup(secrets)[i]
    decreases |secrets|
  {
    if |secrets| > 1 {
      DedupApart(secrets[1..]);
    }
  }
}
