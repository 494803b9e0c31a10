/** Exactly which accepted sets of secrets can make `redact_text` report a residual secret. */
module ResidualSecrets {
  import opened Base
  import opened Occurrences
  import opened RedactionSets

  // ------------------------------------------------- secrets a marker can complete

  /** Nothing is replaced from `from` up to `to`. */
  ghost predicate Quiet(secrets: seq<Bytes>, text: Bytes, from: nat, to: nat) {
    forall q: nat :: from <= q < to ==> !OccursSome(text, secrets, q)
  }

  /** `m` is the secret replaced at the start of `m + rest`. */
  ghost predicate Leads(secrets: seq<Bytes>, m: Bytes, rest: Bytes) {
    m in secrets && forall u :: u in secrets && OccursAt(u, m + rest, 0) ==> |u| <= |m|
  }

  /** `s` begins with the last `j` bytes of a marker. */
  predicate BeginsIn(marker: Bytes, s: Bytes, j: nat) {
    0 < j <= |s| && j <= |marker| && marker[|marker| - j..] == s[..j]
  }

  /** `s` ends, from `k` on, with the first bytes of a marker. */
  predicate EndsIn(marker: Bytes, s: Bytes, k: nat) {
    k < |s| && s[k..] <= marker
  }

  /** The marker put for `m` completes `s` from the left. */
  ghost predicate ShownAfter(marker: Bytes, secrets: seq<Bytes>, s: Bytes, m: Bytes, j: nat) {
    && BeginsIn(marker, s, j)
    && Leads(secrets, m, s[j..]) && Quiet(secrets, m + s[j..], |m|, |m| + |s| - j)
  }

  /** The marker put for `n` completes `s` from the right. */
  ghost predicate ShownBefore(marker: Bytes, secrets: seq<Bytes>, s: Bytes, n: Bytes, k: nat) {
    EndsIn(marker, s, k) && n in secrets && Quiet(secrets, s[..k] + n, 0, k)
  }

  /** The markers put for `m` and `n` complete `s` from both sides. */
  ghost predicate ShownBetween(marker: Bytes, secrets: seq<Bytes>, s: Bytes, m: Bytes, j: nat, n: Bytes, k: nat) {
    && BeginsIn(marker, s, j) && EndsIn(marker, s, k) && j <= k && n in secrets
    && Leads(secrets, m, s[j..k] + n) && Quiet(secrets, m + (s[j..k] + n), |m|, |m| + (k - j))
  }

  ghost predicate Completed(marker: Bytes, secrets: seq<Bytes>, s: Bytes) {
    || (exists m, j: nat :: ShownAfter(marker, secrets, s, m, j))
    || (exists n, k: nat :: ShownBefore(marker, secrets, s, n, k))
    || (exists m, j: nat, n, k: nat :: ShownBetween(marker, secrets, s, m, j, n, k))
  }

  /** The guard of `RedactionSet::new`: neither holds the other. */
  ghost predicate Apart(marker: Bytes, s: Bytes) {
    s != [] && !Contains(s, marker) && !Contains(marker, s)
  }

  // ------------------------------------------------------ what shows was completed

  /** A stretch of the text that starts where nothing is replaced. */
  lemma QuietStretch(text: Bytes, secrets: seq<Bytes>, from: nat, to: nat, stretch: Bytes, at: nat, upTo: nat)
    requires from <= to <= |text| && text[from..to] == stretch
    requires forall q: nat :: from + at <= q < from + upTo ==> !OccursSome(text, secrets, q)
    ensures Quiet(secrets, stretch, at, upTo)
  {
    forall q: nat | at <= q < upTo ensures !OccursSome(stretch, secrets, q) {
      assert !OccursSome(text, secrets, from + q);
      forall s | s in secrets ensures !OccursAt(s, stretch, q) {
        OccursInSlice(s, text, from, to, q);
      }
    }
  }

  lemma OccursInSlice(s: Bytes, text: Bytes, from: nat, to: nat, q: nat)
    requires from <= to <= |text|
    ensures OccursAt(s, text[from..to], q) ==> OccursAt(s, text, from + q)
  {
    assert text[from..to] == text[..to][from..];
    OccursInDrop(s, text[..to], from, q);
    if from + q + |s| <= to {
      OccursInTake(s, text, to, from + q);
    }
  }

  /** The secret replaced at `m` still leads what follows it. */
  lemma MatchLeads(text: Bytes, secrets: seq<Bytes>, cursor: nat, m: Match, to: nat)
    requires LeftmostLongest(text, secrets, cursor, m) && m.End() <= to <= |text|
    ensures Leads(secrets, text[m.at..m.End()], text[m.End()..to])
  {
    var here, rest := text[m.at..m.End()], text[m.End()..to];
    assert here + rest == text[m.at..to];
    forall u | u in secrets && OccursAt(u, here + rest, 0) ensures |u| <= |here| {
      OccursInSlice(u, text, m.at, to, 0);
    }
  }

  /** A secret that starts in the text before a marker and ends in the marker. */
  lemma StartsInGap(marker: Bytes, text: Bytes, secrets: seq<Bytes>, cursor: nat, m: Match, s: Bytes, k: nat)
    requires LeftmostLongest(text, secrets, cursor, m) && k <= m.at - cursor
    requires EndsIn(marker, s, k) && text[m.at - k..m.at] == s[..k]
    ensures ShownBefore(marker, secrets, s, text[m.at..m.End()], k)
  {
    var from := m.at - k;
    assert text[from..m.End()] == s[..k] + text[m.at..m.End()];
    QuietStretch(text, secrets, from, m.End(), s[..k] + text[m.at..m.End()], 0, k);
  }

  /** A secret that starts in the marker put for `m` and ends in the text after it. */
  lemma EndsInGap(marker: Bytes, text: Bytes, secrets: seq<Bytes>, cursor: nat, m: Match, s: Bytes, j: nat, to: nat)
    requires LeftmostLongest(text, secrets, cursor, m) && m.End() <= to <= |text|
    requires BeginsIn(marker, s, j) && text[m.End()..to] == s[j..]
    requires forall q: nat :: m.End() <= q < to ==> !OccursSome(text, secrets, q)
    ensures ShownAfter(marker, secrets, s, text[m.at..m.End()], j)
  {
    var here := text[m.at..m.End()];
    MatchLeads(text, secrets, cursor, m, to);
    assert text[m.at..to] == here + s[j..];
    QuietStretch(text, secrets, m.at, to, here + s[j..], |here|, |here| + |s| - j);
  }

  lemma BetweenMatches(text: Bytes, secrets: seq<Bytes>, cursor: nat, m: Match, n: Match, gap: Bytes)
    requires LeftmostLongest(text, secrets, cursor, m) && LeftmostLongest(text, secrets, m.End(), n)
    requires text[m.End()..n.at] == gap
    ensures var here, there := text[m.at..m.End()], text[n.at..n.End()];
            && there in secrets && Leads(secrets, here, gap + there)
            && Quiet(secrets, here + (gap + there), |here|, |here| + |gap|)
  {
    var here, there := text[m.at..m.End()], text[n.at..n.End()];
    MatchLeads(text, secrets, cursor, m, n.End());
    SliceJoins(text, m.End(), n.at, n.End());
    SliceJoins(text, m.at, m.End(), n.End());
    QuietStretch(text, secrets, m.at, n.End(), here + (gap + there), |here|, |here| + |gap|);
  }

  /** A secret that starts in the marker put for `m` and ends in the one put for `n`. */
  lemma SpansGap(marker: Bytes, text: Bytes, secrets: seq<Bytes>, cursor: nat, m: Match, n: Match, s: Bytes, j: nat, k: nat)
    requires LeftmostLongest(text, secrets, cursor, m) && LeftmostLongest(text, secrets, m.End(), n)
    requires BeginsIn(marker, s, j) && EndsIn(marker, s, k) && j <= k && text[m.End()..n.at] == s[j..k]
    ensures ShownBetween(marker, secrets, s, text[m.at..m.End()], j, text[n.at..n.End()], k)
  {
    BetweenMatches(text, secrets, cursor, m, n, s[j..k]);
  }

  lemma SliceJoins(text: Bytes, a: nat, b: nat, c: nat)
    requires a <= b <= c <= |text|
    ensures text[a..c] == text[a..b] + text[b..c]
  {
  }

  /** An occurrence that starts in the first of two texts. */
  lemma OccursSplit(s: Bytes, a: Bytes, b: Bytes, p: nat)
    requires OccursAt(s, a + b, p) && p <= |a|
    ensures |a| < p + |s| ==> a[p..] == s[..|a| - p] && s[|a| - p..] <= b
    ensures p + |s| <= |a| ==> OccursAt(s, a, p)
  {
    if |a| < p + |s| {
      var k, both := |a| - p, a + b;
      assert a[p..] == both[p..p + |s|][..k];
      assert b[..|s| - k] == both[p..p + |s|][k..];
    } else {
      OccursInPrefix(s, a, b, p);
    }
  }

  lemma HoldsMarker(marker: Bytes, s: Bytes, k: nat, rest: Bytes)
    requires k < |s| && s[k..] <= marker + rest
    ensures EndsIn(marker, s, k) || OccursAt(marker, s, k)
  {
    var w := s[k..];
    if |w| <= |marker| {
      assert w == (marker + rest)[..|w|] == marker[..|w|];
    } else {
      assert s[k..k + |marker|] == w[..|marker|] == (marker + rest)[..|marker|] == marker;
    }
  }

  /** The text up to the next replacement. */
  function Gap(text: Bytes, cursor: nat, matches: seq<Match>): (r: Bytes)
    requires Placed(text, cursor, matches)
    ensures cursor + |r| <= |text| && r == text[cursor..cursor + |r|]
    ensures matches != [] ==> cursor + |r| == matches[0].at
  {
    if matches == [] then text[cursor..] else text[cursor..matches[0].at]
  }

  lemma GapQuiet(text: Bytes, secrets: seq<Bytes>, cursor: nat, matches: seq<Match>)
    requires Placed(text, cursor, matches) && Selects(text, secrets, cursor, matches)
    ensures forall q: nat :: cursor <= q < cursor + |Gap(text, cursor, matches)| ==> !OccursSome(text, secrets, q)
  {
  }

  /** The start of a rendered text lies in the first gap, or passes it into a marker. */
  lemma RenderedStart(marker: Bytes, text: Bytes, cursor: nat, matches: seq<Match>, w: Bytes) returns (rest: Bytes)
    requires Placed(text, cursor, matches) && w <= Rendered(marker, text, cursor, matches)
    ensures var gap := Gap(text, cursor, matches);
            if |w| <= |gap| then w == text[cursor..cursor + |w|]
            else matches != [] && w[..|gap|] == gap && w[|gap|..] <= marker + rest
  {
    var gap := Gap(text, cursor, matches);
    rest := if matches == [] then [] else Rendered(marker, text, matches[0].End(), matches[1..]);
    if |w| <= |gap| {
      assert w == gap[..|w|] == text[cursor..cursor + |w|];
    } else {
      Associates(gap, marker, rest);
      assert w[..|gap|] == gap && w[|gap|..] == (marker + rest)[..|w| - |gap|];
    }
  }

  /** A secret that starts in the marker put for `m`. */
  lemma StartsInMarker(marker: Bytes, text: Bytes, secrets: seq<Bytes>, cursor: nat, m: Match, matches: seq<Match>,
                       s: Bytes, j: nat)
    requires LeftmostLongest(text, secrets, cursor, m)
    requires Placed(text, m.End(), matches) && Selects(text, secrets, m.End(), matches)
    requires !Contains(s, marker)
    requires BeginsIn(marker, s, j) && s[j..] <= Rendered(marker, text, m.End(), matches)
    ensures Completed(marker, secrets, s)
  {
    var w, gap := s[j..], Gap(text, m.End(), matches);
    var rest := RenderedStart(marker, text, m.End(), matches, w);
    GapQuiet(text, secrets, m.End(), matches);
    if |w| <= |gap| {
      EndsInGap(marker, text, secrets, cursor, m, s, j, m.End() + |w|);
    } else {
      var k := j + |gap|;
      assert w[..|gap|] == s[j..k] && w[|gap|..] == s[k..];
      HoldsMarker(marker, s, k, rest);
      SpansGap(marker, text, secrets, cursor, m, matches[0], s, j, k);
    }
  }

  /** Every secret left in a rendered text was completed by a marker. */
  lemma {:induction false} ShownIsCompleted(marker: Bytes, text: Bytes, secrets: seq<Bytes>, cursor: nat,
                                            matches: seq<Match>, s: Bytes, p: nat)
    requires Placed(text, cursor, matches) && Selects(text, secrets, cursor, matches)
    requires [] !in secrets && s in secrets && Apart(marker, s)
    ensures OccursAt(s, Rendered(marker, text, cursor, matches), p) ==> Completed(marker, secrets, s)
    decreases |matches|
  {
    if matches == [] {
      OccursInDrop(s, text, cursor, p);
      assert !OccursSome(text, secrets, cursor + p);
    } else if OccursAt(s, Rendered(marker, text, cursor, matches), p) {
      var m, rest := matches[0], matches[1..];
      var gap, after := text[cursor..m.at], Rendered(marker, text, m.End(), rest);
      Associates(gap, marker, after);
      if p < |gap| {
        FromGap(marker, text, secrets, cursor, m, s, after, p);
      } else if p < |gap + marker| {
        FromMarker(marker, text, secrets, cursor, m, rest, s, gap, p);
      } else {
        OccursInSuffix(s, gap + marker, after, p);
        ShownIsCompleted(marker, text, secrets, m.End(), rest, s, p - |gap + marker|);
      }
    }
  }

  lemma FromGap(marker: Bytes, text: Bytes, secrets: seq<Bytes>, cursor: nat, m: Match, s: Bytes, after: Bytes, p: nat)
    requires LeftmostLongest(text, secrets, cursor, m) && s in secrets && Apart(marker, s)
    requires p < m.at - cursor && OccursAt(s, text[cursor..m.at] + (marker + after), p)
    ensures Completed(marker, secrets, s)
  {
    var gap := text[cursor..m.at];
    OccursSplit(s, gap, marker + after, p);
    NotInGap(text, secrets, cursor, m, s, p);
    var k := |gap| - p;
    HoldsMarker(marker, s, k, after);
    assert gap[p..] == text[m.at - k..m.at];
    StartsInGap(marker, text, secrets, cursor, m, s, k);
  }

  lemma FromMarker(marker: Bytes, text: Bytes, secrets: seq<Bytes>, cursor: nat, m: Match, rest: seq<Match>,
                   s: Bytes, gap: Bytes, p: nat)
    requires LeftmostLongest(text, secrets, cursor, m)
    requires Placed(text, m.End(), rest) && Selects(text, secrets, m.End(), rest)
    requires [] !in secrets && s in secrets && Apart(marker, s)
    requires |gap| <= p < |gap + marker|
    requires OccursAt(s, gap + marker + Rendered(marker, text, m.End(), rest), p)
    ensures Completed(marker, secrets, s)
  {
    var after := Rendered(marker, text, m.End(), rest);
    Associates(gap, marker, after);
    OccursInSuffix(s, gap, marker + after, p);
    var at := p - |gap|;
    OccursSplit(s, marker, after, at);
    assert !OccursAt(s, marker, at);
    StartsInMarker(marker, text, secrets, cursor, m, rest, s, |marker| - at);
  }

  lemma NotInGap(text: Bytes, secrets: seq<Bytes>, cursor: nat, m: Match, s: Bytes, p: nat)
    requires s in secrets && s != [] && LeftmostLongest(text, secrets, cursor, m)
    ensures !OccursAt(s, text[cursor..m.at], p)
  {
    if p + |s| <= m.at - cursor {
      assert !OccursSome(text, secrets, cursor + p);
      OccursInSlice(s, text, cursor, m.at, p);
    }
  }

  // ------------------------------------------------------ what is completed shows

  lemma LeadMatched(secrets: seq<Bytes>, m: Bytes, rest: Bytes)
    requires Leads(secrets, m, rest)
    ensures LeftmostLongest(m + rest, secrets, 0, Match(0, |m|))
  {
    assert (m + rest)[0..0 + |m|] == m;
  }

  /** A secret that ends the text is replaced once nothing before it is. */
  lemma LastMatched(secrets: seq<Bytes>, before: Bytes, n: Bytes, cursor: nat)
    requires n in secrets && cursor <= |before| && Quiet(secrets, before + n, cursor, |before|)
    ensures LeftmostLongest(before + n, secrets, cursor, Match(|before|, |n|))
  {
    assert (before + n)[|before|..|before| + |n|] == n;
  }

  lemma NothingPastEnd(secrets: seq<Bytes>, text: Bytes)
    requires [] !in secrets
    ensures Selects(text, secrets, |text|, [])
  {
  }

  /** The replacements that complete a secret. */
  lemma AfterShows(marker: Bytes, secrets: seq<Bytes>, s: Bytes, m: Bytes, j: nat) returns (text: Bytes, matches: seq<Match>)
    requires [] !in secrets && ShownAfter(marker, secrets, s, m, j)
    ensures |text| <= |m| + |s| && (forall b :: b in text ==> b in m + s) && |matches| == 1
    ensures Placed(text, 0, matches) && Selects(text, secrets, 0, matches)
    ensures Contains(Rendered(marker, text, 0, matches), s)
  {
    var w := s[j..];
    text, matches := m + w, [Match(0, |m|)];
    LeadMatched(secrets, m, w);
    forall p: nat | |m| <= p ensures !OccursSome(text, secrets, p) {
    }
    assert matches[1..] == [];
    assert Rendered(marker, text, |m|, []) == w;
    var shown := Rendered(marker, text, 0, matches);
    assert shown == marker + w;
    assert shown[|marker| - j..|marker| - j + |s|] == marker[|marker| - j..] + w == s;
    assert OccursAt(s, shown, |marker| - j);
  }

  lemma RenderedOne(marker: Bytes, text: Bytes, cursor: nat, m: Match)
    requires cursor <= m.at && m.End() <= |text|
    ensures Placed(text, cursor, [m])
    ensures Rendered(marker, text, cursor, [m]) == text[cursor..m.at] + marker + text[m.End()..]
  {
    assert [m][1..] == [];
    assert Rendered(marker, text, m.End(), []) == text[m.End()..];
  }

  lemma BeforeShows(marker: Bytes, secrets: seq<Bytes>, s: Bytes, n: Bytes, k: nat) returns (text: Bytes, matches: seq<Match>)
    requires [] !in secrets && ShownBefore(marker, secrets, s, n, k)
    ensures |text| <= |n| + |s| && (forall b :: b in text ==> b in n + s) && |matches| == 1
    ensures Placed(text, 0, matches) && Selects(text, secrets, 0, matches)
    ensures Contains(Rendered(marker, text, 0, matches), s)
  {
    var start := s[..k];
    text, matches := start + n, [Match(k, |n|)];
    LastMatched(secrets, start, n, 0);
    NothingPastEnd(secrets, text);
    assert matches[1..] == [];
    RenderedOne(marker, text, 0, Match(k, |n|));
    var shown := Rendered(marker, text, 0, matches);
    assert text[0..k] == start;
    assert shown[0..0 + |s|] == start + s[k..] == s;
    assert OccursAt(s, shown, 0);
  }

  lemma BetweenSelected(secrets: seq<Bytes>, m: Bytes, w: Bytes, n: Bytes)
    requires [] !in secrets && n in secrets && Leads(secrets, m, w + n)
    requires Quiet(secrets, m + (w + n), |m|, |m| + |w|)
    ensures Selects(m + (w + n), secrets, 0, [Match(0, |m|), Match(|m + w|, |n|)])
  {
    var first, second := Match(0, |m|), Match(|m + w|, |n|);
    var text := m + (w + n);
    Associates(m, w, n);
    LeadMatched(secrets, m, w + n);
    LastMatched(secrets, m + w, n, |m|);
    NothingPastEnd(secrets, text);
    assert [first, second][1..] == [second] && [second][1..] == [];
    assert Selects(text, secrets, |m|, [second]);
  }

  lemma BetweenRendered(marker: Bytes, m: Bytes, w: Bytes, n: Bytes)
    ensures var text, matches := m + (w + n), [Match(0, |m|), Match(|m + w|, |n|)];
            Placed(text, 0, matches) && Rendered(marker, text, 0, matches) == marker + w + marker
  {
    var first, second := Match(0, |m|), Match(|m + w|, |n|);
    var text := m + (w + n);
    assert [first, second][1..] == [second];
    RenderedOne(marker, text, |m|, second);
    assert text[|m|..|m + w|] == w && text[|text|..] == [] && text[0..0] == [];
    assert Placed(text, 0, [first, second]);
    assert [] + marker + (w + marker + []) == marker + w + marker;
  }

  lemma BetweenOccurs(marker: Bytes, s: Bytes, j: nat, k: nat)
    requires BeginsIn(marker, s, j) && EndsIn(marker, s, k) && j <= k
    ensures Contains(marker + s[j..k] + marker, s)
  {
    var shown := marker + s[j..k] + marker;
    assert shown[|marker| - j..|marker| - j + |s|] == marker[|marker| - j..] + s[j..k] + s[k..] == s;
    assert OccursAt(s, shown, |marker| - j);
  }

  lemma BetweenShows(marker: Bytes, secrets: seq<Bytes>, s: Bytes, m: Bytes, j: nat, n: Bytes, k: nat)
    returns (text: Bytes, matches: seq<Match>)
    requires [] !in secrets && ShownBetween(marker, secrets, s, m, j, n, k)
    ensures |text| <= |m| + |n| + |s| && (forall b :: b in text ==> b in m + n + s) && |matches| == 2
    ensures Placed(text, 0, matches) && Selects(text, secrets, 0, matches)
    ensures Contains(Rendered(marker, text, 0, matches), s)
  {
    var w := s[j..k];
    text, matches := m + (w + n), [Match(0, |m|), Match(|m + w|, |n|)];
    BetweenSelected(secrets, m, w, n);
    BetweenRendered(marker, m, w, n);
    BetweenOccurs(marker, s, j, k);
  }

  /** Every secret that can be completed has a short text that shows it. */
  lemma CompletedShows(marker: Bytes, secrets: seq<Bytes>, s: Bytes, bound: nat) returns (text: Bytes, matches: seq<Match>)
    requires [] !in secrets && s in secrets && Completed(marker, secrets, s)
    requires forall u: Bytes :: u in secrets ==> |u| <= bound && 0 !in u
    ensures |text| <= 3 * bound && 0 !in text && |matches| <= 2
    ensures Placed(text, 0, matches) && Selects(text, secrets, 0, matches)
    ensures Contains(Rendered(marker, text, 0, matches), s)
  {
    if m, j: nat :| ShownAfter(marker, secrets, s, m, j) {
      text, matches := AfterShows(marker, secrets, s, m, j);
    } else if n, k: nat :| ShownBefore(marker, secrets, s, n, k) {
      text, matches := BeforeShows(marker, secrets, s, n, k);
    } else {
      var m, j: nat, n, k: nat :| ShownBetween(marker, secrets, s, m, j, n, k);
      text, matches := BetweenShows(marker, secrets, s, m, j, n, k);
    }
  }

  // ------------------------------------------------------------------ exactly when

  lemma SelectedIsMatches(secrets: seq<Bytes>, text: Bytes, matches: seq<Match>)
    requires [] !in secrets && Selects(text, secrets, 0, matches)
    ensures Matches(text, secrets, 0) == matches
  {
    MatchesSelect(text, secrets, 0);
    SelectionUnique(text, secrets, secrets, 0, matches, Matches(text, secrets, 0));
  }

  lemma FewMarkers(marker: Bytes, text: Bytes, matches: seq<Match>)
    requires Placed(text, 0, matches) && |matches| <= 2
    ensures |Rendered(marker, text, 0, matches)| <= |text| + 2 * |marker|
  {
    RenderedLength(marker, text, 0, matches);
    assert |matches| == 0 || |matches| == 1 || |matches| == 2;
  }

  lemma SelectedReported(secrets: seq<Bytes>, text: Bytes, matches: seq<Match>, s: Bytes)
    requires [] !in secrets && s in secrets
    requires Placed(text, 0, matches) && Selects(text, secrets, 0, matches) && |matches| <= 2
    requires |text| <= 3 * MAX_SECRET_VALUE_BYTES && 0 !in text && Contains(Rendered(MARKER, text, 0, matches), s)
    ensures Outcome(text, secrets) == Err(ResidualSecret)
  {
    SelectedIsMatches(secrets, text, matches);
    FewMarkers(MARKER, text, matches);
  }

  /** A short text that a set of acceptable secrets reports. */
  lemma CompletedReported(redaction: RedactionSet, s: Bytes) returns (text: Bytes)
    requires redaction.Valid() && s in redaction.secrets && Completed(MARKER, redaction.secrets, s)
    ensures Outcome(text, redaction.secrets) == Err(ResidualSecret)
  {
    var matches;
    text, matches := CompletedShows(MARKER, redaction.secrets, s, MAX_SECRET_VALUE_BYTES);
    SelectedReported(redaction.secrets, text, matches, s);
  }

  lemma ReportedCompleted(redaction: RedactionSet, text: Bytes)
    requires redaction.Valid() && Outcome(text, redaction.secrets) == Err(ResidualSecret)
    ensures exists s :: s in redaction.secrets && Completed(MARKER, redaction.secrets, s)
  {
    var secrets := redaction.secrets;
    var s :| s in secrets && Contains(RedactedText(text, secrets), s);
    var p: nat :| OccursAt(s, RedactedText(text, secrets), p);
    MatchesSelect(text, secrets, 0);
    FindSpec(MARKER, s, 0);
    FindSpec(s, MARKER, 0);
    ShownIsCompleted(MARKER, text, secrets, 0, Matches(text, secrets, 0), s, p);
  }

  /** An accepted set reports a residual secret on some text exactly when the markers put
      for its own secrets can complete one of them. */
  lemma ResidualExactly(redaction: RedactionSet)
    requires redaction.Valid()
    ensures (exists text :: Outcome(text, redaction.secrets) == Err(ResidualSecret))
       <==> (exists s :: s in redaction.secrets && Completed(MARKER, redaction.secrets, s))
  {
    if s :| s in redaction.secrets && Completed(MARKER, redaction.secrets, s) {
      var text := CompletedReported(redaction, s);
    }
    if text :| Outcome(text, redaction.secrets) == Err(ResidualSecret) {
      ReportedCompleted(redaction, text);
    }
  }

  /** Secrets without brackets are never completed by a marker. */
  lemma NeverResidual(redaction: RedactionSet, text: Bytes)
    requires redaction.Valid() && forall s :: s in redaction.secrets ==> BracketFree(s)
    ensures Outcome(text, redaction.secrets) != Err(ResidualSecret)
  {
    if Outcome(text, redaction.secrets) == Err(ResidualSecret) {
      ReportedCompleted(redaction, text);
      var s :| s in redaction.secrets && Completed(MARKER, redaction.secrets, s);
      BracketFreeNotCompleted(redaction.secrets, s);
    }
  }

  lemma BracketFreeNotCompleted(secrets: seq<Bytes>, s: Bytes)
    requires BracketFree(s)
    ensures !Completed(MARKER, secrets, s)
  {
    forall j: nat ensures !BeginsIn(MARKER, s, j) {
      if 0 < j <= |s| && j <= |MARKER| {
        assert MARKER[|MARKER| - j..][j - 1] != s[..j][j - 1];
      }
    }
    forall k: nat ensures !EndsIn(MARKER, s, k) {
      if k < |s| <= k + |MARKER| {
        assert s[k..][0] != MARKER[..|s| - k][0];
      }
    }
  }

  /** With a bracket the report does happen: the accepted secret "a[" in "aa[". */
  lemma ResidualWithBracket()
    ensures RedactionSet(0, [[97, 91]]).Valid()
    ensures Outcome([97, 97, 91], [[97, 91]]) == Err(ResidualSecret)
  {
    var s: Bytes := [97, 91];
    FindSpec(MARKER, s, 0);
    FindSpec(s, MARKER, 0);
    forall p: nat ensures !OccursAt(s, MARKER, p) {
      if p + 2 <= |MARKER| {
        OccursAtElements(s, MARKER, p);
        assert MARKER[p + 0] != s[0];
      }
    }
    ResidualExample(s, [97, 97, 91]);
  }

  lemma ResidualExample(s: Bytes, text: Bytes)
    requires s == [97, 91] && text == [97, 97, 91]
    ensures Matches(text, [s], 0) == [Match(1, 2)] && Contains(RedactedText(text, [s]), s)
  {
    var matches := [Match(1, 2)];
    MatchesSelect(text, [s], 0);
    OccursAtElements(s, text, 0);
    assert text[0 + 1] != s[1];
    assert text[1..3] == s;
    assert LeftmostLongest(text, [s], 0, matches[0]);
    assert Selects(text, [s], 3, matches[1..]);
    SelectionUnique(text, [s], [s], 0, Matches(text, [s], 0), matches);
    var out := Rendered(MARKER, text, 0, matches);
    assert out == text[0..1] + MARKER + Rendered(MARKER, text, 3, []);
    assert OccursAt(s, out, 0);
  }

  /** And a bracket alone does not decide it: the accepted secret "[[" is never reported. */
  lemma DoubleBracketNeverResidual(text: Bytes)
    ensures RedactionSet(0, [[91, 91]]).Valid()
    ensures Outcome(text, [[91, 91]]) != Err(ResidualSecret)
  {
    var s: Bytes := [91, 91];
    var redaction := RedactionSet(0, [s]);
    FindSpec(MARKER, s, 0);
    FindSpec(s, MARKER, 0);
    forall p: nat ensures !OccursAt(s, MARKER, p) {
      if p + 2 <= |MARKER| {
        OccursAtElements(s, MARKER, p);
        assert MARKER[p + 1] != s[1];
      }
    }
    DoubleBracketNotCompleted(s);
    if Outcome(text, [s]) == Err(ResidualSecret) {
      ReportedCompleted(redaction, text);
    }
  }

  lemma DoubleBracketNotCompleted(s: Bytes)
    requires s == [91, 91]
    ensures !Completed(MARKER, [s], s)
  {
    forall j: nat ensures !BeginsIn(MARKER, s, j) {
      if 0 < j <= |s| {
        assert MARKER[|MARKER| - j..][j - 1] != s[..j][j - 1];
      }
    }
    forall n, k: nat ensures !ShownBefore(MARKER, [s], s, n, k) {
      if k == 0 {
        assert s[0..] == s && s[1] != MARKER[1];
      } else if k == 1 && n == s {
        assert OccursAt(s, s[..1] + s, 0);
        assert OccursSome(s[..1] + s, [s], 0);
      }
    }
  }
}
