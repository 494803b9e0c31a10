/** Compiling a bounded glob pattern (`glob_parts`, `expand_brace_alternatives`,
    `glob_segments`) and what the compiled form means. */
module GlobPattern {
  import opened Base

  // ---------------------------------------------------- one name, one wildcard text

  /** The declarative meaning of a wildcard text: `*` is any run of characters,
      `?` any single one, everything else itself. */
  predicate Wild(pattern: string, name: string)
    decreases |pattern|
  {
    if pattern == [] then name == []
    else if pattern[0] == '*' then exists i | 0 <= i <= |name| :: Wild(pattern[1..], name[i..])
    else name != [] && (pattern[0] == '?' || pattern[0] == name[0]) && Wild(pattern[1..], name[1..])
  }

  datatype Part = Literal(text: string) | AnyOne | AnySequence

  /** `match_segments`. */
  predicate MatchParts(parts: seq<Part>, name: string)
    decreases |parts|
  {
    if parts == [] then name == []
    else
      match parts[0]
      case AnySequence => exists i | 0 <= i <= |name| :: MatchParts(parts[1..], name[i..])
      case AnyOne => name != [] && MatchParts(parts[1..], name[1..])
      case Literal(text) => text <= name && MatchParts(parts[1..], name[|text|..])
  }

  lemma {:induction false} WildJoin(p: string, q: string, a: string, b: string)
    requires Wild(p, a) && Wild(q, b)
    ensures Wild(p + q, a + b)
    decreases |p|
  {
    if p == [] {
      assert p + q == q && a + b == b;
    } else {
      assert (p + q)[1..] == p[1..] + q;
      if p[0] == '*' {
        var i :| 0 <= i <= |a| && Wild(p[1..], a[i..]);
        WildJoin(p[1..], q, a[i..], b);
        assert (a + b)[i..] == a[i..] + b;
      } else {
        WildJoin(p[1..], q, a[1..], b);
        assert (a + b)[1..] == a[1..] + b;
      }
    }
  }

  lemma {:induction false} WildCut(p: string, q: string, name: string) returns (k: nat)
    requires Wild(p + q, name)
    ensures k <= |name| && Wild(p, name[..k]) && Wild(q, name[k..])
    decreases |p|
  {
    if p == [] {
      k := 0;
      assert p + q == q && name[0..] == name;
    } else {
      assert (p + q)[1..] == p[1..] + q;
      if p[0] == '*' {
        var i :| 0 <= i <= |name| && Wild((p + q)[1..], name[i..]);
        var j := WildCut(p[1..], q, name[i..]);
        k := i + j;
        assert name[..k][i..] == name[i..][..j];
        assert name[i..][j..] == name[k..];
      } else {
        var j := WildCut(p[1..], q, name[1..]);
        k := 1 + j;
        assert name[..k][1..] == name[1..][..j];
        assert name[1..][j..] == name[k..];
      }
    }
  }

  /** One part can take the first `i` characters. */
  predicate Takes(part: Part, name: string, i: nat) {
    i <= |name| &&
    match part
    case AnySequence => true
    case AnyOne => i == 1
    case Literal(text) => i == |text| && name[..i] == text
  }

  lemma PartsStep(parts: seq<Part>, name: string, i: nat)
    requires parts != [] && Takes(parts[0], name, i) && MatchParts(parts[1..], name[i..])
    ensures MatchParts(parts, name)
  {
  }

  lemma PartsFirst(parts: seq<Part>, name: string) returns (i: nat)
    requires parts != [] && MatchParts(parts, name)
    ensures Takes(parts[0], name, i) && MatchParts(parts[1..], name[i..])
  {
    match parts[0]
    case AnySequence => i :| 0 <= i <= |name| && MatchParts(parts[1..], name[i..]);
    case AnyOne => i := 1;
    case Literal(text) => i := |text|;
  }

  lemma JoinFacts(a: string, b: string, i: nat)
    requires i <= |a|
    ensures (a + b)[i..] == a[i..] + b && (a + b)[..i] == a[..i]
  {
  }

  lemma CutFacts(name: string, i: nat, j: nat)
    requires i + j <= |name|
    ensures name[..i + j][i..] == name[i..][..j] && name[..i + j][..i] == name[..i]
    ensures name[i..][j..] == name[i + j..]
  {
  }

  lemma {:induction false} PartsJoin(ps: seq<Part>, qs: seq<Part>, a: string, b: string)
    requires MatchParts(ps, a) && MatchParts(qs, b)
    ensures MatchParts(ps + qs, a + b)
    decreases |ps|
  {
    if ps == [] {
      assert ps + qs == qs && a + b == b;
    } else {
      var i := PartsFirst(ps, a);
      PartsJoin(ps[1..], qs, a[i..], b);
      assert (ps + qs)[1..] == ps[1..] + qs;
      JoinFacts(a, b, i);
      PartsStep(ps + qs, a + b, i);
    }
  }

  lemma PartsCut(ps: seq<Part>, qs: seq<Part>, name: string) returns (k: nat)
    requires MatchParts(ps + qs, name)
    ensures k <= |name| && MatchParts(ps, name[..k]) && MatchParts(qs, name[k..])
  {
    k := PartsCutOf(ps, qs, ps + qs, name);
  }

  lemma {:induction false} PartsCutOf(ps: seq<Part>, qs: seq<Part>, all: seq<Part>, name: string) returns (k: nat)
    requires all == ps + qs && MatchParts(all, name)
    ensures k <= |name| && MatchParts(ps, name[..k]) && MatchParts(qs, name[k..])
    decreases |ps|
  {
    if ps == [] {
      k := 0;
      assert all == qs && name[0..] == name;
    } else {
      var i := PartsFirst(all, name);
      var rest := name[i..];
      assert all[1..] == ps[1..] + qs;
      var j := PartsCutOf(ps[1..], qs, all[1..], rest);
      k := i + j;
      CutStep(ps, qs, name, i, j, rest);
    }
  }

  lemma CutStep(ps: seq<Part>, qs: seq<Part>, name: string, i: nat, j: nat, rest: string)
    requires ps != [] && Takes(ps[0], name, i) && rest == name[i..] && j <= |rest|
    requires MatchParts(ps[1..], rest[..j]) && MatchParts(qs, rest[j..])
    ensures MatchParts(ps, name[..i + j]) && MatchParts(qs, name[i + j..])
  {
    CutFacts(name, i, j);
    PartsStep(ps, name[..i + j], i);
  }

  /** The compiled parts accept exactly the names the text means. */
  ghost predicate SameNames(parts: seq<Part>, pattern: string) {
    forall name :: MatchParts(parts, name) <==> Wild(pattern, name)
  }

  lemma SameNamesJoin(ps: seq<Part>, p: string, qs: seq<Part>, q: string)
    requires SameNames(ps, p) && SameNames(qs, q)
    ensures SameNames(ps + qs, p + q)
  {
    forall name ensures MatchParts(ps + qs, name) <==> Wild(p + q, name) {
      if MatchParts(ps + qs, name) {
        var k := PartsCut(ps, qs, name);
        WildWhole(p, q, name, k);
      }
      if Wild(p + q, name) {
        var k := WildCut(p, q, name);
        PartsWhole(ps, qs, name, k);
      }
    }
  }

  lemma WildWhole(p: string, q: string, name: string, k: nat)
    requires k <= |name| && Wild(p, name[..k]) && Wild(q, name[k..])
    ensures Wild(p + q, name)
  {
    WildJoin(p, q, name[..k], name[k..]);
    assert name[..k] + name[k..] == name;
  }

  lemma PartsWhole(ps: seq<Part>, qs: seq<Part>, name: string, k: nat)
    requires k <= |name| && MatchParts(ps, name[..k]) && MatchParts(qs, name[k..])
    ensures MatchParts(ps + qs, name)
  {
    PartsJoin(ps, qs, name[..k], name[k..]);
    assert name[..k] + name[k..] == name;
  }

  /** Equivalent tails stay equivalent behind any head. */
  lemma {:induction false} SameTail(ps: seq<Part>, xs: seq<Part>, ys: seq<Part>, name: string)
    requires forall n :: MatchParts(xs, n) <==> MatchParts(ys, n)
    ensures MatchParts(ps + xs, name) ==> MatchParts(ps + ys, name)
  {
    if MatchParts(ps + xs, name) {
      var k := PartsCut(ps, xs, name);
      PartsWhole(ps, ys, name, k);
    }
  }

  lemma SameNamesBase(c: char)
    ensures SameNames([], [])
    ensures SameNames([AnySequence], "*") && SameNames([AnyOne], "?")
    ensures c != '*' && c != '?' ==> SameNames([Literal([c])], [c])
  {
    forall name ensures MatchParts([AnySequence], name) && Wild("*", name) {
      assert name[|name|..] == [];
      assert [AnySequence][1..] == [] && "*"[1..] == [];
      assert MatchParts([AnySequence][1..], name[|name|..]) && Wild("*"[1..], name[|name|..]);
    }
  }

  lemma LiteralOnly(text: string, name: string)
    ensures MatchParts([Literal(text)], name) <==> name == text
  {
    if text <= name {
      assert name[..|text|] == text;
    }
  }

  lemma LiteralsMerge(a: string, b: string, name: string)
    ensures MatchParts([Literal(a), Literal(b)], name) <==> MatchParts([Literal(a + b)], name)
  {
    LiteralOnly(a + b, name);
    assert [Literal(a), Literal(b)][1..] == [Literal(b)];
    if a <= name {
      LiteralOnly(b, name[|a|..]);
      assert name == a + name[|a|..];
    }
  }

  lemma StarsCollapse(name: string)
    ensures MatchParts([AnySequence, AnySequence], name) <==> MatchParts([AnySequence], name)
  {
    SameNamesBase('a');
    assert Wild("*", name) by {
      assert name[|name|..] == [] && "*"[1..] == [];
      assert Wild("*"[1..], name[|name|..]);
    }
    assert [AnySequence, AnySequence][1..] == [AnySequence];
    assert name[0..] == name;
    PartsStep([AnySequence, AnySequence], name, 0);
  }

  /** Replacing the end of a compiled pattern by an equivalent one keeps its meaning. */
  lemma SameNamesTail(ps: seq<Part>, xs: seq<Part>, ys: seq<Part>, pattern: string)
    requires SameNames(ps + xs, pattern) && forall n :: MatchParts(xs, n) <==> MatchParts(ys, n)
    ensures SameNames(ps + ys, pattern)
  {
    forall name ensures MatchParts(ps + ys, name) <==> Wild(pattern, name) {
      SameTail(ps, xs, ys, name);
      SameTail(ps, ys, xs, name);
    }
  }

  function Flushed(parts: seq<Part>, literal: string): (r: seq<Part>) {
    if literal == [] then parts else parts + [Literal(literal)]
  }

  lemma FlushedExtends(parts: seq<Part>, literal: string, c: char, pattern: string)
    requires c != '*' && c != '?' && SameNames(Flushed(parts, literal), pattern)
    ensures SameNames(Flushed(parts, literal + [c]), pattern + [c])
  {
    SameNamesBase(c);
    SameNamesJoin(Flushed(parts, literal), pattern, [Literal([c])], [c]);
    if literal == [] {
      assert literal + [c] == [c];
    } else {
      assert parts + [Literal(literal)] + [Literal([c])] == parts + [Literal(literal), Literal([c])];
      forall n ensures MatchParts([Literal(literal), Literal([c])], n) <==> MatchParts([Literal(literal + [c])], n) {
        LiteralsMerge(literal, [c], n);
      }
      SameNamesTail(parts, [Literal(literal), Literal([c])], [Literal(literal + [c])], pattern + [c]);
    }
  }

  lemma StarExtends(parts: seq<Part>, pattern: string)
    requires SameNames(parts, pattern)
    ensures SameNames(parts + [AnySequence], pattern + "*")
    ensures parts != [] && parts[|parts| - 1].AnySequence? ==> SameNames(parts, pattern + "*")
  {
    SameNamesBase('a');
    SameNamesJoin(parts, pattern, [AnySequence], "*");
    if parts != [] && parts[|parts| - 1].AnySequence? {
      var init := parts[..|parts| - 1];
      assert parts + [AnySequence] == init + [AnySequence, AnySequence];
      assert parts == init + [AnySequence];
      forall n ensures MatchParts([AnySequence, AnySequence], n) <==> MatchParts([AnySequence], n) {
        StarsCollapse(n);
      }
      SameNamesTail(init, [AnySequence, AnySequence], [AnySequence], pattern + "*");
    }
  }

  /** `glob_parts`: literals are gathered, neighbouring stars are merged, and the
      compiled parts accept exactly the names the text means. */
  method GlobParts(raw: string) returns (r: Option<seq<Part>>)
    ensures r.Some? <==> raw != []
    ensures r.Some? ==> SameNames(r.value, raw)
  {
    var parts: seq<Part> := [];
    var literal: string := [];
    SameNamesBase('a');
    for i := 0 to |raw|
      invariant SameNames(Flushed(parts, literal), raw[..i])
      invariant (parts == [] && literal == []) <==> i == 0
    {
      assert raw[..i + 1] == raw[..i] + [raw[i]];
      if raw[i] == '*' {
        StarExtends(Flushed(parts, literal), raw[..i]);
        if literal != [] {
          parts := parts + [Literal(literal)];
          literal := [];
        }
        if parts == [] || !parts[|parts| - 1].AnySequence? {
          parts := parts + [AnySequence];
        }
      } else if raw[i] == '?' {
        SameNamesJoin(Flushed(parts, literal), raw[..i], [AnyOne], "?");
        if literal != [] {
          parts := parts + [Literal(literal)];
          literal := [];
        }
        parts := parts + [AnyOne];
      } else {
        FlushedExtends(parts, literal, raw[i], raw[..i]);
        literal := literal + [raw[i]];
      }
    }
    assert raw[..|raw|] == raw;
    if literal != [] {
      parts := parts + [Literal(literal)];
    }
    if parts == [] {
      return None;
    }
    return Some(parts);
  }

  // -------------------------------------------------------------------- braces

  function IndexOf(text: string, c: char): (r: Option<nat>)
    ensures r.None? <==> c !in text
    ensures r.Some? ==> r.value < |text| && text[r.value] == c && c !in text[..r.value]
  {
    if text == [] then None
    else if text[0] == c then Some(0)
    else
      match IndexOf(text[1..], c)
      case None => None
      case Some(i) =>
        assert text[..i + 1] == [text[0]] + text[1..][..i];
        Some(i + 1)
  }

  /** `str::split`. */
  function Split(text: string, separator: char): (r: seq<string>)
    ensures r != []
    decreases |text|
  {
    match IndexOf(text, separator)
    case None => [text]
    case Some(i) => [text[..i]] + Split(text[i + 1..], separator)
  }

  datatype Brace = Brace(prefix: string, choices: seq<string>, suffix: string)

  datatype BraceSplit = NoBrace | Malformed | Braced(brace: Brace)

  /** The first brace group of a text. */
  function FirstBrace(raw: string): (r: BraceSplit)
    ensures r.Braced? ==> |r.brace.suffix| < |raw|
  {
    match IndexOf(raw, '{')
    case None => if '}' in raw then Malformed else NoBrace
    case Some(open) =>
      match IndexOf(raw[open + 1..], '}')
      case None => Malformed
      case Some(length) =>
        var inside := raw[open + 1..][..length];
        var choices := Split(inside, ',');
        if |choices| < 2 || [] in choices || '{' in inside || '}' in inside then Malformed
        else Braced(Brace(raw[..open], choices, raw[open + 1..][length + 1..]))
  }

  const MAX_ALTERNATIVES: nat := 32

  function Row(prefix: string, suffixes: seq<string>): (r: seq<string>)
    ensures |r| == |suffixes|
  {
    if suffixes == [] then []
    else Row(prefix, suffixes[..|suffixes| - 1]) + [prefix + suffixes[|suffixes| - 1]]
  }

  function Product(prefix: string, choices: seq<string>, suffixes: seq<string>): (r: seq<string>) {
    if choices == [] then []
    else
      var n := |choices| - 1;
      Product(prefix, choices[..n], suffixes) + Row(prefix + choices[n], suffixes)
  }

  /** What `expand_brace_alternatives` returns. */
  function Expand(raw: string): (r: Option<seq<string>>)
    decreases |raw|
  {
    match FirstBrace(raw)
    case NoBrace => Some([raw])
    case Malformed => None
    case Braced(b) =>
      match Expand(b.suffix)
      case None => None
      case Some(suffixes) =>
        if |Product(b.prefix, b.choices, suffixes)| > MAX_ALTERNATIVES then None
        else Some(Product(b.prefix, b.choices, suffixes))
  }

  /** The product is longer than what the loops have built before they end. */
  lemma {:induction false} ProductLonger(prefix: string, choices: seq<string>, suffixes: seq<string>, i: nat, j: nat)
    requires i < |choices| && j < |suffixes|
    ensures |Product(prefix, choices[..i], suffixes)| + j < |Product(prefix, choices, suffixes)|
    decreases |choices|
  {
    var n := |choices| - 1;
    if i < n {
      assert choices[..n][..i] == choices[..i];
      ProductLonger(prefix, choices[..n], suffixes, i, j);
    }
  }

  lemma {:induction false} ProductMembers(prefix: string, choices: seq<string>, suffixes: seq<string>, text: string)
    ensures text in Product(prefix, choices, suffixes) <==>
            exists c, t :: c in choices && t in suffixes && text == prefix + c + t
  {
    if choices != [] {
      var n := |choices| - 1;
      ProductMembers(prefix, choices[..n], suffixes, text);
      assert choices == choices[..n] + [choices[n]];
      RowMembers(prefix + choices[n], suffixes, text);
    }
  }

  lemma {:induction false} RowMembers(prefix: string, suffixes: seq<string>, text: string)
    ensures text in Row(prefix, suffixes) <==> exists t :: t in suffixes && text == prefix + t
  {
    if suffixes != [] {
      var n := |suffixes| - 1;
      RowMembers(prefix, suffixes[..n], text);
      assert suffixes == suffixes[..n] + [suffixes[n]];
    }
  }

  /** The two loops of `expand_brace_alternatives`. */
  method BuildProduct(prefix: string, choices: seq<string>, suffixes: seq<string>) returns (r: Option<seq<string>>)
    ensures r == if |Product(prefix, choices, suffixes)| > MAX_ALTERNATIVES then None
                 else Some(Product(prefix, choices, suffixes))
  {
    var expanded: seq<string> := [];
    for i := 0 to |choices|
      invariant expanded == Product(prefix, choices[..i], suffixes) && |expanded| <= MAX_ALTERNATIVES
    {
      var stem := prefix + choices[i];
      ghost var before := expanded;
      for j := 0 to |suffixes|
        invariant expanded == before + Row(stem, suffixes[..j]) && |expanded| <= MAX_ALTERNATIVES
      {
        if |expanded| >= MAX_ALTERNATIVES {
          ProductLonger(prefix, choices, suffixes, i, j);
          return None;
        }
        expanded := expanded + [stem + suffixes[j]];
        assert suffixes[..j + 1][..j] == suffixes[..j];
      }
      assert suffixes[..|suffixes|] == suffixes;
      assert choices[..i + 1][..i] == choices[..i];
    }
    assert choices[..|choices|] == choices;
    return Some(expanded);
  }

  /** `expand_brace_alternatives`. */
  method ExpandBraceAlternatives(raw: string) returns (r: Option<seq<string>>)
    ensures r == Expand(raw)
    decreases |raw|
  {
    match FirstBrace(raw)
    case NoBrace => return Some([raw]);
    case Malformed => return None;
    case Braced(b) =>
      var rest := ExpandBraceAlternatives(b.suffix);
      if rest.None? {
        return None;
      }
      r := BuildProduct(b.prefix, b.choices, rest.value);
  }

  /** The declarative meaning of one pattern segment: the text around a brace
      group, with any one of its choices in the middle. */
  ghost predicate Denotes(raw: string, name: string)
    decreases |raw|
  {
    match FirstBrace(raw)
    case NoBrace => Wild(raw, name)
    case Malformed => false
    case Braced(b) =>
      exists choice, i: nat, j: nat ::
        && choice in b.choices && i <= j <= |name|
        && Wild(b.prefix, name[..i]) && Wild(choice, name[i..j]) && Denotes(b.suffix, name[j..])
  }

  ghost predicate AnyWild(alternatives: seq<string>, name: string) {
    exists a :: a in alternatives && Wild(a, name)
  }

  lemma ProductCut(b: Brace, suffixes: seq<string>, name: string)
    returns (choice: string, i: nat, j: nat, suffix: string)
    requires AnyWild(Product(b.prefix, b.choices, suffixes), name)
    ensures choice in b.choices && suffix in suffixes && i <= j <= |name|
    ensures Wild(b.prefix, name[..i]) && Wild(choice, name[i..j]) && Wild(suffix, name[j..])
  {
    var a :| a in Product(b.prefix, b.choices, suffixes) && Wild(a, name);
    ProductMembers(b.prefix, b.choices, suffixes, a);
    choice, suffix :| choice in b.choices && suffix in suffixes && a == b.prefix + choice + suffix;
    j := WildCut(b.prefix + choice, suffix, name);
    i := WildCut(b.prefix, choice, name[..j]);
    assert name[..j][..i] == name[..i] && name[..j][i..] == name[i..j];
  }

  lemma ProductJoin(b: Brace, suffixes: seq<string>, name: string, choice: string, i: nat, j: nat, suffix: string)
    requires choice in b.choices && suffix in suffixes && i <= j <= |name|
    requires Wild(b.prefix, name[..i]) && Wild(choice, name[i..j]) && Wild(suffix, name[j..])
    ensures AnyWild(Product(b.prefix, b.choices, suffixes), name)
  {
    assert name[..j][..i] == name[..i] && name[..j][i..] == name[i..j];
    WildWhole(b.prefix, choice, name[..j], i);
    WildWhole(b.prefix + choice, suffix, name, j);
    ProductMembers(b.prefix, b.choices, suffixes, b.prefix + choice + suffix);
  }

  /** Brace expansion is sound and complete for that meaning. */
  lemma {:induction false} ExpandMeans(raw: string, name: string)
    requires Expand(raw).Some?
    ensures AnyWild(Expand(raw).value, name) <==> Denotes(raw, name)
    decreases |raw|
  {
    match FirstBrace(raw)
    case NoBrace =>
    case Braced(b) =>
      var suffixes := Expand(b.suffix).value;
      if AnyWild(Expand(raw).value, name) {
        var choice, i, j, suffix := ProductCut(b, suffixes, name);
        ExpandMeans(b.suffix, name[j..]);
        assert Denotes(b.suffix, name[j..]);
      }
      if Denotes(raw, name) {
        var choice, i: nat, j: nat :|
          && choice in b.choices && i <= j <= |name|
          && Wild(b.prefix, name[..i]) && Wild(choice, name[i..j]) && Denotes(b.suffix, name[j..]);
        ExpandMeans(b.suffix, name[j..]);
        var suffix :| suffix in suffixes && Wild(suffix, name[j..]);
        ProductJoin(b, suffixes, name, choice, i, j, suffix);
      }
  }

  // ------------------------------------------------------------------ segments

  datatype Segment = Segment(alternatives: seq<seq<Part>>, recursive: bool) {
    predicate Matches(name: string) {
      exists parts | parts in alternatives :: MatchParts(parts, name)
    }
  }

  function NonEmpty(raws: seq<string>): (r: seq<string>)
    ensures [] !in r
  {
    if raws == [] then []
    else (if raws[0] == [] then [] else [raws[0]]) + NonEmpty(raws[1..])
  }

  /** The slash-separated segments of a pattern; empty ones are skipped. */
  function RawSegments(pattern: string): (r: seq<string>)
    ensures [] !in r
  {
    NonEmpty(Split(pattern, '/'))
  }

  const RECURSIVE: string := "**"

  /** A compiled segment means what its text denotes. */
  ghost predicate Compiles(segment: Segment, raw: string) {
    && (segment.recursive <==> raw == RECURSIVE)
    && forall name :: segment.Matches(name) <==> Denotes(raw, name)
  }

  ghost predicate Accepted(raws: seq<string>) {
    raws != [] && forall raw :: raw in raws ==> Expand(raw).Some?
  }

  /** The alternatives of an accepted segment, each compiled. */
  method CompileSegment(raw: string) returns (r: Option<Segment>)
    requires raw != []
    ensures r.Some? <==> Expand(raw).Some?
    ensures r.Some? ==> Compiles(r.value, raw)
  {
    var expanded := ExpandBraceAlternatives(raw);
    if expanded.None? {
      return None;
    }
    var texts := expanded.value;
    var alternatives: seq<seq<Part>> := [];
    for i := 0 to |texts|
      invariant |alternatives| == i
      invariant forall k :: 0 <= k < i ==> SameNames(alternatives[k], texts[k])
    {
      ExpandedNonEmpty(raw, texts[i]);
      var parts := GlobParts(texts[i]);
      alternatives := alternatives + [parts.value];
    }
    var segment := Segment(alternatives, raw == RECURSIVE);
    forall name ensures segment.Matches(name) <==> Denotes(raw, name) {
      ExpandMeans(raw, name);
      AlternativesMeanTexts(alternatives, texts, name);
    }
    return Some(segment);
  }

  lemma AlternativesMeanTexts(alternatives: seq<seq<Part>>, texts: seq<string>, name: string)
    requires |alternatives| == |texts|
    requires forall k :: 0 <= k < |texts| ==> SameNames(alternatives[k], texts[k])
    ensures (exists parts :: parts in alternatives && MatchParts(parts, name)) <==> AnyWild(texts, name)
  {
    if parts :| parts in alternatives && MatchParts(parts, name) {
      var k :| 0 <= k < |alternatives| && alternatives[k] == parts;
      assert texts[k] in texts && Wild(texts[k], name);
    }
    if AnyWild(texts, name) {
      var t :| t in texts && Wild(t, name);
      var k :| 0 <= k < |texts| && texts[k] == t;
      assert alternatives[k] in alternatives && MatchParts(alternatives[k], name);
    }
  }

  /** No alternative of a non-empty text is empty, so compiling one never fails. */
  lemma ExpandedNonEmpty(raw: string, text: string)
    requires raw != [] && Expand(raw).Some? && text in Expand(raw).value
    ensures text != []
  {
    match FirstBrace(raw)
    case NoBrace =>
    case Braced(b) =>
      ProductMembers(b.prefix, b.choices, Expand(b.suffix).value, text);
  }

  /** `glob_segments`: fails exactly on patterns without a segment or with a bad
      brace group, and otherwise compiles each segment to its meaning. */
  method GlobSegments(pattern: string) returns (r: Option<seq<Segment>>)
    ensures r.Some? <==> Accepted(RawSegments(pattern))
    ensures r.Some? ==>
              var raws := RawSegments(pattern);
              && |r.value| == |raws|
              && forall k :: 0 <= k < |raws| ==> Compiles(r.value[k], raws[k])
  {
    var raws := RawSegments(pattern);
    var segments: seq<Segment> := [];
    for i := 0 to |raws|
      invariant |segments| == i
      invariant forall k :: 0 <= k < i ==> Expand(raws[k]).Some? && Compiles(segments[k], raws[k])
    {
      var segment := CompileSegment(raws[i]);
      if segment.None? {
        assert raws[i] in raws;
        return None;
      }
      segments := segments + [segment.value];
    }
    if segments == [] {
      return None;
    }
    return Some(segments);
  }
}
