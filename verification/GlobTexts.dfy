/** How a pattern text is read: its segments, its brace groups and its plain parts. */
module GlobTexts {
  import opened Base
  import Utf8
  import opened GlobPattern
  import opened GlobWalk

  // --------------------------------------------------------------------- splitting

  function JoinWith(pieces: seq<string>, separator: char): (r: string) {
    if pieces == [] then []
    else if |pieces| == 1 then pieces[0]
    else pieces[0] + [separator] + JoinWith(pieces[1..], separator)
  }

  ghost predicate Without(pieces: seq<string>, separator: char) {
    forall piece :: piece in pieces ==> separator !in piece
  }

  lemma JoinCons(head: string, rest: seq<string>, separator: char)
    requires rest != []
    ensures JoinWith([head] + rest, separator) == head + [separator] + JoinWith(rest, separator)
  {
    assert ([head] + rest)[1..] == rest;
  }

  lemma CutAt(text: string, c: char)
    requires c in text
    ensures var i := IndexOf(text, c).value; text == text[..i] + [c] + text[i + 1..]
  {
  }

  /** The pieces of a split hold no separator, and joined by it they are the text. */
  lemma {:induction false} SplitJoins(text: string, separator: char)
    ensures JoinWith(Split(text, separator), separator) == text && Without(Split(text, separator), separator)
    decreases |text|
  {
    match IndexOf(text, separator)
    case None =>
    case Some(i) =>
      SplitJoins(text[i + 1..], separator);
      JoinCons(text[..i], Split(text[i + 1..], separator), separator);
      CutAt(text, separator);
  }

  lemma {:induction false} IndexIs(a: string, c: char, b: string)
    requires c !in a
    ensures IndexOf(a + [c] + b, c) == Some(|a|)
  {
    if a != [] {
      assert (a + [c] + b)[1..] == a[1..] + [c] + b;
      IndexIs(a[1..], c, b);
    }
  }

  lemma CutIs(text: string, a: string, c: char, b: string)
    requires text == a + [c] + b && c !in a
    ensures IndexOf(text, c) == Some(|a|) && text[..|a|] == a && text[|a| + 1..] == b
  {
    IndexIs(a, c, b);
  }

  /** Splitting undoes joining. */
  lemma {:induction false} JoinSplits(pieces: seq<string>, separator: char)
    requires pieces != [] && Without(pieces, separator)
    ensures Split(JoinWith(pieces, separator), separator) == pieces
  {
    if |pieces| > 1 {
      JoinSplits(pieces[1..], separator);
      SplitFirst(JoinWith(pieces, separator), pieces[0], separator, JoinWith(pieces[1..], separator));
      assert [pieces[0]] + pieces[1..] == pieces;
    } else {
      assert pieces == [pieces[0]];
    }
  }

  lemma SplitFirst(text: string, head: string, separator: char, rest: string)
    requires text == head + [separator] + rest && separator !in head
    ensures Split(text, separator) == [head] + Split(rest, separator)
  {
    CutIs(text, head, separator, rest);
  }

  lemma Around(head: string, c: char, tail: string, b: string)
    ensures head + [c] + tail + [c] + b == head + [c] + (tail + [c] + b)
  {
  }

  lemma {:induction false} SplitAcross(whole: string, a: string, separator: char, b: string)
    requires whole == a + [separator] + b
    ensures Split(whole, separator) == Split(a, separator) + Split(b, separator)
    decreases |a|
  {
    match IndexOf(a, separator)
    case None => SplitFirst(whole, a, separator, b);
    case Some(i) =>
      var head, tail := a[..i], a[i + 1..];
      var rest := tail + [separator] + b;
      CutAt(a, separator);
      Around(head, separator, tail, b);
      SplitFirst(whole, head, separator, rest);
      SplitAcross(rest, tail, separator, b);
  }

  // ---------------------------------------------------------------------- segments

  lemma {:induction false} NonEmptyConcat(a: seq<string>, b: seq<string>)
    ensures NonEmpty(a + b) == NonEmpty(a) + NonEmpty(b)
  {
    if a == [] {
      assert a + b == b;
    } else {
      assert (a + b)[1..] == a[1..] + b;
      NonEmptyConcat(a[1..], b);
    }
  }

  lemma SegmentsAcross(whole: string, a: string, b: string)
    requires whole == a + ['/'] + b
    ensures RawSegments(whole) == RawSegments(a) + RawSegments(b)
  {
    SplitAcross(whole, a, '/', b);
    NonEmptyConcat(Split(a, '/'), Split(b, '/'));
  }

  lemma OwnSegment(a: string)
    requires a != [] && '/' !in a
    ensures RawSegments(a) == [a]
  {
    var only := [a];
    assert Split(a, '/') == only && only[1..] == [];
    assert NonEmpty(only) == [a] + NonEmpty(only[1..]);
  }

  /** The segments on both sides of a slash, in order; a text without one is its own segment. */
  lemma SegmentsOf(a: string, b: string)
    ensures RawSegments(a + "/" + b) == RawSegments(a) + RawSegments(b)
    ensures RawSegments("") == [] && ('/' !in a && a != "" ==> RawSegments(a) == [a])
  {
    SegmentsAcross(a + "/" + b, a, b);
    assert Split("", '/') == [""] && [""][1..] == [];
    assert NonEmpty([""]) == [] + NonEmpty([]);
    if '/' !in a && a != "" {
      OwnSegment(a);
    }
  }

  // ------------------------------------------------------------------------ braces

  /** Two choices or more in braces, the first of a text. */
  ghost predicate Shape(raw: string, b: Brace) {
    && raw == b.prefix + "{" + JoinWith(b.choices, ',') + "}" + b.suffix
    && '{' !in b.prefix && |b.choices| >= 2
    && forall choice :: choice in b.choices ==> choice != [] && ',' !in choice && '{' !in choice && '}' !in choice
  }

  lemma {:induction false} JoinHolds(pieces: seq<string>, separator: char, c: char)
    requires c != separator
    ensures c in JoinWith(pieces, separator) <==> exists piece :: piece in pieces && c in piece
  {
    if |pieces| == 1 {
      assert pieces == [pieces[0]];
    } else if pieces != [] {
      JoinHolds(pieces[1..], separator, c);
      assert pieces == [pieces[0]] + pieces[1..];
    }
  }

  lemma Regroup(prefix: string, inside: string, suffix: string)
    ensures prefix + "{" + inside + "}" + suffix == prefix + "{" + (inside + "}" + suffix)
  {
  }

  lemma BracedShape(raw: string)
    requires FirstBrace(raw).Braced?
    ensures Shape(raw, FirstBrace(raw).brace)
  {
    var b := FirstBrace(raw).brace;
    var after := raw[IndexOf(raw, '{').value + 1..];
    var inside := after[..IndexOf(after, '}').value];
    CutAt(raw, '{');
    CutAt(after, '}');
    Regroup(b.prefix, inside, b.suffix);
    ChoicesPlain(inside, b.choices);
  }

  lemma ChoicesPlain(inside: string, choices: seq<string>)
    requires choices == Split(inside, ',')
    ensures JoinWith(choices, ',') == inside && Without(choices, ',')
    ensures '{' !in inside <==> Without(choices, '{')
    ensures '}' !in inside <==> Without(choices, '}')
  {
    SplitJoins(inside, ',');
    JoinHolds(choices, ',', '{');
    JoinHolds(choices, ',', '}');
  }

  lemma ShapeBraced(raw: string, b: Brace)
    requires Shape(raw, b)
    ensures FirstBrace(raw) == Braced(b)
  {
    var inside := JoinWith(b.choices, ',');
    var after := inside + "}" + b.suffix;
    JoinSplits(b.choices, ',');
    ChoicesPlain(inside, b.choices);
    Regroup(b.prefix, inside, b.suffix);
    CutIs(raw, b.prefix, '{', after);
    CutIs(after, inside, '}', b.suffix);
  }

  /** The reading of braces is fixed: a text without any is plain, the first group with two
      or more plain choices is taken, and every other text with a brace is refused. */
  lemma BracesExactly(raw: string, b: Brace)
    ensures FirstBrace(raw) == NoBrace <==> '{' !in raw && '}' !in raw
    ensures FirstBrace(raw) == Braced(b) <==> Shape(raw, b)
    ensures FirstBrace(raw).Braced? <==> exists c :: Shape(raw, c)
  {
    if FirstBrace(raw).Braced? {
      BracedShape(raw);
    }
    if Shape(raw, b) {
      ShapeBraced(raw, b);
    }
    if c :| Shape(raw, c) {
      ShapeBraced(raw, c);
    }
  }

  // ------------------------------------------------------------------- plain patterns

  /** A name that a pattern can only mean literally. */
  predicate Plain(name: string) {
    name != [] && '/' !in name && '*' !in name && '?' !in name && '{' !in name && '}' !in name
  }

  lemma {:induction false} PlainWild(text: string, name: string)
    requires '*' !in text && '?' !in text
    ensures Wild(text, name) <==> name == text
  {
    if text != [] && name != [] {
      PlainWild(text[1..], name[1..]);
      assert text == [text[0]] + text[1..] && name == [name[0]] + name[1..];
    }
  }

  lemma {:induction false} PlainSegments(path: Path)
    requires path != [] && forall name :: name in path ==> Plain(name)
    ensures RawSegments(JoinWith(path, '/')) == path
  {
    JoinSplits(path, '/');
    AllNonEmpty(path);
  }

  lemma {:induction false} AllNonEmpty(pieces: seq<string>)
    requires [] !in pieces
    ensures NonEmpty(pieces) == pieces
  {
    if pieces != [] {
      AllNonEmpty(pieces[1..]);
    }
  }

  lemma NotRecursive(name: string)
    requires Plain(name)
    ensures name != RECURSIVE
  {
    assert RECURSIVE[0] == '*';
  }

  lemma {:induction false} PlainDenotes(raws: Path, path: Path)
    requires forall name :: name in raws ==> Plain(name)
    ensures PathDenoted(raws, path) <==> path == raws
  {
    if raws != [] {
      var raw := raws[0];
      NotRecursive(raw);
      if path != [] {
        PlainWild(raw, path[0]);
        PlainDenotes(raws[1..], path[1..]);
        assert raws == [raws[0]] + raws[1..] && path == [path[0]] + path[1..];
      }
    }
  }

  /** A pattern that writes out a path denotes that path and no other. */
  lemma PlainPatternsExact(wanted: Path, path: Path)
    requires wanted != [] && forall name :: name in wanted ==> Plain(name)
    ensures PathDenoted(RawSegments(JoinWith(wanted, '/')), path) <==> path == wanted
  {
    PlainSegments(wanted);
    PlainDenotes(wanted, path);
  }

  // ----------------------------------------------------------------------- wildcards

  /** `?` is any one character, `*` any text, and a text means what its parts mean side by side. */
  lemma WildExactly(p: string, q: string, name: string)
    ensures Wild("?", name) <==> |name| == 1
    ensures Wild("*", name)
    ensures Wild(p + q, name) <==> exists k :: 0 <= k <= |name| && Wild(p, name[..k]) && Wild(q, name[k..])
  {
    assert "?"[1..] == "" && "*"[1..] == "";
    assert name[|name|..] == "" && Wild("", name[|name|..]);
    if Wild(p + q, name) {
      var k := WildCut(p, q, name);
    }
    if k :| 0 <= k <= |name| && Wild(p, name[..k]) && Wild(q, name[k..]) {
      WildWhole(p, q, name, k);
    }
  }

  lemma LastOnly(path: Path, name: string)
    ensures (exists k | 0 <= k <= |path| :: path[k..] == [name]) <==> path != [] && path[|path| - 1] == name
  {
    if path != [] {
      assert path[|path| - 1..] == [path[|path| - 1]];
    }
    if k :| 0 <= k <= |path| && path[k..] == [name] {
      assert |path[k..]| == 1;
    }
  }

  lemma AnyDepthSegments(name: string)
    requires Plain(name)
    ensures RawSegments("**/" + name) == [RECURSIVE, name]
  {
    SegmentsAcross("**/" + name, RECURSIVE, name);
    OwnSegment(RECURSIVE);
    OwnSegment(name);
  }

  lemma AnyDepthDenotes(name: string, raws: seq<string>, path: Path)
    requires Plain(name) && raws == [RECURSIVE, name]
    ensures PathDenoted(raws, path) <==> path != [] && path[|path| - 1] == name
  {
    assert raws[1..] == [name];
    forall k | 0 <= k <= |path| ensures PathDenoted([name], path[k..]) <==> path[k..] == [name] {
      PlainDenotes([name], path[k..]);
    }
    LastOnly(path, name);
  }

  /** `**` and a name: every file of that name, at any depth. */
  lemma AnyDepthExactly(name: string, path: Path)
    requires Plain(name)
    ensures PathDenoted(RawSegments("**/" + name), path) <==> path != [] && path[|path| - 1] == name
  {
    AnyDepthSegments(name);
    AnyDepthDenotes(name, RawSegments("**/" + name), path);
  }

  lemma {:induction false} BelowDenotes(directory: Path, path: Path)
    requires forall name :: name in directory ==> Plain(name)
    ensures PathDenoted(directory + [RECURSIVE], path) <==> |path| > |directory| && path[..|directory|] == directory
  {
    if directory == [] {
      assert directory + [RECURSIVE] == [RECURSIVE];
    } else {
      var raws := directory + [RECURSIVE];
      assert raws[0] == directory[0] && raws[1..] == directory[1..] + [RECURSIVE];
      NotRecursive(directory[0]);
      if path != [] {
        PlainWild(directory[0], path[0]);
        BelowDenotes(directory[1..], path[1..]);
        FirstAndRest(directory, path);
      }
    }
  }

  lemma FirstAndRest(directory: Path, path: Path)
    requires directory != [] && path != []
    ensures |path| > |directory| && path[..|directory|] == directory
       <==> path[0] == directory[0] && |path[1..]| > |directory[1..]| && path[1..][..|directory[1..]|] == directory[1..]
  {
    if |path| > |directory| {
      assert path[..|directory|] == [path[0]] + path[1..][..|directory| - 1];
      assert directory == [directory[0]] + directory[1..];
    }
  }

  lemma BelowSegments(directory: Path, text: string)
    requires directory != [] && (forall name :: name in directory ==> Plain(name)) && text == JoinWith(directory, '/')
    ensures RawSegments(text + "/**") == directory + [RECURSIVE]
  {
    SegmentsAcross(text + "/**", text, RECURSIVE);
    OwnSegment(RECURSIVE);
    PlainSegments(directory);
  }

  /** A directory and `**`: everything below that directory, at any depth. */
  lemma BelowExactly(directory: Path, path: Path)
    requires directory != [] && forall name :: name in directory ==> Plain(name)
    ensures PathDenoted(RawSegments(JoinWith(directory, '/') + "/**"), path)
       <==> |path| > |directory| && path[..|directory|] == directory
  {
    BelowSegments(directory, JoinWith(directory, '/'));
    BelowDenotes(directory, path);
  }

  // ---------------------------------------------------------------------- path texts

  lemma {:induction false} PlainSlashed(name: string)
    requires '\\' !in name
    ensures Slashed(name) == name
  {
    if name != [] {
      PlainSlashed(name[1..]);
      assert name == [name[0]] + name[1..];
    }
  }

  /** The reported text of a path is its names with slashes between them. */
  lemma {:induction false} RenderedJoins(path: Path)
    requires forall name :: name in path ==> '\\' !in name
    ensures Rendered(path) == JoinWith(path, '/')
  {
    if path != [] {
      PlainSlashed(path[0]);
      if |path| > 1 {
        RenderedJoins(path[1..]);
      }
    }
  }

  // ------------------------------------------------------------------ what is accepted

  /** Every brace group of a text is a good one. */
  ghost predicate WellBraced(raw: string)
    decreases |raw|
  {
    match FirstBrace(raw)
    case NoBrace => true
    case Malformed => false
    case Braced(b) => WellBraced(b.suffix)
  }

  function Times(n: nat, m: nat): nat {
    n * m
  }

  /** How many texts the groups of a text stand for. */
  function Combinations(raw: string): nat
    decreases |raw|
  {
    match FirstBrace(raw)
    case NoBrace => 1
    case Malformed => 1
    case Braced(b) => Times(|b.choices|, Combinations(b.suffix))
  }

  lemma {:induction false} ProductSize(prefix: string, choices: seq<string>, suffixes: seq<string>)
    ensures |Product(prefix, choices, suffixes)| == |choices| * |suffixes|
  {
    if choices != [] {
      var n := |choices| - 1;
      ProductSize(prefix, choices[..n], suffixes);
      assert (n + 1) * |suffixes| == n * |suffixes| + |suffixes|;
    }
  }

  lemma AtLeastOnce(n: nat, m: nat)
    requires n >= 1
    ensures n * m >= m
  {
  }

  /** A segment is accepted exactly when its groups are good and stand for at most 32 texts. */
  lemma {:induction false} ExpandsExactly(raw: string)
    ensures Expand(raw).Some? <==> WellBraced(raw) && Combinations(raw) <= 32
    ensures Expand(raw).Some? ==> |Expand(raw).value| == Combinations(raw)
    decreases |raw|
  {
    match FirstBrace(raw)
    case NoBrace =>
    case Malformed =>
    case Braced(b) =>
      ExpandsExactly(b.suffix);
      BracedShape(raw);
      AtLeastOnce(|b.choices|, Combinations(b.suffix));
      if Expand(b.suffix).Some? {
        ProductSize(b.prefix, b.choices, Expand(b.suffix).value);
      }
  }

  /** A request is in order exactly when its pattern has 1 to 4096 bytes without a zero and it
      asks for 1 to 1000 entries. */
  lemma RequestsExactly(pattern: string, maximum: nat)
    ensures ValidRequest(pattern, maximum) <==>
              1 <= |Utf8.Encode(pattern)| <= 4096 && '\0' !in pattern && 1 <= maximum <= 1000
  {
    Utf8.EncodedLength(pattern);
  }
}
