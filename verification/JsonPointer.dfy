/** JSON Pointer texts (RFC 6901): escaping a token as the exporter does, and
    reading a pointer back as section 4 prescribes. */
module JsonPointer {
  import opened Base

  type Tokens = seq<string>

  // ---------------------------------------------------------------------- escaping

  /** Replaces every occurrence of one character by a text. */
  function ReplaceChar(s: string, c: char, with: string): string {
    if s == "" then "" else (if s[0] == c then with else [s[0]]) + ReplaceChar(s[1..], c, with)
  }

  /** `escape_pointer`. */
  function Escape(token: string): string {
    ReplaceChar(ReplaceChar(token, '~', "~0"), '/', "~1")
  }

  /** Replaces `~` followed by one character, from left to right. */
  function ReplacePair(s: string, second: char, with: char): string {
    if |s| < 2 then s
    else if s[0] == '~' && s[1] == second then [with] + ReplacePair(s[2..], second, with)
    else [s[0]] + ReplacePair(s[1..], second, with)
  }

  /** Section 4: first `~1` to `/`, then `~0` to `~`. */
  function Unescape(token: string): string {
    ReplacePair(ReplacePair(token, '1', '/'), '0', '~')
  }

  /** Both replacements at once. */
  function Escaped(token: string): string {
    if token == "" then "" else EscapedChar(token[0]) + Escaped(token[1..])
  }

  function EscapedChar(c: char): string {
    if c == '~' then "~0" else if c == '/' then "~1" else [c]
  }

  lemma {:induction false} ReplaceCharAppend(a: string, b: string, c: char, with: string)
    ensures ReplaceChar(a + b, c, with) == ReplaceChar(a, c, with) + ReplaceChar(b, c, with)
  {
    if a == "" {
      assert a + b == b;
    } else {
      assert (a + b)[1..] == a[1..] + b;
      ReplaceCharAppend(a[1..], b, c, with);
    }
  }

  lemma {:induction false} EscapeIsEscaped(token: string)
    ensures Escape(token) == Escaped(token)
  {
    if token != "" {
      var head := if token[0] == '~' then "~0" else [token[0]];
      EscapeIsEscaped(token[1..]);
      ReplaceCharAppend(head, ReplaceChar(token[1..], '~', "~0"), '/', "~1");
      EscapeHead(token[0]);
    }
  }

  lemma EscapeHead(c: char)
    ensures ReplaceChar(if c == '~' then "~0" else [c], '/', "~1") == EscapedChar(c)
  {
    assert "~0"[1..] == "0" && "0"[1..] == "" && [c][1..] == "";
    assert ReplaceChar("0", '/', "~1") == "0";
  }

  /** The text between the two replacements of section 4. */
  function HalfEscaped(token: string): string {
    if token == "" then "" else (if token[0] == '~' then "~0" else [token[0]]) + HalfEscaped(token[1..])
  }

  lemma {:induction false} UndoSlashes(token: string)
    ensures ReplacePair(Escaped(token), '1', '/') == HalfEscaped(token)
  {
    if token != "" {
      var rest := Escaped(token[1..]);
      UndoSlashes(token[1..]);
      if token[0] == '~' {
        assert Escaped(token) == ['~', '0'] + rest;
        assert Escaped(token)[1..] == ['0'] + rest && (['0'] + rest)[1..] == rest;
        assert ReplacePair(['0'] + rest, '1', '/') == ['0'] + ReplacePair(rest, '1', '/');
        assert ReplacePair(Escaped(token), '1', '/') == ['~'] + ReplacePair(['0'] + rest, '1', '/');
      } else if token[0] == '/' {
        assert Escaped(token) == ['~', '1'] + rest && Escaped(token)[2..] == rest;
      } else {
        assert Escaped(token) == [token[0]] + rest && Escaped(token)[1..] == rest;
      }
    }
  }

  lemma {:induction false} UndoTildes(token: string)
    ensures ReplacePair(HalfEscaped(token), '0', '~') == token
  {
    if token != "" {
      var rest := HalfEscaped(token[1..]);
      UndoTildes(token[1..]);
      if token[0] == '~' {
        assert HalfEscaped(token) == ['~', '0'] + rest && HalfEscaped(token)[2..] == rest;
      } else {
        assert HalfEscaped(token) == [token[0]] + rest && HalfEscaped(token)[1..] == rest;
      }
      assert token == [token[0]] + token[1..];
    }
  }

  /** Escaping is undone by reading, for every token. */
  lemma EscapeRoundTrip(token: string)
    ensures Unescape(Escape(token)) == token
  {
    EscapeIsEscaped(token);
    UndoSlashes(token);
    UndoTildes(token);
  }

  lemma {:induction false} EscapedHasNoSlash(token: string)
    ensures '/' !in Escaped(token)
  {
    if token != "" {
      EscapedHasNoSlash(token[1..]);
    }
  }

  // ---------------------------------------------------------------- whole pointers

  /** The pointer with the given reference tokens. */
  function Render(tokens: Tokens): string {
    if tokens == [] then "" else "/" + Escape(tokens[0]) + Render(tokens[1..])
  }

  /** The characters before the first `/`. */
  function First(s: string): (r: string)
    ensures |r| <= |s| && s[..|r|] == r
  {
    if s == "" || s[0] == '/' then "" else [s[0]] + First(s[1..])
  }

  /** The reference tokens of a pointer text. */
  function Parse(pointer: string): Option<Tokens>
    decreases |pointer|
  {
    if pointer == "" then Some([])
    else if pointer[0] != '/' then None
    else
      var token := First(pointer[1..]);
      match Parse(pointer[1 + |token|..])
      case None => None
      case Some(rest) => Some([Unescape(token)] + rest)
  }

  lemma {:induction false} FirstIs(token: string, rest: string)
    requires '/' !in token && (rest == "" || rest[0] == '/')
    ensures First(token + rest) == token
  {
    if token == "" {
      assert token + rest == rest;
    } else {
      assert (token + rest)[1..] == token[1..] + rest;
      FirstIs(token[1..], rest);
    }
  }

  lemma ParseStep(token: string, rest: string, pointer: string)
    requires '/' !in token && (rest == "" || rest[0] == '/') && Parse(rest).Some?
    requires pointer == "/" + token + rest
    ensures Parse(pointer) == Some([Unescape(token)] + Parse(rest).value)
  {
    FirstIs(token, rest);
    assert pointer[1..] == token + rest && pointer[1 + |token|..] == rest;
  }

  /** A rendered pointer reads back as its tokens. */
  lemma {:induction false} RenderRoundTrip(tokens: Tokens)
    ensures Parse(Render(tokens)) == Some(tokens)
  {
    if tokens != [] {
      var token, rest := Escape(tokens[0]), Render(tokens[1..]);
      EscapeIsEscaped(tokens[0]);
      EscapedHasNoSlash(tokens[0]);
      EscapeRoundTrip(tokens[0]);
      RenderRoundTrip(tokens[1..]);
      ParseStep(token, rest, Render(tokens));
      assert tokens == [tokens[0]] + tokens[1..];
    }
  }

  // ------------------------------------------------------------------ array indices

  function Digit(d: nat): char
    requires d < 10
  {
    ['0', '1', '2', '3', '4', '5', '6', '7', '8', '9'][d]
  }

  predicate IsDigit(c: char) { '0' <= c <= '9' }

  function DigitValue(c: char): nat
    requires IsDigit(c)
  {
    c as int - '0' as int
  }

  /** An index written in decimal. */
  function Decimal(n: nat): (s: string)
    ensures s != "" && forall i :: 0 <= i < |s| ==> IsDigit(s[i])
  {
    if n < 10 then [Digit(n)] else Decimal(n / 10) + [Digit(n % 10)]
  }

  function Value(s: string): nat
    requires forall i :: 0 <= i < |s| ==> IsDigit(s[i])
  {
    if s == "" then 0 else Value(s[..|s| - 1]) * 10 + DigitValue(s[|s| - 1])
  }

  /** Section 4: digits without a leading zero, or a single zero. */
  function Index(token: string): Option<nat> {
    if token != "" && (forall i | 0 <= i < |token| :: IsDigit(token[i])) && (token == "0" || token[0] != '0')
    then Some(Value(token)) else None
  }

  lemma {:induction false} DecimalValue(n: nat)
    ensures Value(Decimal(n)) == n && (n > 0 ==> Decimal(n)[0] != '0')
  {
    var s := Decimal(n);
    if n < 10 {
      assert s[..0] == "";
    } else {
      DecimalValue(n / 10);
      assert s[..|s| - 1] == Decimal(n / 10);
    }
  }

  /** A written index reads back. */
  lemma IndexRoundTrip(n: nat)
    ensures Index(Decimal(n)) == Some(n)
  {
    DecimalValue(n);
  }

  lemma {:induction false} PlainEscape(token: string)
    requires '~' !in token && '/' !in token
    ensures Escape(token) == token
  {
    EscapeIsEscaped(token);
    if token != "" {
      PlainEscape(token[1..]);
      EscapeIsEscaped(token[1..]);
    }
  }

  /** An index needs no escaping. */
  lemma DecimalEscape(n: nat)
    ensures Escape(Decimal(n)) == Decimal(n)
  {
    PlainEscape(Decimal(n));
  }
}
