/** UTF-8, by an encoder and a decoder of its own. */
module Utf8 {
  import opened Base

  predicate Continues(b: byte) {
    0x80 <= b < 0xC0
  }

  // ------------------------------------------------------------------ one character

  function EncodeChar(c: char): (r: Bytes)
    ensures 1 <= |r| <= 4 && !Continues(r[0]) && forall i :: 0 < i < |r| ==> Continues(r[i])
  {
    var n := c as int;
    if n < 0x80 then [n as byte]
    else if n < 0x800 then [(0xC0 + n / 0x40) as byte, (0x80 + n % 0x40) as byte]
    else if n < 0x1_0000 then
      [(0xE0 + n / 0x1000) as byte, (0x80 + n / 0x40 % 0x40) as byte, (0x80 + n % 0x40) as byte]
    else
      [(0xF0 + n / 0x4_0000) as byte, (0x80 + n / 0x1000 % 0x40) as byte, (0x80 + n / 0x40 % 0x40) as byte,
       (0x80 + n % 0x40) as byte]
  }

  /** How many bytes a leading byte announces. */
  function Announced(b: byte): (n: nat)
    ensures n <= 4
  {
    if b < 0x80 then 1 else if b < 0xC0 then 0 else if b < 0xE0 then 2 else if b < 0xF0 then 3 else if b < 0xF8 then 4 else 0
  }

  function Least(length: nat): nat {
    if length <= 1 then 0 else if length == 2 then 0x80 else if length == 3 then 0x800 else 0x1_0000
  }

  /** The six bits of a continuation byte. */
  function Bits(b: byte): int {
    b as int - 0x80
  }

  /** The number the bytes of one character spell. */
  function Spelled(bytes: Bytes): int
    requires 1 <= |bytes| <= 4
  {
    var b := bytes[0] as int;
    if |bytes| == 1 then b
    else if |bytes| == 2 then (b - 0xC0) * 0x40 + Bits(bytes[1])
    else if |bytes| == 3 then ((b - 0xE0) * 0x40 + Bits(bytes[1])) * 0x40 + Bits(bytes[2])
    else (((b - 0xF0) * 0x40 + Bits(bytes[1])) * 0x40 + Bits(bytes[2])) * 0x40 + Bits(bytes[3])
  }

  /** The bytes after the first, up to `n`, all continue it. */
  predicate Followed(text: Bytes, n: nat)
    requires n <= |text|
  {
    forall i | 0 < i < n :: Continues(text[i])
  }

  /** The number is a scalar value that needs that many bytes. */
  predicate Fits(spelled: int, n: nat) {
    Least(n) <= spelled < 0x11_0000 && !(0xD800 <= spelled < 0xE000)
  }

  /** The first character: complete, in its shortest form, and a scalar value. */
  function DecodeChar(text: Bytes): (r: Option<(char, nat)>)
    requires text != []
    ensures r.Some? ==> 1 <= r.value.1 <= |text|
  {
    var n := Announced(text[0]);
    if n == 0 || n > |text| || !Followed(text, n) || !Fits(Spelled(text[..n]), n) then None
    else Some((Spelled(text[..n]) as char, n))
  }

  lemma CharRoundTrip(c: char, rest: Bytes)
    ensures DecodeChar(EncodeChar(c) + rest) == Some((c, |EncodeChar(c)|))
  {
    var enc := EncodeChar(c);
    var text := enc + rest;
    assert text[..|enc|] == enc;
    Pieces(c as int);
    Quotients(c as int);
  }

  lemma Pieces(n: nat)
    ensures n == n / 0x40 * 0x40 + n % 0x40
    ensures n / 0x40 == n / 0x1000 * 0x40 + n / 0x40 % 0x40
    ensures n / 0x1000 == n / 0x4_0000 * 0x40 + n / 0x1000 % 0x40
  {
  }

  lemma DecodedIsEncoded(text: Bytes)
    requires text != [] && DecodeChar(text).Some?
    ensures EncodeChar(DecodeChar(text).value.0) == text[..DecodeChar(text).value.1]
  {
    var (c, n) := DecodeChar(text).value;
    SpelledIsEncoded(text[..n], c);
  }

  lemma Digits(x: nat, y: nat)
    requires y < 0x40
    ensures (x * 0x40 + y) / 0x40 == x && (x * 0x40 + y) % 0x40 == y
  {
  }

  lemma Quotients(n: nat)
    ensures n / 0x40 / 0x40 == n / 0x1000 && n / 0x1000 / 0x40 == n / 0x4_0000
  {
  }

  lemma SpelledIsEncoded(bytes: Bytes, c: char)
    requires 1 <= |bytes| == Announced(bytes[0]) && forall i :: 0 < i < |bytes| ==> Continues(bytes[i])
    requires Spelled(bytes) == c as int >= Least(|bytes|)
    ensures EncodeChar(c) == bytes
  {
    Quotients(c as int);
    if |bytes| == 2 {
      Digits(bytes[0] as int - 0xC0, Bits(bytes[1]));
    } else if |bytes| == 3 {
      Digits(bytes[0] as int - 0xE0, Bits(bytes[1]));
      Digits((bytes[0] as int - 0xE0) * 0x40 + Bits(bytes[1]), Bits(bytes[2]));
    } else if |bytes| == 4 {
      SpelledByFour(bytes, c);
    }
  }

  lemma SpelledByFour(bytes: Bytes, c: char)
    requires |bytes| == 4 && Announced(bytes[0]) == 4 && forall i :: 0 < i < |bytes| ==> Continues(bytes[i])
    requires Spelled(bytes) == c as int >= Least(4)
    ensures EncodeChar(c) == bytes
  {
    var high := (bytes[0] as int - 0xF0) * 0x40 + Bits(bytes[1]);
    var higher := high * 0x40 + Bits(bytes[2]);
    Quotients(c as int);
    Digits(bytes[0] as int - 0xF0, Bits(bytes[1]));
    Digits(high, Bits(bytes[2]));
    Digits(higher, Bits(bytes[3]));
  }

  // ------------------------------------------------------------------------- texts

  function Encode(text: string): (r: Bytes) {
    if text == [] then [] else EncodeChar(text[0]) + Encode(text[1..])
  }

  function Decode(bytes: Bytes): (r: Option<string>)
    decreases |bytes|
  {
    if bytes == [] then Some([])
    else
      match DecodeChar(bytes)
      case None => None
      case Some((c, n)) =>
        match Decode(bytes[n..])
        case None => None
        case Some(rest) => Some([c] + rest)
  }

  /** Decoding undoes encoding. */
  lemma {:induction false} DecodeEncoded(text: string)
    ensures Decode(Encode(text)) == Some(text)
  {
    if text != [] {
      var enc, rest := EncodeChar(text[0]), Encode(text[1..]);
      CharRoundTrip(text[0], rest);
      assert (enc + rest)[|enc|..] == rest;
      DecodeEncoded(text[1..]);
      assert [text[0]] + text[1..] == text;
    }
  }

  lemma EncodeCons(bytes: Bytes, c: char, n: nat, rest: string)
    requires bytes != [] && DecodeChar(bytes) == Some((c, n)) && Encode(rest) == bytes[n..]
    ensures Encode([c] + rest) == bytes
  {
    DecodedIsEncoded(bytes);
    assert ([c] + rest)[1..] == rest;
    assert bytes[..n] + bytes[n..] == bytes;
  }

  /** And every text that decodes is the encoding of what it decodes to. */
  lemma {:induction false} EncodeDecoded(bytes: Bytes)
    ensures Decode(bytes).Some? ==> Encode(Decode(bytes).value) == bytes
    decreases |bytes|
  {
    if bytes != [] {
      match DecodeChar(bytes)
      case None =>
      case Some((c, n)) =>
        var tail := bytes[n..];
        EncodeDecoded(tail);
        if Decode(tail).Some? {
          EncodeCons(bytes, c, n, Decode(tail).value);
        }
    }
  }

  /** The length used for every bound on texts is the length in bytes. */
  lemma {:induction false} EncodedLength(text: string)
    ensures |Encode(text)| == Utf8Length(text)
  {
    if text != [] {
      EncodedLength(text[1..]);
    }
  }

  lemma {:induction false} EncodeAscii(text: string)
    requires forall i :: 0 <= i < |text| ==> text[i] as int < 0x80
    ensures |Encode(text)| == |text| && forall i :: 0 <= i < |text| ==> Encode(text)[i] as int == text[i] as int
  {
    if text != [] {
      EncodeAscii(text[1..]);
    }
  }

  predicate ValidUtf8(bytes: Bytes) {
    Decode(bytes).Some?
  }

  // -------------------------------------------------------------- joining and cutting

  lemma {:induction false} ValidConcat(a: Bytes, b: Bytes)
    requires ValidUtf8(a)
    ensures ValidUtf8(a + b) <==> ValidUtf8(b)
    decreases |a|
  {
    if a == [] {
      assert a + b == b;
    } else {
      var n := DecodeChar(a).value.1;
      CharOfLonger(a, b);
      assert (a + b)[n..] == a[n..] + b;
      ValidConcat(a[n..], b);
    }
  }

  lemma CharOfLonger(a: Bytes, b: Bytes)
    requires a != [] && DecodeChar(a).Some?
    ensures DecodeChar(a + b) == DecodeChar(a)
  {
    var n := Announced(a[0]);
    assert (a + b)[..n] == a[..n];
  }

  /** `str::is_char_boundary`, in a valid text: the text can be cut there. */
  lemma {:induction false} CutsBetweenChars(bytes: Bytes, k: nat)
    requires ValidUtf8(bytes) && k <= |bytes|
    ensures k == |bytes| || !Continues(bytes[k]) <==> ValidUtf8(bytes[..k])
    ensures k == |bytes| || !Continues(bytes[k]) <==> ValidUtf8(bytes[k..])
    decreases |bytes|
  {
    if k == 0 {
      assert bytes[0..] == bytes;
      FirstByte(bytes);
    } else {
      var n := DecodeChar(bytes).value.1;
      if k < n {
        CutInsideChar(bytes, k);
      } else {
        CutsBetweenChars(bytes[n..], k - n);
        CutAfterChar(bytes, n, k);
      }
    }
  }

  lemma FirstByte(bytes: Bytes)
    requires ValidUtf8(bytes)
    ensures bytes == [] || !Continues(bytes[0])
  {
  }

  lemma CutAfterChar(bytes: Bytes, n: nat, k: nat)
    requires bytes != [] && DecodeChar(bytes).Some? && n == DecodeChar(bytes).value.1 <= k <= |bytes|
    ensures ValidUtf8(bytes[..k]) <==> ValidUtf8(bytes[n..][..k - n])
    ensures bytes[n..][k - n..] == bytes[k..] && (k < |bytes| ==> bytes[n..][k - n] == bytes[k])
  {
    FirstCharValid(bytes);
    ValidConcat(bytes[..n], bytes[n..][..k - n]);
    assert bytes[..n] + bytes[n..][..k - n] == bytes[..k];
  }

  lemma FirstCharValid(bytes: Bytes)
    requires bytes != [] && DecodeChar(bytes).Some?
    ensures ValidUtf8(bytes[..DecodeChar(bytes).value.1])
  {
    var n := DecodeChar(bytes).value.1;
    var head := bytes[..n];
    assert head[..n] == head && head[n..] == [];
    assert Decode(head[n..]) == Some([]);
  }

  lemma CutInsideChar(bytes: Bytes, k: nat)
    requires bytes != [] && DecodeChar(bytes).Some? && 0 < k < DecodeChar(bytes).value.1
    ensures Continues(bytes[k]) && !ValidUtf8(bytes[..k]) && !ValidUtf8(bytes[k..])
  {
    assert bytes[..k][0] == bytes[0] && bytes[k..][0] == bytes[k];
  }
}
