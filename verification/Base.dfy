/** Bytes, texts, optional values and a few shared functions. */
module Base {
  newtype byte = b: int | 0 <= b < 256

  type Bytes = seq<byte>

  datatype Option<+T> = None | Some(value: T)

  const I64_MAX: nat := 0x7FFF_FFFF_FFFF_FFFF

  function Min(a: nat, b: nat): nat {
    if a <= b then a else b
  }

  /** What arrives in chunks, as a whole. */
  function Joined(chunks: seq<Bytes>): Bytes {
    if chunks == [] then [] else chunks[0] + Joined(chunks[1..])
  }

  lemma Associates<T>(a: seq<T>, b: seq<T>, c: seq<T>)
    ensures a + b + c == a + (b + c)
  {
  }

  /** The number of UTF-8 bytes of a text. */
  function Utf8Length(text: string): nat {
    if text == [] then 0
    else
      var c := text[0] as int;
      (if c < 0x80 then 1 else if c < 0x800 then 2 else if c < 0x10000 then 3 else 4) + Utf8Length(text[1..])
  }

  /** Lexicographic order of texts. */
  predicate TextAtMost(a: string, b: string) {
    if a == [] then true
    else if b == [] then false
    else if a[0] != b[0] then a[0] < b[0]
    else TextAtMost(a[1..], b[1..])
  }

  lemma {:induction false} TextTotal(a: string, b: string)
    ensures TextAtMost(a, b) || TextAtMost(b, a)
  {
    if a != [] && b != [] && a[0] == b[0] {
      TextTotal(a[1..], b[1..]);
    }
  }

  lemma {:induction false} TextTransitive(a: string, b: string, c: string)
    requires TextAtMost(a, b) && TextAtMost(b, c)
    ensures TextAtMost(a, c)
    ensures TextAtMost(c, a) ==> a == b
  {
    if a != [] && a[0] == b[0] && b[0] == c[0] {
      TextTransitive(a[1..], b[1..], c[1..]);
    } else if a == [] && c == [] {
      assert b == [];
    }
  }

  lemma {:induction false} TextReflexive(a: string)
    ensures TextAtMost(a, a)
  {
    if a != [] {
      TextReflexive(a[1..]);
    }
  }

  lemma TextAntisymmetric(a: string, b: string)
    ensures TextAtMost(a, b) && TextAtMost(b, a) ==> a == b
  {
    if TextAtMost(a, b) && TextAtMost(b, a) {
      TextTransitive(a, b, a);
    }
  }

  /** The first place where two texts differ decides their order; a text comes before
      every longer one it begins. */
  lemma {:induction false} TextOrder(a: string, b: string, i: nat)
    requires i <= |a| && i <= |b| && a[..i] == b[..i]
    ensures i == |a| ==> TextAtMost(a, b)
    ensures i < |a| && i == |b| ==> !TextAtMost(a, b)
    ensures i < |a| && i < |b| && a[i] != b[i] ==> (TextAtMost(a, b) <==> a[i] < b[i])
  {
    if i > 0 {
      assert a[0] == a[..i][0] == b[..i][0] == b[0];
      assert a[1..][..i - 1] == a[..i][1..] && b[1..][..i - 1] == b[..i][1..];
      TextOrder(a[1..], b[1..], i - 1);
    }
  }
}
