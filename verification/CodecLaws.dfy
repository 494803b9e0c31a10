/** The format of the bounded codec, and that runs are always written as runs. */
module CodecLaws {
  import opened Base
  import Utf8
  import opened BoundedCodec

  /** The header text. */
  lemma MagicIs()
    ensures MAGIC == Utf8.Encode("AWKRLE1\0")
  {
    Utf8.EncodeAscii("AWKRLE1\0");
  }

  /** What a stream of blocks after the header stands for. */
  function Payload(blocks: Bytes, maximum: nat): Result {
    Decompressed(MAGIC + blocks, maximum)
  }

  lemma PayloadIs(blocks: Bytes, maximum: nat)
    ensures Payload(blocks, maximum) == Decode(blocks, 0, maximum)
  {
    assert (MAGIC + blocks)[|MAGIC|..] == blocks;
  }

  /** Up to 128 bytes are written after their number less one; up to 128 equal bytes as their
      number less one with the high bit set, and the byte. Nothing decodes to nothing. */
  lemma FormatExactly(bytes: Bytes, b: byte, n: nat, maximum: nat)
    requires 1 <= |bytes| <= 128 && 1 <= n <= 128 && |bytes| <= maximum && n <= maximum
    ensures Payload([], maximum) == Ok([])
    ensures Payload([(|bytes| - 1) as byte] + bytes, maximum) == Ok(bytes)
    ensures Payload([(0x80 + n - 1) as byte, b], maximum) == Ok(seq(n, _ => b))
  {
    var literal, run: Bytes := [(|bytes| - 1) as byte] + bytes, [(0x80 + n - 1) as byte, b];
    PayloadIs([], maximum);
    PayloadIs(literal, maximum);
    PayloadIs(run, maximum);
    assert literal[1..1 + |bytes|] == bytes && literal[1 + |bytes|..] == [] && run[2..] == [];
    assert Decode([], |bytes|, maximum) == Ok([]) && Decode([], n, maximum) == Ok([]);
    assert bytes + [] == bytes && Filled(b, n) + [] == seq(n, _ => b);
  }

  /** A block that is not all there is reported, unless its length is already too much. */
  lemma CutBlocksRefused(header: byte, bytes: Bytes, maximum: nat)
    requires header < 0x80 && |bytes| <= header as nat < maximum
    ensures Payload([header] + bytes, maximum) == Err(TruncatedBlock)
    ensures Payload([0x80 + header], maximum) == Err(TruncatedBlock)
    ensures Payload([header] + bytes, header as nat) == Err(OutputLimitExceeded)
  {
    PayloadIs([header] + bytes, maximum);
    PayloadIs([0x80 + header], maximum);
    PayloadIs([header] + bytes, header as nat);
  }

  // -------------------------------------------------------------------------- runs

  /** No three equal bytes in a row. */
  ghost predicate NoTriple(input: Bytes, start: nat, end: nat)
    requires end <= |input|
  {
    forall k: nat :: start <= k && k + 3 <= end ==> !(input[k] == input[k + 1] == input[k + 2])
  }

  /** Where a group of equal bytes ends, another byte begins. */
  ghost predicate GroupEnds(input: Bytes, start: nat, cursor: nat)
    requires cursor <= |input|
  {
    start < cursor < |input| ==> input[cursor] != input[cursor - 1]
  }

  lemma ShortGroup(input: Bytes, start: nat, cursor: nat)
    requires start <= cursor < |input| && Repeated(input, cursor) < 3
    requires NoTriple(input, start, cursor) && GroupEnds(input, start, cursor)
    ensures var next := cursor + Repeated(input, cursor); NoTriple(input, start, next) && GroupEnds(input, start, next)
  {
    CountedEqual(input, cursor, input[cursor], 128);
    var n := Repeated(input, cursor);
    assert input[cursor..cursor + n] == Filled(input[cursor], n);
    assert input[cursor + n - 1] == input[cursor..cursor + n][n - 1];
  }

  lemma {:induction false} LiteralHasNoRun(input: Bytes, start: nat, cursor: nat)
    requires start < cursor <= |input| && cursor - start <= MAX_BLOCK
    requires NoTriple(input, start, cursor) && GroupEnds(input, start, cursor)
    ensures NoTriple(input, start, LiteralEnd(input, start, cursor))
    decreases |input| - cursor
  {
    if cursor < |input| && cursor - start < MAX_BLOCK && Repeated(input, cursor) < 3 {
      var next := cursor + Repeated(input, cursor);
      ShortGroup(input, start, cursor);
      if next - start <= MAX_BLOCK {
        LiteralHasNoRun(input, start, next);
      }
    }
  }

  /** Three equal bytes in a row are never written out: a literal block holds none, and a run
      block holds all of them that one block can. */
  lemma BlocksExactly(input: Bytes, cursor: nat)
    requires cursor < |input|
    ensures var block, end := NextBlock(input, cursor), NextEnd(input, cursor);
            && block.Content() == input[cursor..end]
            && (block.Literal? ==> NoTriple(input, cursor, end))
            && (block.Run? <==> cursor + 3 <= |input| && input[cursor] == input[cursor + 1] == input[cursor + 2])
            && (block.Run? ==> end - cursor == 128 || end == |input| || input[end] != input[cursor])
  {
    CountedEqual(input, cursor, input[cursor], 128);
    NextBlockContent(input, cursor);
    var n := Repeated(input, cursor);
    TripleCounts(input, cursor);
    if n < 3 {
      ShortGroup(input, cursor, cursor);
      LiteralHasNoRun(input, cursor, cursor + n);
    }
  }

  lemma TripleCounts(input: Bytes, cursor: nat)
    requires cursor < |input|
    ensures Repeated(input, cursor) >= 3 <==>
              cursor + 3 <= |input| && input[cursor] == input[cursor + 1] == input[cursor + 2]
  {
    var b := input[cursor];
    assert CountEqual(input, cursor, b, 128) == 1 + CountEqual(input, cursor + 1, b, 127);
    if cursor + 1 < |input| && input[cursor + 1] == b {
      assert CountEqual(input, cursor + 1, b, 127) == 1 + CountEqual(input, cursor + 2, b, 126);
      if cursor + 2 < |input| && input[cursor + 2] == b {
        assert CountEqual(input, cursor + 2, b, 126) == 1 + CountEqual(input, cursor + 3, b, 125);
      }
    }
  }
}
