/** The bounded byte codec for local evidence (`compress` and `decompress`). */
module BoundedCodec {
  import opened Base

  /** "AWKRLE1" and a zero byte. */
  const MAGIC: Bytes := [65, 87, 75, 82, 76, 69, 49, 0]

  const MAX_BLOCK: nat := 128

  datatype CodecError = InvalidHeader | TruncatedBlock | OutputLimitExceeded

  datatype Result = Ok(bytes: Bytes) | Err(error: CodecError)

  // ------------------------------------------------------------------- encoding

  function CountEqual(input: Bytes, cursor: nat, b: byte, limit: nat): (n: nat)
    requires cursor <= |input|
    ensures n <= limit && cursor + n <= |input|
    decreases |input| - cursor
  {
    if limit == 0 || cursor == |input| || input[cursor] != b then 0
    else 1 + CountEqual(input, cursor + 1, b, limit - 1)
  }

  /** `repeated`: how often the byte at the cursor repeats, up to one block. */
  function Repeated(input: Bytes, cursor: nat): (n: nat)
    requires cursor < |input|
    ensures 1 <= n <= MAX_BLOCK && cursor + n <= |input|
  {
    CountEqual(input, cursor, input[cursor], MAX_BLOCK)
  }

  /** The counted bytes are equal, and the count stops only where it must. */
  lemma {:induction false} CountedEqual(input: Bytes, cursor: nat, b: byte, limit: nat)
    requires cursor <= |input|
    ensures var n := CountEqual(input, cursor, b, limit);
            && input[cursor..cursor + n] == Filled(b, n)
            && (n == limit || cursor + n == |input| || input[cursor + n] != b)
    decreases |input| - cursor
  {
    if limit > 0 && cursor < |input| && input[cursor] == b {
      CountedEqual(input, cursor + 1, b, limit - 1);
      var n := CountEqual(input, cursor, b, limit);
      assert input[cursor..cursor + n] == [b] + input[cursor + 1..cursor + n];
      assert Filled(b, n) == [b] + Filled(b, n - 1);
    }
  }

  /** Where the literal block begun at `start`, and grown to `cursor`, ends. */
  function LiteralEnd(input: Bytes, start: nat, cursor: nat): (end: nat)
    requires start < cursor <= |input| && cursor - start <= MAX_BLOCK
    ensures cursor <= end <= |input| && end - start <= MAX_BLOCK
    ensures end == |input| || end - start == MAX_BLOCK || Repeated(input, end) >= 3
    decreases |input| - cursor
  {
    if cursor < |input| && cursor - start < MAX_BLOCK && Repeated(input, cursor) < 3 then
      LiteralEnd(input, start, cursor + Min(Repeated(input, cursor), MAX_BLOCK - (cursor - start)))
    else cursor
  }

  // The encoder's output as a list of blocks.

  datatype Block = Run(b: byte, length: nat) | Literal(bytes: Bytes) {
    function Content(): (r: Bytes)
      ensures |r| == Size()
    {
      match this
      case Run(b, length) => Filled(b, length)
      case Literal(bytes) => bytes
    }

    function Size(): nat {
      match this
      case Run(_, length) => length
      case Literal(bytes) => |bytes|
    }

    predicate Valid() {
      match this
      case Run(_, length) => 3 <= length <= MAX_BLOCK
      case Literal(bytes) => 1 <= |bytes| <= MAX_BLOCK
    }

    /** The header byte and what follows it. */
    function Rendered(): Bytes
      requires Valid()
    {
      match this
      case Run(b, length) => [(0x80 + length - 1) as byte, b]
      case Literal(bytes) => [(|bytes| - 1) as byte] + bytes
    }
  }

  ghost predicate AllValid(blocks: seq<Block>) {
    forall k :: 0 <= k < |blocks| ==> blocks[k].Valid()
  }

  /** Where the block that starts at the cursor ends. */
  function NextEnd(input: Bytes, cursor: nat): (end: nat)
    requires cursor < |input|
    ensures cursor < end <= |input| && end - cursor <= MAX_BLOCK
  {
    var run := Repeated(input, cursor);
    if run >= 3 then cursor + run else LiteralEnd(input, cursor, cursor + run)
  }

  /** The block that starts at the cursor. */
  function NextBlock(input: Bytes, cursor: nat): (block: Block)
    requires cursor < |input|
    ensures block.Valid()
  {
    if Repeated(input, cursor) >= 3 then Run(input[cursor], Repeated(input, cursor))
    else Literal(input[cursor..NextEnd(input, cursor)])
  }

  /** The blocks that `compress` emits from a cursor on. */
  function Plan(input: Bytes, cursor: nat): (blocks: seq<Block>)
    requires cursor <= |input|
    decreases |input| - cursor
  {
    if cursor == |input| then [] else [NextBlock(input, cursor)] + Plan(input, NextEnd(input, cursor))
  }

  lemma {:induction false} PlanValid(input: Bytes, cursor: nat)
    requires cursor <= |input|
    ensures AllValid(Plan(input, cursor))
    decreases |input| - cursor
  {
    if cursor < |input| {
      PlanValid(input, NextEnd(input, cursor));
    }
  }

  function Render(blocks: seq<Block>): (bytes: Bytes)
    requires AllValid(blocks)
  {
    if blocks == [] then [] else blocks[0].Rendered() + Render(blocks[1..])
  }

  function Compressed(input: Bytes): (encoded: Bytes) {
    PlanValid(input, 0);
    MAGIC + Render(Plan(input, 0))
  }

  lemma PlanStep(encoded: Bytes, input: Bytes, cursor: nat)
    requires cursor < |input|
    ensures AllValid(Plan(input, cursor)) && AllValid(Plan(input, NextEnd(input, cursor)))
    ensures encoded + Render(Plan(input, cursor))
         == encoded + NextBlock(input, cursor).Rendered() + Render(Plan(input, NextEnd(input, cursor)))
  {
    var block, rest := NextBlock(input, cursor), Plan(input, NextEnd(input, cursor));
    PlanValid(input, cursor);
    PlanValid(input, NextEnd(input, cursor));
    assert ([block] + rest)[1..] == rest;
    Associates(encoded, block.Rendered(), Render(rest));
  }

  method Compress(input: Bytes) returns (encoded: Bytes)
    ensures encoded == Compressed(input)
  {
    encoded := MAGIC;
    var cursor := 0;
    PlanValid(input, 0);
    ghost var whole := Compressed(input);
    while cursor < |input|
      invariant 0 <= cursor <= |input| && AllValid(Plan(input, cursor))
      invariant encoded + Render(Plan(input, cursor)) == whole
    {
      PlanStep(encoded, input, cursor);
      var block, end := EmitBlock(input, cursor);
      encoded := encoded + block;
      cursor := end;
    }
  }

  /** One turn of the outer loop of `compress`. */
  method EmitBlock(input: Bytes, cursor: nat) returns (block: Bytes, end: nat)
    requires cursor < |input|
    ensures block == NextBlock(input, cursor).Rendered() && end == NextEnd(input, cursor)
  {
    var run := Repeated(input, cursor);
    if run >= 3 {
      var length := Min(run, MAX_BLOCK);
      return [(0x80 + length - 1) as byte, input[cursor]], cursor + length;
    }
    end := GrowLiteral(input, cursor, cursor + run);
    block := [(end - cursor - 1) as byte] + input[cursor..end];
  }

  /** The inner loop of `compress`. */
  method GrowLiteral(input: Bytes, start: nat, from: nat) returns (cursor: nat)
    requires start < from <= |input| && from - start <= MAX_BLOCK
    ensures cursor == LiteralEnd(input, start, from)
  {
    cursor := from;
    while cursor < |input| && cursor - start < MAX_BLOCK && Repeated(input, cursor) < 3
      invariant start < cursor <= |input| && cursor - start <= MAX_BLOCK
      invariant LiteralEnd(input, start, cursor) == LiteralEnd(input, start, from)
    {
      cursor := cursor + Min(Repeated(input, cursor), MAX_BLOCK - (cursor - start));
    }
  }

  // ------------------------------------------------------------------- decoding

  function BlockLength(header: byte): (n: nat)
    ensures 1 <= n <= MAX_BLOCK
  {
    if header < 0x80 then header as nat + 1 else header as nat - 0x80 + 1
  }

  function Filled(b: byte, n: nat): (r: Bytes)
    ensures |r| == n
  {
    seq(n, _ => b)
  }

  datatype Parsed = Truncated | Whole(content: Bytes, rest: Bytes)

  /** The first block of a stream, if it is all there. */
  function Parse(blocks: Bytes): (p: Parsed)
    requires blocks != []
    ensures p.Whole? ==> |p.rest| < |blocks| && |p.content| == BlockLength(blocks[0])
  {
    var length := BlockLength(blocks[0]);
    if blocks[0] < 0x80 then
      if |blocks| < 1 + length then Truncated else Whole(blocks[1..1 + length], blocks[1 + length..])
    else
      if |blocks| < 2 then Truncated else Whole(Filled(blocks[1], length), blocks[2..])
  }

  /** The bytes of the remaining blocks, after `produced` bytes of output. */
  function Decode(blocks: Bytes, produced: nat, maximum: nat): (r: Result)
    requires produced <= maximum
    ensures r.Ok? ==> produced + |r.bytes| <= maximum
    ensures r != Err(InvalidHeader)
    decreases |blocks|
  {
    if blocks == [] then Ok([])
    else
      var total := produced + BlockLength(blocks[0]);
      if total > maximum then Err(OutputLimitExceeded)
      else
        match Parse(blocks)
        case Truncated => Err(TruncatedBlock)
        case Whole(content, rest) => Prepend(content, Decode(rest, total, maximum))
  }

  function Prepend(bytes: Bytes, rest: Result): Result {
    if rest.Ok? then Ok(bytes + rest.bytes) else rest
  }

  /** What `decompress` returns. */
  function Decompressed(encoded: Bytes, maximum: nat): (r: Result)
    ensures r.Ok? ==> |r.bytes| <= maximum
    ensures r == Err(InvalidHeader) <==> !(MAGIC <= encoded)
  {
    if MAGIC <= encoded then Decode(encoded[|MAGIC|..], 0, maximum) else Err(InvalidHeader)
  }

  method Decompress(encoded: Bytes, maximum: nat) returns (r: Result)
    ensures r == Decompressed(encoded, maximum)
  {
    if !(MAGIC <= encoded) {
      return Err(InvalidHeader);
    }
    var remaining := encoded[|MAGIC|..];
    var decoded: Bytes := [];
    while remaining != []
      invariant |decoded| <= maximum
      invariant Prepend(decoded, Decode(remaining, |decoded|, maximum)) == Decompressed(encoded, maximum)
      decreases |remaining|
    {
      var header, tail := remaining[0], remaining[1..];
      var length := BlockLength(header);
      if |decoded| + length > maximum {
        return Err(OutputLimitExceeded);
      }
      if header < 0x80 {
        if |tail| < length {
          return Err(TruncatedBlock);
        }
        LiteralStep(decoded, remaining, maximum);
        decoded := decoded + tail[..length];
        remaining := tail[length..];
      } else {
        if tail == [] {
          return Err(TruncatedBlock);
        }
        RunStep(decoded, remaining, maximum);
        decoded := decoded + Filled(tail[0], length);
        remaining := tail[1..];
      }
    }
    return Ok(decoded);
  }

  lemma LiteralStep(decoded: Bytes, blocks: Bytes, maximum: nat)
    requires blocks != [] && blocks[0] < 0x80 && |blocks| > BlockLength(blocks[0])
    requires |decoded| + BlockLength(blocks[0]) <= maximum
    ensures var tail, length := blocks[1..], BlockLength(blocks[0]);
            Prepend(decoded, Decode(blocks, |decoded|, maximum))
            == Prepend(decoded + tail[..length], Decode(tail[length..], |decoded| + length, maximum))
  {
    var tail, length := blocks[1..], BlockLength(blocks[0]);
    LiteralTail(blocks, length);
    PrependTwice(decoded, tail[..length], Decode(tail[length..], |decoded| + length, maximum));
  }

  lemma RunStep(decoded: Bytes, blocks: Bytes, maximum: nat)
    requires |blocks| > 1 && blocks[0] >= 0x80 && |decoded| + BlockLength(blocks[0]) <= maximum
    ensures var tail, length := blocks[1..], BlockLength(blocks[0]);
            Prepend(decoded, Decode(blocks, |decoded|, maximum))
            == Prepend(decoded + Filled(tail[0], length), Decode(tail[1..], |decoded| + length, maximum))
  {
    var tail, length := blocks[1..], BlockLength(blocks[0]);
    assert tail[1..] == blocks[2..];
    PrependTwice(decoded, Filled(tail[0], length), Decode(tail[1..], |decoded| + length, maximum));
  }

  lemma LiteralTail(stream: Bytes, length: nat)
    requires 1 + length <= |stream|
    ensures stream[1..][..length] == stream[1..1 + length] && stream[1..][length..] == stream[1 + length..]
  {
  }

  lemma PrependTwice(a: Bytes, b: Bytes, rest: Result)
    ensures Prepend(a, Prepend(b, rest)) == Prepend(a + b, rest)
  {
    if rest.Ok? {
      Associates(a, b, rest.bytes);
    }
  }

  // ----------------------------------------------------------------- round trip

  function Flat(blocks: seq<Block>): Bytes {
    if blocks == [] then [] else blocks[0].Content() + Flat(blocks[1..])
  }

  /** A rendered block parses back to its content. */
  lemma ParseRendered(block: Block, rest: Bytes, stream: Bytes)
    requires block.Valid() && stream == block.Rendered() + rest
    ensures stream != [] && BlockLength(stream[0]) == block.Size()
    ensures Parse(stream) == Whole(block.Content(), rest)
  {
    match block
    case Run(b, length) => assert stream[2..] == rest;
    case Literal(bytes) => LiteralSlices(stream[0], bytes, rest);
  }

  lemma LiteralSlices(header: byte, bytes: Bytes, rest: Bytes)
    ensures ([header] + bytes + rest)[1..1 + |bytes|] == bytes
    ensures ([header] + bytes + rest)[1 + |bytes|..] == rest
  {
  }

  /** The stream parses as these blocks. */
  ghost predicate ParsesAs(stream: Bytes, blocks: seq<Block>)
    decreases |blocks|
  {
    if blocks == [] then stream == []
    else
      && stream != [] && Parse(stream).Whole? && Parse(stream).content == blocks[0].Content()
      && ParsesAs(Parse(stream).rest, blocks[1..])
  }

  lemma {:induction false} RenderParses(blocks: seq<Block>)
    requires AllValid(blocks)
    ensures ParsesAs(Render(blocks), blocks)
  {
    if blocks != [] {
      var rest := Render(blocks[1..]);
      RenderParses(blocks[1..]);
      ParseRendered(blocks[0], rest, Render(blocks));
      assert Parse(Render(blocks)).rest == rest;
    }
  }

  lemma {:induction false} DecodeParsed(stream: Bytes, blocks: seq<Block>, produced: nat, maximum: nat)
    requires ParsesAs(stream, blocks) && produced <= maximum
    ensures Decode(stream, produced, maximum)
         == if produced + |Flat(blocks)| > maximum then Err(OutputLimitExceeded) else Ok(Flat(blocks))
    decreases |blocks|
  {
    if blocks != [] && produced + BlockLength(stream[0]) <= maximum {
      DecodeParsed(Parse(stream).rest, blocks[1..], produced + BlockLength(stream[0]), maximum);
    }
  }

  lemma NextBlockContent(input: Bytes, cursor: nat)
    requires cursor < |input|
    ensures NextBlock(input, cursor).Content() == input[cursor..NextEnd(input, cursor)]
  {
    CountedEqual(input, cursor, input[cursor], MAX_BLOCK);
  }

  /** The blocks lie side by side over the input, from the cursor to its end. */
  ghost predicate Tiles(input: Bytes, cursor: nat, blocks: seq<Block>)
    decreases |blocks|
  {
    if blocks == [] then cursor == |input|
    else exists end: nat :: TilesFirst(input, cursor, end, blocks[0]) && Tiles(input, end, blocks[1..])
  }

  ghost predicate TilesFirst(input: Bytes, cursor: nat, end: nat, block: Block) {
    cursor <= end <= |input| && block.Content() == input[cursor..end]
  }

  lemma {:induction false} TilesFlat(input: Bytes, cursor: nat, blocks: seq<Block>)
    requires cursor <= |input| && Tiles(input, cursor, blocks)
    ensures Flat(blocks) == input[cursor..]
    decreases |blocks|
  {
    if blocks != [] {
      var end: nat :| TilesFirst(input, cursor, end, blocks[0]) && Tiles(input, end, blocks[1..]);
      TilesFlat(input, end, blocks[1..]);
      assert input[cursor..end] + input[end..] == input[cursor..];
    }
  }

  lemma {:induction false} PlanTiles(input: Bytes, cursor: nat)
    requires cursor <= |input|
    ensures Tiles(input, cursor, Plan(input, cursor))
    decreases |input| - cursor
  {
    if cursor < |input| {
      var end := NextEnd(input, cursor);
      NextBlockContent(input, cursor);
      PlanTiles(input, end);
      TilesCons(input, cursor, end, NextBlock(input, cursor), Plan(input, end));
    }
  }

  lemma TilesCons(input: Bytes, cursor: nat, end: nat, block: Block, blocks: seq<Block>)
    requires TilesFirst(input, cursor, end, block) && Tiles(input, end, blocks)
    ensures Tiles(input, cursor, [block] + blocks)
  {
    assert ([block] + blocks)[1..] == blocks;
  }

  /** The blocks stand for the whole input. */
  lemma PlanCovers(input: Bytes)
    ensures Flat(Plan(input, 0)) == input
  {
    PlanTiles(input, 0);
    TilesFlat(input, 0, Plan(input, 0));
    assert input[0..] == input;
  }

  /** Decompressing what was compressed gives the input back, or reports that the
      caller's bound is too small: nothing else can happen. */
  lemma RoundTrip(input: Bytes, maximum: nat)
    ensures Decompressed(Compressed(input), maximum)
         == if |input| <= maximum then Ok(input) else Err(OutputLimitExceeded)
  {
    var blocks := Plan(input, 0);
    PlanValid(input, 0);
    assert Compressed(input)[|MAGIC|..] == Render(blocks);
    RenderParses(blocks);
    DecodeParsed(Render(blocks), blocks, 0, maximum);
    PlanCovers(input);
  }

  /** The bound only cuts off: what decodes under one bound decodes alike under a larger. */
  lemma {:induction false} DecodeUnderLargerBound(blocks: Bytes, produced: nat, maximum: nat, larger: nat)
    requires produced <= maximum <= larger && Decode(blocks, produced, maximum).Ok?
    ensures Decode(blocks, produced, larger) == Decode(blocks, produced, maximum)
    decreases |blocks|
  {
    if blocks != [] {
      DecodeUnderLargerBound(Parse(blocks).rest, produced + BlockLength(blocks[0]), maximum, larger);
    }
  }

  // ----------------------------------------------------------------------- size

  /** |x| / 128, rounded up. */
  function Blocks(n: nat): nat {
    (n + MAX_BLOCK - 1) / MAX_BLOCK
  }

  /** A literal block shorter than the maximum is the last one or is cut short by a run. */
  ghost predicate Shaped(blocks: seq<Block>)
    decreases |blocks|
  {
    blocks != [] ==>
      && (blocks[0].Literal? && |blocks[0].bytes| < MAX_BLOCK && |blocks| > 1 ==> blocks[1].Run?)
      && Shaped(blocks[1..])
  }

  lemma {:induction false} PlanShaped(input: Bytes, cursor: nat)
    requires cursor <= |input|
    ensures Shaped(Plan(input, cursor))
    decreases |input| - cursor
  {
    if cursor < |input| {
      var end := NextEnd(input, cursor);
      PlanShaped(input, end);
      assert Plan(input, cursor)[1..] == Plan(input, end);
      ShortThenRun(input, cursor);
      if end < |input| {
        assert Plan(input, end)[0] == NextBlock(input, end);
      }
    }
  }

  lemma ShortThenRun(input: Bytes, cursor: nat)
    requires cursor < |input|
    ensures var block, end := NextBlock(input, cursor), NextEnd(input, cursor);
            block.Literal? && |block.bytes| < MAX_BLOCK && end < |input| ==> NextBlock(input, end).Run?
  {
  }

  lemma BlocksGrow(m: nat, n: nat)
    requires m <= n
    ensures Blocks(m) <= Blocks(n)
    ensures n >= 1 ==> Blocks(n) >= 1
    ensures n == m + MAX_BLOCK ==> Blocks(n) == Blocks(m) + 1
  {
  }

  /** The header of a literal block cut short by a run is paid for by that run:
      a list that starts with a run renders one byte below the bound. */
  lemma {:induction false} RenderSize(blocks: seq<Block>)
    requires AllValid(blocks) && Shaped(blocks)
    ensures |Render(blocks)| <= |Flat(blocks)| + Blocks(|Flat(blocks)|)
    ensures blocks != [] && blocks[0].Run? ==> |Render(blocks)| + 1 <= |Flat(blocks)| + Blocks(|Flat(blocks)|)
    decreases |blocks|
  {
    if blocks != [] {
      RenderSize(blocks[1..]);
      BlocksGrow(|Flat(blocks[1..])|, |Flat(blocks)|);
    }
  }

  /** The encoded size never exceeds the header, the input and one byte per 128 of it. */
  lemma CompressedSize(input: Bytes)
    ensures |Compressed(input)| <= 8 + |input| + Blocks(|input|)
  {
    PlanValid(input, 0);
    PlanShaped(input, 0);
    PlanCovers(input);
    RenderSize(Plan(input, 0));
  }
}
