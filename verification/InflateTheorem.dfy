/**
 * The decoder against the format: what it accepts, what it returns, and the round
 * trips of an encoder that writes any valid stream.
 */
module InflateTheorem {
  import opened Outcomes
  import opened Bits
  import opened Slices
  import opened BitReading
  import opened Lz77
  import opened InflateSpec
  import opened Inflate
  import opened Rfc1951
  import opened InflateExact

  // ---- one block ----

  lemma DynamicWritten(preamble: Preamble, tokens: seq<Token>, b: seq<bool>, pos: nat, out: seq<Byte>, limit: nat)
    requires |b| % 8 == 0 && ValidBlock(DynamicBlock(preamble, tokens), pos, out) && |Expand(out, tokens)| <= limit
    requires var w := EncodePreamble(preamble)
                      + EncodeTokens(LiteralLengths(preamble), DistanceLengths(preamble), tokens);
             StandsAt(b, pos, w)
    ensures var w := EncodePreamble(preamble)
                     + EncodeTokens(LiteralLengths(preamble), DistanceLengths(preamble), tokens);
            InflateSpec.Block(2, b, pos, out, limit) == Ok((Expand(out, tokens), pos + |w|))
  {
    hide Compressed, DynamicLengths, EncodePreamble, EncodeTokens, UsableTrees, AllEncodable, Playable, Expand;
    hide ValidPreamble;
    hide LiteralLengths, DistanceLengths;
    var lit, dist := LiteralLengths(preamble), DistanceLengths(preamble);
    StandsAtConcat(b, pos, EncodePreamble(preamble), EncodeTokens(lit, dist, tokens));
    PreambleWritten(b, pos, preamble);
    CompressedWritten(lit, dist, b, pos + |EncodePreamble(preamble)|, out, limit, tokens);
  }

  lemma FixedWritten(tokens: seq<Token>, b: seq<bool>, pos: nat, out: seq<Byte>, limit: nat)
    requires |b| % 8 == 0 && ValidBlock(FixedBlock(tokens), pos, out) && |Expand(out, tokens)| <= limit
    requires StandsAt(b, pos, EncodeTokens(FixedLiteralLengths(), FixedDistanceLengths(), tokens))
    ensures InflateSpec.Block(1, b, pos, out, limit)
         == Ok((Expand(out, tokens), pos + |EncodeTokens(FixedLiteralLengths(), FixedDistanceLengths(), tokens)|))
  {
    hide Compressed, EncodeTokens, UsableTrees, AllEncodable, Playable, Expand, FixedLiteralLengths;
    hide FixedDistanceLengths;
    FixedTreesUsable();
    CompressedWritten(FixedLiteralLengths(), FixedDistanceLengths(), b, pos, out, limit, tokens);
  }

  /** A written block decodes to its expansion. */
  lemma BodyWritten(block: Block, b: seq<bool>, pos: nat, out: seq<Byte>, limit: nat)
    requires |b| % 8 == 0 && ValidBlock(block, pos, out)
    requires StandsAt(b, pos, EncodeBody(block, pos, out)) && |ExpandBlock(block, pos, out)| <= limit
    ensures InflateSpec.Block(BlockKind(block), b, pos, out, limit)
         == Ok((ExpandBlock(block, pos, out), pos + |EncodeBody(block, pos, out)|))
  {
    hide Stored, EncodePreamble, EncodeTokens, AllEncodable, Playable, Expand, ValidPreamble, UsableTrees, Compressed;
    hide FixedLiteralLengths, FixedDistanceLengths, LiteralLengths, DistanceLengths, ToBits, Stream, StandsAt;
    hide DynamicLengths;
    if block.StoredBlock? {
      StoredWritten(b, pos, out, limit, block.padding, block.data);
    } else if block.FixedBlock? {
      FixedWritten(block.tokens, b, pos, out, limit);
    } else {
      DynamicWritten(block.preamble, block.tokens, b, pos, out, limit);
    }
  }

  lemma WrittenIsFixed(b: seq<bool>, pos: nat, out: seq<Byte>, limit: nat) returns (tokens: seq<Token>)
    requires pos <= |b| && |b| % 8 == 0 && |out| <= limit && InflateSpec.Block(1, b, pos, out, limit).Ok?
    ensures ValidBlock(FixedBlock(tokens), pos, out) && |Expand(out, tokens)| <= limit
    ensures StandsAt(b, pos, EncodeTokens(FixedLiteralLengths(), FixedDistanceLengths(), tokens))
    ensures InflateSpec.Block(1, b, pos, out, limit).value
         == (Expand(out, tokens), pos + |EncodeTokens(FixedLiteralLengths(), FixedDistanceLengths(), tokens)|)
  {
    hide Compressed, EncodeTokens, UsableTrees, AllEncodable, Playable, Expand, FixedLiteralLengths;
    hide FixedDistanceLengths;
    tokens := WrittenIsCompressed(FixedLiteralLengths(), FixedDistanceLengths(), b, pos, out, limit);
  }

  lemma WrittenIsDynamic(
      b: seq<bool>, pos: nat, out: seq<Byte>, limit: nat) returns (preamble: Preamble, tokens: seq<Token>)
    requires pos <= |b| && |b| % 8 == 0 && |out| <= limit && InflateSpec.Block(2, b, pos, out, limit).Ok?
    ensures ValidBlock(DynamicBlock(preamble, tokens), pos, out) && |Expand(out, tokens)| <= limit
    ensures var w := EncodePreamble(preamble)
                     + EncodeTokens(LiteralLengths(preamble), DistanceLengths(preamble), tokens);
            StandsAt(b, pos, w) && InflateSpec.Block(2, b, pos, out, limit).value == (Expand(out, tokens), pos + |w|)
  {
    hide Compressed, DynamicLengths, EncodePreamble, EncodeTokens, UsableTrees, AllEncodable, Playable, Expand;
    hide ValidPreamble;
    hide LiteralLengths, DistanceLengths;
    preamble := WrittenIsPreamble(b, pos);
    var (lengths, p) := DynamicLengths(b, pos).value;
    tokens := WrittenIsCompressed(lengths.0, lengths.1, b, p, out, limit);
    StandsAtConcat(b, pos, EncodePreamble(preamble), EncodeTokens(lengths.0, lengths.1, tokens));
  }

  /** A decoded block is a written block. */
  lemma WrittenIsBody(kind: nat, b: seq<bool>, pos: nat, out: seq<Byte>, limit: nat) returns (block: Rfc1951.Block)
    requires pos <= |b| && |b| % 8 == 0 && |out| <= limit && InflateSpec.Block(kind, b, pos, out, limit).Ok?
    ensures BlockKind(block) == kind && ValidBlock(block, pos, out)
    ensures StandsAt(b, pos, EncodeBody(block, pos, out)) && |ExpandBlock(block, pos, out)| <= limit
    ensures InflateSpec.Block(kind, b, pos, out, limit).value
         == (ExpandBlock(block, pos, out), pos + |EncodeBody(block, pos, out)|)
  {
    hide Stored, EncodePreamble, EncodeTokens, AllEncodable, Playable, Expand, ValidPreamble, UsableTrees, Compressed;
    hide FixedLiteralLengths, FixedDistanceLengths, LiteralLengths, DistanceLengths, ToBits, Stream, StandsAt;
    hide DynamicLengths;
    if kind == 0 {
      var padding, data := WrittenIsStored(b, pos, out, limit);
      block := StoredBlock(padding, data);
    } else if kind == 1 {
      var tokens := WrittenIsFixed(b, pos, out, limit);
      block := FixedBlock(tokens);
    } else {
      var preamble, tokens := WrittenIsDynamic(b, pos, out, limit);
      block := DynamicBlock(preamble, tokens);
    }
  }

  // ---- streams ----

  /** The final mark and the two-bit type of a block. */
  function BlockHead(block: Rfc1951.Block, last: bool): (w: seq<bool>)
    ensures |w| == 3
  {
    [last] + ToBits(BlockKind(block), 2)
  }

  lemma HeadWritten(b: seq<bool>, pos: nat, block: Rfc1951.Block, last: bool)
    requires StandsAt(b, pos, BlockHead(block, last))
    ensures Read(b, pos, 1) == Ok((if last then 1 else 0, pos + 1))
    ensures Read(b, pos + 1, 2) == Ok((BlockKind(block), pos + 3))
  {
    StandsAtConcat(b, pos, [last], ToBits(BlockKind(block), 2));
    Pow2Values();
    OneBit(last);
    ReadWritten(b, pos, if last then 1 else 0, 1);
    ReadWritten(b, pos + 1, BlockKind(block), 2);
  }

  lemma OneBit(bit: bool)
    ensures ToBits(if bit then 1 else 0, 1) == [bit]
    ensures Value([bit]) == if bit then 1 else 0
  {
  }

  lemma WrittenIsHead(b: seq<bool>, pos: nat, block: Rfc1951.Block)
    requires pos <= |b| && Read(b, pos, 1).Ok? && Read(b, pos + 1, 2).Ok?
    requires BlockKind(block) == Read(b, pos + 1, 2).value.0
    ensures StandsAt(b, pos, BlockHead(block, Read(b, pos, 1).value.0 != 0))
  {
    WrittenIsRead(b, pos + 1, 2);
    OneBit(b[pos]);
    assert b[pos..pos + 1] == [b[pos]];
    StandsAtConcat(b, pos, [b[pos]], ToBits(BlockKind(block), 2));
  }

  lemma StreamParts(blocks: seq<Rfc1951.Block>, pos: nat, out: seq<Byte>)
    requires ValidStream(blocks, pos, out)
    ensures var front := BlockHead(blocks[0], |blocks| == 1) + EncodeBody(blocks[0], pos + 3, out);
            EncodeStream(blocks, pos, out)
            == if |blocks| == 1 then front
               else
                 front + EncodeStream(blocks[1..], BlockEnd(blocks[0], pos, out), ExpandBlock(blocks[0], pos + 3, out))
  {
    hide EncodeBody, ExpandBlock, ToBits;
  }

  /** A written stream decodes to its expansion. */
  lemma {:induction false} StreamWritten(b: seq<bool>, pos: nat, out: seq<Byte>, limit: nat, blocks: seq<Rfc1951.Block>)
    requires |b| % 8 == 0 && ValidStream(blocks, pos, out)
    requires StandsAt(b, pos, EncodeStream(blocks, pos, out)) && |ExpandStream(blocks, pos, out)| <= limit
    ensures Blocks(b, pos, out, limit) == Ok((ExpandStream(blocks, pos, out), pos + |EncodeStream(blocks, pos, out)|))
    decreases blocks
  {
    hide EncodeBody, ExpandBlock, EncodeStream, ValidBlock, BlockHead, InflateSpec.Block, Read, BlockKind;
    StreamParts(blocks, pos, out);
    var head, body := BlockHead(blocks[0], |blocks| == 1), EncodeBody(blocks[0], pos + 3, out);
    var end, more := BlockEnd(blocks[0], pos, out), ExpandBlock(blocks[0], pos + 3, out);
    if |blocks| > 1 {
      StandsAtConcat(b, pos, head + body, EncodeStream(blocks[1..], end, more));
    }
    StandsAtConcat(b, pos, head, body);
    HeadWritten(b, pos, blocks[0], |blocks| == 1);
    BodyWritten(blocks[0], b, pos + 3, out, limit);
    if |blocks| > 1 {
      StreamWritten(b, end, more, limit, blocks[1..]);
    }
  }

  /** A decoded stream is a written stream. */
  lemma {:induction false} WrittenIsStream(
      b: seq<bool>, pos: nat, out: seq<Byte>, limit: nat) returns (blocks: seq<Rfc1951.Block>)
    requires pos <= |b| && |b| % 8 == 0 && |out| <= limit && Blocks(b, pos, out, limit).Ok?
    ensures ValidStream(blocks, pos, out) && StandsAt(b, pos, EncodeStream(blocks, pos, out))
    ensures ExpandStream(blocks, pos, out) == Blocks(b, pos, out, limit).value.0
    ensures |ExpandStream(blocks, pos, out)| <= limit
    decreases |b| - pos
  {
    hide EncodeBody, ExpandBlock, EncodeStream, ValidBlock, BlockHead, InflateSpec.Block, Read, BlockKind, StandsAt;
    var final := Read(b, pos, 1).value.0;
    var kind := Read(b, pos + 1, 2).value.0;
    var first := WrittenIsBody(kind, b, pos + 3, out, limit);
    WrittenIsHead(b, pos, first);
    var end, more := BlockEnd(first, pos, out), ExpandBlock(first, pos + 3, out);
    if final != 0 {
      blocks := [first];
    } else {
      var rest := WrittenIsStream(b, end, more, limit);
      blocks := [first] + rest;
      assert blocks[1..] == rest;
    }
    StreamParts(blocks, pos, out);
    var head, body := BlockHead(first, final != 0), EncodeBody(first, pos + 3, out);
    StandsAtConcat(b, pos, head, body);
    if final == 0 {
      StandsAtConcat(b, pos, head + body, EncodeStream(blocks[1..], end, more));
    }
  }

  // ---- the theorem ----

  /** Inflating gives out exactly when the input describes out and out fits the limit. */
  lemma InflateIsExact(input: seq<Byte>, limit: nat, out: seq<Byte>)
    ensures Inflated(input, limit) == Ok(out) <==>
            |out| <= limit && exists blocks :: Describes(blocks, input, out)
  {
    hide Blocks, ValidStream, EncodeStream, ExpandStream;
    if Inflated(input, limit) == Ok(out) {
      var blocks := WrittenIsStream(Stream(input), 0, [], limit);
      assert Describes(blocks, input, out);
    }
    if |out| <= limit && exists blocks :: Describes(blocks, input, out) {
      var blocks :| Describes(blocks, input, out);
      StreamNotEmpty(blocks);
      StreamWritten(Stream(input), 0, [], limit, blocks);
    }
  }

  lemma StreamNotEmpty(blocks: seq<Rfc1951.Block>)
    requires ValidStream(blocks, 0, [])
    ensures EncodeStream(blocks, 0, []) != []
  {
    hide EncodeBody, ExpandBlock;
  }

  /** The default limit of 256 MiB. */
  const DEFAULT_OUTPUT_LIMIT: nat := 256 * 1024 * 1024

  method InflateRawDeflate(input: seq<Byte>) returns (r: Outcome<seq<Byte>>)
    ensures r.Ok? ==> |r.value| <= DEFAULT_OUTPUT_LIMIT && exists blocks :: Describes(blocks, input, r.value)
    ensures forall blocks, out :: Describes(blocks, input, out) && |out| <= DEFAULT_OUTPUT_LIMIT ==> r == Ok(out)
  {
    r := InflateRawDeflateBounded(input, DEFAULT_OUTPUT_LIMIT);
    forall out
      ensures r == Ok(out) <==> |out| <= DEFAULT_OUTPUT_LIMIT && exists blocks :: Describes(blocks, input, out)
    {
      InflateIsExact(input, DEFAULT_OUTPUT_LIMIT, out);
    }
  }

  // ---- round trips ----

  /** The bytes of a bit string, the last one filled up with zeros. */
  function Pack(b: seq<bool>): (bytes: seq<Byte>)
  {
    BytesOf(b + Zeros(Aligned(|b|) - |b|))
  }

  lemma PackedBits(b: seq<bool>)
    ensures b <= Stream(Pack(b))
  {
    StreamOfBytes(b + Zeros(Aligned(|b|) - |b|));
  }

  /** Any valid stream, packed into bytes, inflates to its expansion. */
  lemma RoundTrip(blocks: seq<Rfc1951.Block>, limit: nat)
    requires ValidStream(blocks, 0, []) && |ExpandStream(blocks, 0, [])| <= limit
    ensures Inflated(Pack(EncodeStream(blocks, 0, [])), limit) == Ok(ExpandStream(blocks, 0, []))
  {
    hide ValidStream, EncodeStream, ExpandStream, Inflated, Pack;
    var input, out := Pack(EncodeStream(blocks, 0, [])), ExpandStream(blocks, 0, []);
    PackedBits(EncodeStream(blocks, 0, []));
    assert Describes(blocks, input, out);
    InflateIsExact(input, limit, out);
  }

  /** Every playable token list can be written as one block with the fixed codes. */
  lemma FixedRoundTrip(tokens: seq<Token>, limit: nat)
    requires Playable([], tokens) && |Expand([], tokens)| <= limit
    ensures var blocks := [FixedBlock(tokens)];
            && ValidStream(blocks, 0, [])
            && Inflated(Pack(EncodeStream(blocks, 0, [])), limit) == Ok(Expand([], tokens))
  {
    hide Inflated, Pack, EncodeStream;
    PlayableTokensValid([], tokens);
    RoundTrip([FixedBlock(tokens)], limit);
  }

  lemma {:induction false} PlayableTokensValid(out: seq<Byte>, tokens: seq<Token>)
    requires Playable(out, tokens)
    ensures forall i :: 0 <= i < |tokens| ==> ValidToken(tokens[i])
    ensures AllEncodable(FixedLiteralLengths(), FixedDistanceLengths(), tokens)
    decreases tokens
  {
    if tokens != [] {
      PlayableTokensValid(Apply(out, tokens[0]), tokens[1..]);
      assert tokens == [tokens[0]] + tokens[1..];
    }
  }

  function LittleEndian(v: nat): (bytes: seq<Byte>)
    requires v <= 0xFFFF
    ensures |bytes| == 2
  {
    [v % 0x100, v / 0x100]
  }

  /** The stored encoder of fuzz/src/lib.rs: one final block of literal bytes. */
  function StoredDeflate(data: seq<Byte>): (bytes: seq<Byte>)
    requires |data| <= 0xFFFF
  {
    [1] + LittleEndian(|data|) + LittleEndian(0xFFFF - |data|) + data
  }

  lemma StoredRoundTrip(data: seq<Byte>, limit: nat)
    requires |data| <= 0xFFFF && |data| <= limit
    ensures Inflated(StoredDeflate(data), limit) == Ok(data)
  {
    hide Inflated, StoredDeflate, Stream, ToBits;
    var blocks := [StoredBlock(Repeat(false, 5), data)];
    assert EncodeStream(blocks, 0, []) == Stream(StoredDeflate(data)) by {
      StoredBytes(data);
    }
    assert Describes(blocks, StoredDeflate(data), data);
    InflateIsExact(StoredDeflate(data), limit, data);
  }

  lemma StoredBytes(data: seq<Byte>)
    requires |data| <= 0xFFFF
    ensures Stream(StoredDeflate(data))
         == [true] + ToBits(0, 2) + (Repeat(false, 5) + ToBits(|data|, 16) + ToBits(0xFFFF - |data|, 16) + Stream(data))
  {
    hide ToBits, Stream, Repeat, LittleEndian;
    var a, c, d: seq<Byte> := [1], LittleEndian(|data|), LittleEndian(0xFFFF - |data|);
    StreamOfAppend(a + c + d, data);
    StreamOfAppend(a + c, d);
    StreamOfAppend(a, c);
    LittleEndianBits(|data|);
    LittleEndianBits(0xFFFF - |data|);
    StoredHead();
    RegroupSix([true], ToBits(0, 2), Repeat(false, 5), Stream(c), Stream(d), Stream(data));
  }

  lemma RegroupSix<T>(a: seq<T>, b: seq<T>, c: seq<T>, d: seq<T>, e: seq<T>, f: seq<T>)
    ensures a + b + c + d + e + f == a + b + (c + d + e + f)
  {
  }

  /** The first byte of a final stored block: the final mark, the type and five bits of padding. */
  lemma StoredHead()
    ensures Stream([1]) == [true] + ToBits(0, 2) + Repeat(false, 5)
  {
    assert Stream([1]) == ToBits(1, 8) + Stream([]);
    assert ToBits(1, 8) == [true] + ToBits(0, 7);
    ToBitsOfZero(7);
    ToBitsOfZero(2);
  }

  lemma {:induction false} ToBitsOfZero(n: nat)
    ensures ToBits(0, n) == Repeat(false, n)
  {
    if n > 0 {
      ToBitsOfZero(n - 1);
    }
  }

  lemma LittleEndianBits(v: nat)
    requires v <= 0xFFFF
    ensures Stream(LittleEndian(v)) == ToBits(v, 16)
  {
    hide ToBits, Value, Stream;
    var low: Byte, high: Byte := v % 0x100, v / 0x100;
    StreamOfTwo(low, high);
    ValueOfAppend(ToBits(low, 8), ToBits(high, 8));
    ByteValue(low);
    ByteValue(high);
    ShlIsProduct(high, 8);
    Pow2Values();
    ValueOfToBits(v, 16);
    ValueInjective(Stream(LittleEndian(v)), ToBits(v, 16));
  }

  lemma StreamOfTwo(low: Byte, high: Byte)
    ensures Stream([low, high]) == ToBits(low, 8) + ToBits(high, 8)
  {
    hide ToBits;
    assert [low, high][1..] == [high];
    assert Stream([high]) == ToBits(high, 8) + Stream([]);
  }
}
