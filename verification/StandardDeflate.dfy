/**
 * The streams RFC 1951 itself describes, among those the decoder takes: what a standard
 * stream keeps to, inputs that do not, and what to look at in an input to tell.
 */
module StandardDeflate {
  import opened Outcomes
  import opened Bits
  import opened Slices
  import opened BitReading
  import opened Canonical
  import opened HuffmanTable
  import opened Lz77
  import opened InflateSpec
  import opened Rfc1951
  import opened InflateExact
  import opened InflateTheorem
  import opened UniqueStreams

  // ---- standard streams ----

  /** Every bit pattern belongs to a code: nothing is left of the Kraft sum. */
  predicate Complete(lengths: seq<nat>) {
    Left(lengths, 15) == 0
  }

  /** A single distance code, written with one bit (section 3.2.7). */
  predicate OneCode(lengths: seq<nat>) {
    Count(lengths, 1) == 1 && forall len :: 2 <= len <= 15 ==> Count(lengths, len) == 0
  }

  /** A complete distance code, a single one, or none at all (section 3.2.7). */
  predicate StandardDistances(dist: seq<nat>) {
    Complete(dist) || OneCode(dist) || dist == [0]
  }

  /** The length symbol 284 stands for 257 at most; 258 has a symbol of its own (section 3.2.5). */
  predicate StandardToken(t: Token) {
    t.Match? && t.lengthClass == 27 ==> t.lengthBits < 31
  }

  predicate StandardTokens(tokens: seq<Token>) {
    forall i :: 0 <= i < |tokens| ==> StandardToken(tokens[i])
  }

  /** Codes without holes, and no more than 286 literal and length codes. */
  predicate StandardPreamble(h: Preamble)
    requires ValidPreamble(h)
  {
    && h.literals <= 286 && Complete(h.code) && Complete(LiteralLengths(h)) && StandardDistances(DistanceLengths(h))
  }

  /** A valid block that keeps to RFC 1951. */
  predicate Standard(block: Rfc1951.Block, pos: nat, out: seq<Byte>)
    requires ValidBlock(block, pos, out)
  {
    match block
    case StoredBlock(_, _) => true
    case FixedBlock(tokens) => StandardTokens(tokens)
    case DynamicBlock(h, tokens) => StandardPreamble(h) && StandardTokens(tokens)
  }

  predicate StandardStream(blocks: seq<Rfc1951.Block>, pos: nat, out: seq<Byte>)
    requires ValidStream(blocks, pos, out)
    decreases blocks
  {
    && Standard(blocks[0], pos + 3, out)
    && (|blocks| > 1 ==>
          StandardStream(blocks[1..], BlockEnd(blocks[0], pos, out), ExpandBlock(blocks[0], pos + 3, out)))
  }

  // ---- what an input shows ----

  /** No length symbol 284 is followed by five set bits. */
  ghost predicate ShowsTokens(lit: seq<nat>, dist: seq<nat>, b: seq<bool>, pos: nat, out: seq<Byte>, limit: nat)
    requires pos <= |b| && Symbols(lit, dist, b, pos, out, limit).Ok?
    decreases |b| - pos
  {
    var next := OneSymbol(lit, dist, b, pos, out, limit).value;
    var (symbol, p) := DecodeSymbol(lit, b, pos).value;
    && (symbol == 284 ==> Read(b, p, 5).Ok? && Read(b, p, 5).value.0 < 31)
    && (!next.finished ==> ShowsTokens(lit, dist, b, next.pos, next.out, limit))
  }

  /** HLIT is at most 29, and no code of the header leaves a part of the Kraft sum, but for the distance exceptions. */
  ghost predicate ShowsHeader(b: seq<bool>, pos: nat)
    requires pos <= |b| && DynamicLengths(b, pos).Ok?
  {
    var (lengths, _) := DynamicLengths(b, pos).value;
    && Read(b, pos, 5).Ok? && Read(b, pos, 5).value.0 <= 29
    && Complete(DynamicHeader(b, pos).value.0.code) && Complete(lengths.0) && StandardDistances(lengths.1)
  }

  ghost predicate ShowsBlock(kind: nat, b: seq<bool>, pos: nat, out: seq<Byte>, limit: nat)
    requires pos <= |b| && |b| % 8 == 0 && InflateSpec.Block(kind, b, pos, out, limit).Ok?
  {
    if kind == 0 then true
    else if kind == 1 then ShowsTokens(FixedLiteralLengths(), FixedDistanceLengths(), b, pos, out, limit)
    else
      var (lengths, p) := DynamicLengths(b, pos).value;
      ShowsHeader(b, pos) && ShowsTokens(lengths.0, lengths.1, b, p, out, limit)
  }

  ghost predicate ShowsStream(b: seq<bool>, pos: nat, out: seq<Byte>, limit: nat)
    requires pos <= |b| && |b| % 8 == 0 && Blocks(b, pos, out, limit).Ok?
    decreases |b| - pos
  {
    var final, kind := Read(b, pos, 1).value.0, Read(b, pos + 1, 2).value.0;
    var (more, end) := InflateSpec.Block(kind, b, pos + 3, out, limit).value;
    ShowsBlock(kind, b, pos + 3, out, limit) && (final == 0 ==> ShowsStream(b, end, more, limit))
  }

  // ---- tokens ----

  lemma TokenShows(lit: seq<nat>, dist: seq<nat>, b: seq<bool>, pos: nat, t: Token)
    requires UsableTrees(lit, dist) && Encodable(lit, dist, t) && StandsAt(b, pos, EncodeToken(lit, dist, t))
    ensures DecodeSymbol(lit, b, pos).Ok?
    ensures var (symbol, p) := DecodeSymbol(lit, b, pos).value;
            && (symbol == 284 <==> t.Match? && t.lengthClass == 27)
            && (symbol == 284 ==> Read(b, p, 5).Ok? && Read(b, p, 5).value.0 == t.lengthBits)
  {
    hide DecodeSymbol, Codeword, DistanceTail, StandsAt, Read, ToBits, Accepted;
    if t.Literal? {
      DecodeWritten(lit, b, pos, t.byte);
    } else {
      EncodedMatch(lit, dist, t);
      var s := Codeword(lit, 257 + t.lengthClass);
      StandsAtConcat(b, pos, s, MatchTail(dist, t));
      DecodeWritten(lit, b, pos, 257 + t.lengthClass);
      if t.lengthClass == 27 {
        LengthBitsShow(dist, b, pos + |s|, t);
      }
    }
  }

  lemma LengthBitsShow(dist: seq<nat>, b: seq<bool>, pos: nat, t: Token)
    requires t.Match? && ValidToken(t) && Coded(dist, t.distanceClass) && t.lengthClass == 27
    requires StandsAt(b, pos, MatchTail(dist, t))
    ensures Read(b, pos, 5).Ok? && Read(b, pos, 5).value.0 == t.lengthBits
  {
    hide DistanceTail, ToBits, StandsAt, Read;
    assert LengthExtra(27) == 5;
    StandsAtConcat(b, pos, ToBits(t.lengthBits, 5), DistanceTail(dist, t));
    ReadWritten(b, pos, t.lengthBits, 5);
  }

  lemma {:induction false} TokensShow(
      lit: seq<nat>, dist: seq<nat>, b: seq<bool>, pos: nat, out: seq<Byte>, limit: nat, tokens: seq<Token>)
    requires UsableTrees(lit, dist) && AllEncodable(lit, dist, tokens) && Playable(out, tokens)
    requires StandsAt(b, pos, EncodeTokens(lit, dist, tokens)) && |Expand(out, tokens)| <= limit
    ensures pos <= |b| && Symbols(lit, dist, b, pos, out, limit).Ok?
    ensures StandardTokens(tokens) <==> ShowsTokens(lit, dist, b, pos, out, limit)
    decreases tokens
  {
    hide EncodeToken, Apply, OneSymbol, DecodeSymbol, Read, UsableTrees, Encodable, Symbols, StandsAt, Codeword;
    TokensWritten(lit, dist, b, pos, out, limit, tokens);
    if tokens == [] {
      EndShows(lit, dist, b, pos, out, limit);
    } else {
      var w := EncodeToken(lit, dist, tokens[0]);
      StandsAtConcat(b, pos, w, EncodeTokens(lit, dist, tokens[1..]));
      TokenWritten(lit, dist, b, pos, out, limit, tokens[0]);
      TokenShows(lit, dist, b, pos, tokens[0]);
      TokensShow(lit, dist, b, pos + |w|, Apply(out, tokens[0]), limit, tokens[1..]);
      assert tokens == [tokens[0]] + tokens[1..];
    }
  }

  lemma EndShows(lit: seq<nat>, dist: seq<nat>, b: seq<bool>, pos: nat, out: seq<Byte>, limit: nat)
    requires UsableTrees(lit, dist) && Coded(lit, 256) && StandsAt(b, pos, Codeword(lit, 256))
    ensures pos <= |b| && Symbols(lit, dist, b, pos, out, limit).Ok? && ShowsTokens(lit, dist, b, pos, out, limit)
  {
    hide DecodeSymbol, Codeword, Read, OneSymbol, Accepted;
    EndWritten(lit, dist, b, pos, out, limit);
    DecodeWritten(lit, b, pos, 256);
  }

  // ---- headers and blocks ----

  lemma HeaderShows(b: seq<bool>, pos: nat, h: Preamble)
    requires ValidPreamble(h) && StandsAt(b, pos, EncodePreamble(h))
    ensures pos <= |b|
    ensures DynamicLengths(b, pos) == Ok(((LiteralLengths(h), DistanceLengths(h)), pos + |EncodePreamble(h)|))
    ensures StandardPreamble(h) <==> ShowsHeader(b, pos)
  {
    hide EncodeCounts, EncodeCodeLengths, EncodeRuns, DynamicLengths, Read, Accepted, RunsEncodable, RunsApply;
    hide ExpandRuns;
    hide Complete, StandardDistances, LiteralLengths, DistanceLengths;
    PreambleWritten(b, pos, h);
    var front := EncodeCounts(h) + EncodeCodeLengths(h.code, 0, h.codes);
    StandsAtConcat(b, pos, front, EncodeRuns(h.code, h.runs));
    HeaderWritten(b, pos, h);
    StandsAtConcat(b, pos, EncodeCounts(h), EncodeCodeLengths(h.code, 0, h.codes));
    LiteralCountShows(b, pos, h);
  }

  lemma LiteralCountShows(b: seq<bool>, pos: nat, h: Preamble)
    requires 257 <= h.literals <= 288 && 1 <= h.distances <= 32 && 4 <= h.codes <= 19
    requires StandsAt(b, pos, EncodeCounts(h))
    ensures Read(b, pos, 5).Ok? && Read(b, pos, 5).value.0 == h.literals - 257
  {
    hide ToBits, Read, StandsAt;
    var u, v, w := ToBits(h.literals - 257, 5), ToBits(h.distances - 1, 5), ToBits(h.codes - 4, 4);
    StandsAtConcat(b, pos, u + v, w);
    StandsAtConcat(b, pos, u, v);
    Pow2Values();
    ReadWritten(b, pos, h.literals - 257, 5);
  }

  /** A written block is standard if and only if its bits show it. */
  lemma BodyShows(block: Rfc1951.Block, b: seq<bool>, pos: nat, out: seq<Byte>, limit: nat)
    requires |b| % 8 == 0 && ValidBlock(block, pos, out)
    requires StandsAt(b, pos, EncodeBody(block, pos, out)) && |ExpandBlock(block, pos, out)| <= limit
    ensures pos <= |b| && InflateSpec.Block(BlockKind(block), b, pos, out, limit).Ok?
    ensures Standard(block, pos, out) <==> ShowsBlock(BlockKind(block), b, pos, out, limit)
  {
    hide Stored, EncodePreamble, EncodeTokens, AllEncodable, Playable, Expand, ValidPreamble, UsableTrees, Compressed;
    hide FixedLiteralLengths, FixedDistanceLengths, LiteralLengths, DistanceLengths, ToBits, Stream, StandsAt;
    hide DynamicLengths;
    hide ShowsTokens, ShowsHeader, StandardPreamble, StandardTokens, Symbols;
    BodyWritten(block, b, pos, out, limit);
    match block
    case StoredBlock(_, _) =>
    case FixedBlock(tokens) =>
      FixedTreesUsable();
      TokensShow(FixedLiteralLengths(), FixedDistanceLengths(), b, pos, out, limit, tokens);
    case DynamicBlock(h, tokens) =>
      var lit, dist := LiteralLengths(h), DistanceLengths(h);
      StandsAtConcat(b, pos, EncodePreamble(h), EncodeTokens(lit, dist, tokens));
      HeaderShows(b, pos, h);
      TokensShow(lit, dist, b, pos + |EncodePreamble(h)|, out, limit, tokens);
  }

  // ---- streams ----

  /** A written stream is standard if and only if its bits show it. */
  lemma {:induction false} StreamShows(b: seq<bool>, pos: nat, out: seq<Byte>, limit: nat, blocks: seq<Rfc1951.Block>)
    requires |b| % 8 == 0 && ValidStream(blocks, pos, out)
    requires StandsAt(b, pos, EncodeStream(blocks, pos, out)) && |ExpandStream(blocks, pos, out)| <= limit
    ensures pos <= |b| && Blocks(b, pos, out, limit).Ok?
    ensures StandardStream(blocks, pos, out) <==> ShowsStream(b, pos, out, limit)
    decreases blocks
  {
    hide EncodeBody, ExpandBlock, EncodeStream, ValidBlock, BlockHead, InflateSpec.Block, Read, BlockKind, Blocks;
    hide StandsAt;
    hide ShowsBlock, Standard;
    StreamWritten(b, pos, out, limit, blocks);
    StreamParts(blocks, pos, out);
    var head, body := BlockHead(blocks[0], |blocks| == 1), EncodeBody(blocks[0], pos + 3, out);
    var end, more := BlockEnd(blocks[0], pos, out), ExpandBlock(blocks[0], pos + 3, out);
    if |blocks| > 1 {
      StandsAtConcat(b, pos, head + body, EncodeStream(blocks[1..], end, more));
    }
    StandsAtConcat(b, pos, head, body);
    HeadWritten(b, pos, blocks[0], |blocks| == 1);
    BodyWritten(blocks[0], b, pos + 3, out, limit);
    BodyShows(blocks[0], b, pos + 3, out, limit);
    if |blocks| > 1 {
      StreamShows(b, end, more, limit, blocks[1..]);
    }
  }

  /** The input begins with a standard stream that expands to out. */
  ghost predicate DescribesStandard(blocks: seq<Rfc1951.Block>, input: seq<Byte>, out: seq<Byte>) {
    Describes(blocks, input, out) && StandardStream(blocks, 0, [])
  }

  lemma DescribedStands(blocks: seq<Rfc1951.Block>, input: seq<Byte>, out: seq<Byte>)
    requires Describes(blocks, input, out)
    ensures ValidStream(blocks, 0, []) && StandsAt(Stream(input), 0, EncodeStream(blocks, 0, []))
    ensures ExpandStream(blocks, 0, []) == out && |Stream(input)| % 8 == 0
  {
    hide ValidStream, EncodeStream, ExpandStream, Stream;
  }

  /** The stream decodes, and its headers and length codes show it to be standard. */
  ghost predicate Shown(input: seq<Byte>, limit: nat) {
    var b := Stream(input);
    Blocks(b, 0, [], limit).Ok? && ShowsStream(b, 0, [], limit)
  }

  lemma DescribedShows(blocks: seq<Rfc1951.Block>, input: seq<Byte>, limit: nat, out: seq<Byte>)
    requires Describes(blocks, input, out) && |out| <= limit && ValidStream(blocks, 0, [])
    ensures Inflated(input, limit) == Ok(out)
    ensures StandardStream(blocks, 0, []) <==> Shown(input, limit)
  {
    hide Blocks, ValidStream, EncodeStream, ExpandStream, StandardStream, ShowsStream, Inflated, Describes, Stream;
    hide StandsAt;
    InflateIsExact(input, limit, out);
    DescribedStands(blocks, input, out);
    StreamShows(Stream(input), 0, [], limit, blocks);
  }

  /** An input holds an RFC 1951 stream of out exactly when it inflates to out and its headers and lengths show it. */
  lemma InflatesStandard(input: seq<Byte>, limit: nat, out: seq<Byte>)
    ensures Shown(input, limit) && Inflated(input, limit) == Ok(out)
       <==> |out| <= limit && exists blocks :: DescribesStandard(blocks, input, out)
  {
    hide ValidStream, StandardStream, Shown, Inflated, Describes, Stream;
    if |out| <= limit && exists blocks :: DescribesStandard(blocks, input, out) {
      var blocks :| DescribesStandard(blocks, input, out);
      DescribedStands(blocks, input, out);
      DescribedShows(blocks, input, limit, out);
    }
    if Shown(input, limit) && Inflated(input, limit) == Ok(out) {
      InflateIsExact(input, limit, out);
      var blocks :| Describes(blocks, input, out);
      DescribedStands(blocks, input, out);
      DescribedShows(blocks, input, limit, out);
      assert DescribesStandard(blocks, input, out);
    }
  }

  // ---- inputs that inflate and are not standard ----

  /** A code for the three run-length symbols 0, 1 and 18, with no hole. */
  function SmallCode(): (code: seq<nat>)
    ensures |code| == 19
  {
    [2, 2] + Repeat<nat>(0, 16) + [1]
  }

  lemma SmallCodeCounts(len: nat)
    ensures Count(SmallCode(), len) == if len == 0 then 16 else if len == 1 then 1 else if len == 2 then 2 else 0
  {
    CountAppend([2, 2] + Repeat<nat>(0, 16), [1], len);
    CountAppend([2, 2], Repeat<nat>(0, 16), len);
    CountRepeat(0, 16, len);
    assert [2, 2][..1] == [2] && [2][..0] == [] && [1][..0] == [];
    assert Count([2], len) == (if len == 2 then 1 else 0) && Count([1], len) == (if len == 1 then 1 else 0);
  }

  lemma SmallCodeIsComplete()
    ensures Accepted(SmallCode()) && Complete(SmallCode())
  {
    hide Count, SmallCode;
    var len := 0;
    while len < 15
      invariant 0 <= len <= 15
      invariant Left(SmallCode(), len) == if len == 0 then 1 else if len == 1 then 1 else 0
      invariant forall k :: 0 <= k <= len ==> Left(SmallCode(), k) >= 0
    {
      len := len + 1;
      SmallCodeCounts(len);
    }
    SmallCodeShape();
  }

  lemma SmallCodeShape()
    ensures AllShort(SmallCode()) && !AllAbsent(SmallCode())
    ensures Coded(SmallCode(), 0) && Coded(SmallCode(), 1) && Coded(SmallCode(), 18)
    ensures forall i :: 0 <= i < 19 ==> SmallCode()[i] < 8
    ensures forall i :: 2 <= i < 18 ==> SmallCode()[i] == 0
  {
    assert SmallCode()[0] == 2 && SmallCode()[18] == 1;
  }

  /** No code but the end of the block, of one bit; with `second`, symbol 287 has the other one. */
  function FewLiterals(second: bool): (lit: seq<nat>)
    ensures |lit| == if second then 288 else 257
  {
    Repeat<nat>(0, 256) + [1] + (if second then Repeat<nat>(0, 30) + [1] else [])
  }

  lemma FewLiteralCounts(second: bool, len: nat)
    requires len > 0
    ensures Count(FewLiterals(second), len) == if len == 1 then (if second then 2 else 1) else 0
  {
    var front, tail := Repeat<nat>(0, 256) + [1], (if second then Repeat<nat>(0, 30) + [1] else []);
    CountAppend(front, tail, len);
    CountAppend(Repeat<nat>(0, 256), [1], len);
    CountRepeat(0, 256, len);
    CountAppend(Repeat<nat>(0, 30), [1], len);
    CountRepeat(0, 30, len);
    assert [1][..0] == [];
    assert Count([1], len) == if len == 1 then 1 else 0;
  }

  /** Two codes of one bit leave nothing, one leaves a half. */
  lemma FewLiteralsFit(second: bool)
    ensures Accepted(FewLiterals(second)) && (Complete(FewLiterals(second)) <==> second)
  {
    hide Count, FewLiterals, Pow2;
    Pow2Values();
    var lit, len := FewLiterals(second), 0;
    while len < 15
      invariant 0 <= len <= 15
      invariant Left(lit, len) == if len == 0 then 1 else if second then 0 else Pow2(len - 1)
      invariant forall k :: 0 <= k <= len ==> Left(lit, k) >= 0
    {
      len := len + 1;
      FewLiteralCounts(second, len);
    }
    FewLiteralsShape(second);
  }

  lemma FewLiteralsShape(second: bool)
    ensures AllShort(FewLiterals(second)) && !AllAbsent(FewLiterals(second)) && Coded(FewLiterals(second), 256)
  {
    assert FewLiterals(second)[256] == 1;
  }

  /** 256 zeros, the end of the block, with `second` 30 zeros and one more code; and no distance code. */
  function FewRuns(second: bool): (runs: seq<Run>) {
    [LongZeros(127)] + ([LongZeros(107)] + ([OneLength(1)] + LaterRuns(second)))
  }

  function LaterRuns(second: bool): (runs: seq<Run>) {
    (if second then [LongZeros(19), OneLength(1)] else []) + [OneLength(0)]
  }

  lemma RunFirst(lengths: seq<nat>, r: Run, rest: seq<Run>)
    requires !r.RepeatPrevious? && RunsApply(ApplyRun(lengths, r), rest)
    ensures RunsApply(lengths, [r] + rest) && ExpandRuns(lengths, [r] + rest) == ExpandRuns(ApplyRun(lengths, r), rest)
  {
    hide ApplyRun;
    assert ([r] + rest)[1..] == rest;
  }

  lemma RepeatTwice(value: nat, n: nat, m: nat)
    ensures Repeat(value, n) + Repeat(value, m) == Repeat(value, n + m)
  {
  }

  lemma LaterRunsExpand(second: bool, lengths: seq<nat>)
    ensures RunsApply(lengths, LaterRuns(second))
    ensures ExpandRuns(lengths, LaterRuns(second)) == lengths + (if second then Repeat<nat>(0, 30) + [1] else []) + [0]
  {
    hide Repeat;
    var zeros := lengths + Repeat<nat>(0, 30);
    assert [OneLength(0)] + [] == [OneLength(0)];
    if second {
      RunFirst(zeros + [1], OneLength(0), []);
      RunFirst(zeros, OneLength(1), [OneLength(0)]);
      RunFirst(lengths, LongZeros(19), [OneLength(1)] + [OneLength(0)]);
      assert LaterRuns(true) == [LongZeros(19)] + ([OneLength(1)] + [OneLength(0)]);
      assert zeros + [1] + [0] == lengths + (Repeat<nat>(0, 30) + [1]) + [0];
    } else {
      RunFirst(lengths, OneLength(0), []);
      assert LaterRuns(false) == [OneLength(0)] && lengths + [] + [0] == lengths + [0];
    }
  }

  lemma FewRunsApply()
    ensures ApplyRun([], LongZeros(127)) == Repeat<nat>(0, 138)
    ensures ApplyRun(Repeat<nat>(0, 138), LongZeros(107)) == Repeat<nat>(0, 256)
    ensures ApplyRun(Repeat<nat>(0, 256), OneLength(1)) == Repeat<nat>(0, 256) + [1]
  {
    hide Repeat;
    RepeatTwice(0, 138, 118);
    assert [] + Repeat<nat>(0, 138) == Repeat<nat>(0, 138);
  }

  lemma FewRunsExpand(second: bool)
    ensures RunsApply([], FewRuns(second)) && ExpandRuns([], FewRuns(second)) == FewLiterals(second) + [0]
  {
    hide Repeat, LaterRuns, RunsApply, ExpandRuns, ApplyRun;
    var rest := LaterRuns(second);
    FewRunsApply();
    LaterRunsExpand(second, Repeat<nat>(0, 256) + [1]);
    RunFirst(Repeat<nat>(0, 256), OneLength(1), rest);
    RunFirst(Repeat<nat>(0, 138), LongZeros(107), [OneLength(1)] + rest);
    RunFirst([], LongZeros(127), [LongZeros(107)] + ([OneLength(1)] + rest));
  }

  function FewPreamble(second: bool): (h: Preamble) {
    Preamble(if second then 288 else 257, 1, 18, SmallCode(), FewRuns(second))
  }

  lemma FewPreambleIsValid(second: bool)
    ensures ValidPreamble(FewPreamble(second))
    ensures LiteralLengths(FewPreamble(second)) == FewLiterals(second) && DistanceLengths(FewPreamble(second)) == [0]
  {
    hide SmallCode, FewLiterals, Accepted, RunsApply, ExpandRuns, Coded;
    SmallCodeIsComplete();
    SmallCodeShape();
    FewRunsExpand(second);
    FewLiteralsShape(second);
    EndIsCoded(second);
    assert SentAt(18) == 15;
    var all := FewLiterals(second) + [0];
    assert all[..|all| - 1] == FewLiterals(second) && all[|all| - 1..] == [0];
  }

  lemma EndIsCoded(second: bool)
    ensures FewLiterals(second)[256] == 1
  {
  }

  function FewBlock(second: bool): (block: Rfc1951.Block) {
    DynamicBlock(FewPreamble(second), [])
  }

  lemma FewBlockIsValid(second: bool)
    ensures ValidStream([FewBlock(second)], 0, []) && ExpandStream([FewBlock(second)], 0, []) == []
    ensures !StandardStream([FewBlock(second)], 0, [])
  {
    hide ValidPreamble, FewPreamble, LiteralLengths, DistanceLengths, FewLiterals, Accepted, Complete;
    FewPreambleIsValid(second);
    FewLiteralsFit(second);
    FewLiteralsShape(second);
    FewPreambleIsNotStandard(second);
  }

  lemma FewPreambleIsNotStandard(second: bool)
    requires ValidPreamble(FewPreamble(second)) && LiteralLengths(FewPreamble(second)) == FewLiterals(second)
    requires Complete(FewLiterals(second)) <==> second
    ensures !StandardPreamble(FewPreamble(second))
  {
    hide ValidPreamble, LiteralLengths, DistanceLengths, FewLiterals, Complete;
  }

  /** The bytes of a stream that is not standard inflate, though no RFC 1951 stream stands in them. */
  lemma InflatesAnyway(blocks: seq<Rfc1951.Block>, limit: nat) returns (input: seq<Byte>)
    requires ValidStream(blocks, 0, []) && !StandardStream(blocks, 0, []) && |ExpandStream(blocks, 0, [])| <= limit
    ensures Inflated(input, limit) == Ok(ExpandStream(blocks, 0, []))
    ensures forall other, out :: !DescribesStandard(other, input, out)
  {
    hide ValidStream, EncodeStream, ExpandStream, StandardStream, Inflated, Pack, Shown, Describes;
    input := Pack(EncodeStream(blocks, 0, []));
    var out := ExpandStream(blocks, 0, []);
    RoundTrip(blocks, limit);
    PackedDescribes(blocks);
    DescribedShows(blocks, input, limit, out);
    forall other, found
      ensures !DescribesStandard(other, input, found)
    {
      if DescribesStandard(other, input, found) {
        DescriptionIsUnique(input, blocks, other, out, found);
        DescribedStands(other, input, found);
        DescribedShows(other, input, limit, out);
      }
    }
  }

  /** Such inputs: 288 literal codes, or a literal code with a hole. */
  lemma FewLiteralsInflate(second: bool, limit: nat) returns (input: seq<Byte>)
    ensures Inflated(input, limit) == Ok([])
    ensures forall blocks, out :: !DescribesStandard(blocks, input, out)
  {
    hide ValidStream, EncodeStream, ExpandStream, StandardStream, Inflated, FewBlock, DescribesStandard;
    FewBlockIsValid(second);
    input := InflatesAnyway([FewBlock(second)], limit);
  }

  /** One byte, and then 258 copies of it by the length symbol 284. */
  function LongMatch(): (tokens: seq<Token>) {
    [Literal(0), Match(27, 31, 0, 0)]
  }

  lemma LongMatchIsPlayable()
    ensures Playable([], LongMatch()) && |Expand([], LongMatch())| == 259 && !StandardTokens(LongMatch())
  {
    var t := LongMatch()[1];
    assert LengthBase(27) == 227 && LengthExtra(27) == 5 && DistanceBase(0) == 1 && DistanceExtra(0) == 0;
    Pow2Values();
    assert Apply([], LongMatch()[0]) == [0];
    assert LongMatch()[1..] == [t] && [t][1..] == [];
    assert Length(t) == 258 && Distance(t) == 1;
    assert !StandardToken(t);
  }

  /** Such an input with the fixed codes: a length of 258 written with the symbol 284. */
  lemma LongMatchInflates(limit: nat) returns (input: seq<Byte>)
    requires limit >= 259
    ensures Inflated(input, limit).Ok? && |Inflated(input, limit).value| == 259
    ensures forall blocks, out :: !DescribesStandard(blocks, input, out)
  {
    hide ValidBlock, EncodeStream, EncodeBody, Inflated, Describes, Expand, Playable, StandardTokens, LongMatch, Pack;
    LongMatchIsPlayable();
    FixedRoundTrip(LongMatch(), limit);
    input := InflatesAnyway([FixedBlock(LongMatch())], limit);
  }

  lemma PackedDescribes(blocks: seq<Rfc1951.Block>)
    requires ValidStream(blocks, 0, [])
    ensures Describes(blocks, Pack(EncodeStream(blocks, 0, [])), ExpandStream(blocks, 0, []))
  {
    hide ValidStream, EncodeStream, ExpandStream, Pack;
    PackedBits(EncodeStream(blocks, 0, []));
  }
}
