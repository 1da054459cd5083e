/**
 * The compressed data format of section 3.2 of RFC 1951, as wide as the decoder takes it,
 * stated from the encoder's side: what a stream is made of, how it is written as bits, and
 * what it expands to. `StandardDeflate` marks the streams that keep to RFC 1951 itself.
 */
module Rfc1951 {
  import opened Bits
  import opened BitReading
  import opened Canonical
  import opened Lz77
  import opened InflateSpec

  // ---- compressed data (sections 3.2.3 and 3.2.5) ----

  /** The trees of a block have codewords for everything the token needs. */
  predicate Encodable(lit: seq<nat>, dist: seq<nat>, t: Token) {
    && ValidToken(t)
    && (t.Literal? ==> Coded(lit, t.byte))
    && (t.Match? ==> Coded(lit, 257 + t.lengthClass) && Coded(dist, t.distanceClass))
  }

  /** The distance of a match: its symbol and extra bits. */
  function DistanceTail(dist: seq<nat>, t: Token): (w: seq<bool>)
    requires t.Match? && ValidToken(t) && Coded(dist, t.distanceClass)
  {
    Codeword(dist, t.distanceClass) + ToBits(t.distanceBits, DistanceExtra(t.distanceClass))
  }

  /** What follows the length symbol of a match. */
  function MatchTail(dist: seq<nat>, t: Token): (w: seq<bool>)
    requires t.Match? && ValidToken(t) && Coded(dist, t.distanceClass)
  {
    ToBits(t.lengthBits, LengthExtra(t.lengthClass)) + DistanceTail(dist, t)
  }

  function EncodeToken(lit: seq<nat>, dist: seq<nat>, t: Token): (w: seq<bool>)
    requires Encodable(lit, dist, t)
  {
    match t
    case Literal(byte) => Codeword(lit, byte)
    case Match(lengthClass, _, _, _) => Codeword(lit, 257 + lengthClass) + MatchTail(dist, t)
  }

  predicate AllEncodable(lit: seq<nat>, dist: seq<nat>, tokens: seq<Token>) {
    Coded(lit, 256) && forall i :: 0 <= i < |tokens| ==> Encodable(lit, dist, tokens[i])
  }

  /** The tokens and then the end-of-block symbol. */
  function EncodeTokens(lit: seq<nat>, dist: seq<nat>, tokens: seq<Token>): (w: seq<bool>)
    requires AllEncodable(lit, dist, tokens)
  {
    if tokens == [] then Codeword(lit, 256)
    else EncodeToken(lit, dist, tokens[0]) + EncodeTokens(lit, dist, tokens[1..])
  }

  /** A block needs a literal tree; the distance tree may be the single absent code. */
  predicate UsableTrees(lit: seq<nat>, dist: seq<nat>) {
    Accepted(lit) && (Accepted(dist) || dist == [0])
  }

  // ---- the header of a dynamic block (section 3.2.7) ----

  datatype Run =
    | OneLength(length: nat)
    | RepeatPrevious(bits: nat)
    | ShortZeros(bits: nat)
    | LongZeros(bits: nat)

  predicate ValidRun(r: Run) {
    match r
    case OneLength(length) => length <= 15
    case RepeatPrevious(bits) => bits < 4
    case ShortZeros(bits) => bits < 8
    case LongZeros(bits) => bits < 128
  }

  function RunSymbol(r: Run): nat {
    match r
    case OneLength(length) => length
    case RepeatPrevious(_) => 16
    case ShortZeros(_) => 17
    case LongZeros(_) => 18
  }

  function RunExtra(r: Run): seq<bool> {
    match r
    case OneLength(_) => []
    case RepeatPrevious(bits) => ToBits(bits, 2)
    case ShortZeros(bits) => ToBits(bits, 3)
    case LongZeros(bits) => ToBits(bits, 7)
  }

  /** The lengths after one more run; repeating needs a previous length. */
  function ApplyRun(lengths: seq<nat>, r: Run): (more: seq<nat>)
    requires r.RepeatPrevious? ==> lengths != []
    ensures |more| > |lengths|
  {
    match r
    case OneLength(length) => lengths + [length]
    case RepeatPrevious(bits) => lengths + Repeat(lengths[|lengths| - 1], bits + 3)
    case ShortZeros(bits) => lengths + Repeat<nat>(0, bits + 3)
    case LongZeros(bits) => lengths + Repeat<nat>(0, bits + 11)
  }

  predicate RunsApply(lengths: seq<nat>, runs: seq<Run>)
    decreases runs
  {
    runs == [] || ((runs[0].RepeatPrevious? ==> lengths != []) && RunsApply(ApplyRun(lengths, runs[0]), runs[1..]))
  }

  function ExpandRuns(lengths: seq<nat>, runs: seq<Run>): (more: seq<nat>)
    requires RunsApply(lengths, runs)
    ensures |more| >= |lengths| + |runs|
    decreases runs
  {
    if runs == [] then lengths else ExpandRuns(ApplyRun(lengths, runs[0]), runs[1..])
  }

  predicate RunsEncodable(code: seq<nat>, runs: seq<Run>) {
    forall i :: 0 <= i < |runs| ==> ValidRun(runs[i]) && Coded(code, RunSymbol(runs[i]))
  }

  function EncodeRuns(code: seq<nat>, runs: seq<Run>): (w: seq<bool>)
    requires RunsEncodable(code, runs)
  {
    if runs == [] then []
    else Codeword(code, RunSymbol(runs[0])) + RunExtra(runs[0]) + EncodeRuns(code, runs[1..])
  }

  datatype Preamble = Preamble(literals: nat, distances: nat, codes: nat, code: seq<nat>, runs: seq<Run>)

  /** The code lengths from an index of the transmission order to the last one sent. */
  function EncodeCodeLengths(code: seq<nat>, index: nat, codes: nat): (w: seq<bool>)
    requires index <= codes <= 19 && |code| == 19
    decreases codes - index
  {
    if index == codes then [] else ToBits(code[SentAt(index)], 3) + EncodeCodeLengths(code, index + 1, codes)
  }

  predicate ValidPreamble(h: Preamble) {
    && 257 <= h.literals <= 288 && 1 <= h.distances <= 32 && 4 <= h.codes <= 19
    && |h.code| == 19 && Accepted(h.code)
    && (forall i :: 0 <= i < 19 ==> h.code[i] < 8)
    && (forall i :: h.codes <= i < 19 ==> h.code[SentAt(i)] == 0)
    && RunsEncodable(h.code, h.runs)
    && RunsApply([], h.runs)
    && |ExpandRuns([], h.runs)| == h.literals + h.distances
    && ExpandRuns([], h.runs)[256] != 0
  }

  /** HLIT, HDIST and HCLEN. */
  function EncodeCounts(h: Preamble): (w: seq<bool>)
    requires h.literals >= 257 && h.distances >= 1 && h.codes >= 4
    ensures |w| == 14
  {
    ToBits(h.literals - 257, 5) + ToBits(h.distances - 1, 5) + ToBits(h.codes - 4, 4)
  }

  function EncodePreamble(h: Preamble): (w: seq<bool>)
    requires ValidPreamble(h)
  {
    EncodeCounts(h) + EncodeCodeLengths(h.code, 0, h.codes) + EncodeRuns(h.code, h.runs)
  }

  function LiteralLengths(h: Preamble): seq<nat>
    requires ValidPreamble(h)
  {
    ExpandRuns([], h.runs)[..h.literals]
  }

  function DistanceLengths(h: Preamble): seq<nat>
    requires ValidPreamble(h)
  {
    ExpandRuns([], h.runs)[h.literals..]
  }

  // ---- blocks (sections 3.2.3 to 3.2.6) ----

  datatype Block =
    | StoredBlock(padding: seq<bool>, data: seq<Byte>)
    | FixedBlock(tokens: seq<Token>)
    | DynamicBlock(preamble: Preamble, tokens: seq<Token>)

  /** A block that may follow a given output; pos is the bit position after its type. */
  predicate ValidBlock(block: Block, pos: nat, out: seq<Byte>) {
    match block
    case StoredBlock(padding, data) => |padding| == Aligned(pos) - pos && |data| <= 0xFFFF
    case FixedBlock(tokens) =>
      AllEncodable(FixedLiteralLengths(), FixedDistanceLengths(), tokens) && Playable(out, tokens)
    case DynamicBlock(preamble, tokens) =>
      && ValidPreamble(preamble)
      && UsableTrees(LiteralLengths(preamble), DistanceLengths(preamble))
      && AllEncodable(LiteralLengths(preamble), DistanceLengths(preamble), tokens)
      && Playable(out, tokens)
  }

  function BlockKind(block: Block): nat {
    match block
    case StoredBlock(_, _) => 0
    case FixedBlock(_) => 1
    case DynamicBlock(_, _) => 2
  }

  function EncodeBody(block: Block, pos: nat, out: seq<Byte>): (w: seq<bool>)
    requires ValidBlock(block, pos, out)
  {
    match block
    case StoredBlock(padding, data) =>
      padding + ToBits(|data|, 16) + ToBits(0xFFFF - |data|, 16) + Stream(data)
    case FixedBlock(tokens) => EncodeTokens(FixedLiteralLengths(), FixedDistanceLengths(), tokens)
    case DynamicBlock(preamble, tokens) =>
      EncodePreamble(preamble) + EncodeTokens(LiteralLengths(preamble), DistanceLengths(preamble), tokens)
  }

  function ExpandBlock(block: Block, pos: nat, out: seq<Byte>): (r: seq<Byte>)
    requires ValidBlock(block, pos, out)
    ensures out <= r
  {
    match block
    case StoredBlock(_, data) => out + data
    case FixedBlock(tokens) => Expand(out, tokens)
    case DynamicBlock(_, tokens) => Expand(out, tokens)
  }

  // ---- streams ----

  function BlockEnd(block: Block, pos: nat, out: seq<Byte>): nat
    requires ValidBlock(block, pos + 3, out)
  {
    pos + 3 + |EncodeBody(block, pos + 3, out)|
  }

  /** At least one block, each valid at its position and after the output before it. */
  predicate ValidStream(blocks: seq<Block>, pos: nat, out: seq<Byte>)
    decreases blocks
  {
    && blocks != []
    && ValidBlock(blocks[0], pos + 3, out)
    && (|blocks| > 1 ==>
         ValidStream(blocks[1..], BlockEnd(blocks[0], pos, out), ExpandBlock(blocks[0], pos + 3, out)))
  }

  /** Only the last block carries the final mark. */
  function EncodeStream(blocks: seq<Block>, pos: nat, out: seq<Byte>): (w: seq<bool>)
    requires ValidStream(blocks, pos, out)
    decreases blocks
  {
    [|blocks| == 1] + ToBits(BlockKind(blocks[0]), 2) + EncodeBody(blocks[0], pos + 3, out)
    + (if |blocks| == 1 then []
       else EncodeStream(blocks[1..], BlockEnd(blocks[0], pos, out), ExpandBlock(blocks[0], pos + 3, out)))
  }

  function ExpandStream(blocks: seq<Block>, pos: nat, out: seq<Byte>): (r: seq<Byte>)
    requires ValidStream(blocks, pos, out)
    ensures out <= r
    decreases blocks
  {
    var more := ExpandBlock(blocks[0], pos + 3, out);
    if |blocks| == 1 then more else ExpandStream(blocks[1..], BlockEnd(blocks[0], pos, out), more)
  }

  /** The input begins with these blocks, which expand to out. */
  ghost predicate Describes(blocks: seq<Block>, input: seq<Byte>, out: seq<Byte>) {
    && ValidStream(blocks, 0, [])
    && EncodeStream(blocks, 0, []) <= Stream(input)
    && ExpandStream(blocks, 0, []) == out
  }
}
