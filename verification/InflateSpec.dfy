/**
 * The decoder of src/metadata/deflate.rs as functions on the bit stream: every step
 * gives a value and the next position, or a diagnostic and where it is reported.
 */
module InflateSpec {
  import opened Outcomes
  import opened Bits
  import opened BitReading
  import opened Canonical
  import opened HuffmanTable
  import opened Lz77

  /** The order in which the code lengths of the code-length alphabet are sent. */
  const ORDER: seq<nat> := [16, 17, 18, 0, 8, 7, 9, 6, 10, 5, 11, 4, 12, 3, 13, 2, 14, 1, 15]

  /** The code-length symbol whose length is sent at an index. */
  function SentAt(index: nat): (symbol: nat)
    requires index < 19
    ensures symbol < 19
  {
    ORDER[index]
  }

  function Repeat<T>(value: T, n: nat): (r: seq<T>)
    ensures |r| == n && forall i :: 0 <= i < n ==> r[i] == value
  {
    seq(n, _ => value)
  }

  function FixedLiteralLengths(): (r: seq<nat>)
    ensures |r| == 288
  {
    Repeat(8, 144) + Repeat(9, 112) + Repeat(7, 24) + Repeat(8, 8)
  }

  function FixedDistanceLengths(): (r: seq<nat>)
    ensures |r| == 32
  {
    Repeat(5, 32)
  }

  function Reserved(out: seq<Byte>, additional: nat, limit: nat, pos: nat): (r: Outcome<()>)
  {
    if |out| + additional <= limit || additional == 0 then Ok(()) else Fail(pos, OutputLimitExceeded)
  }

  function Stored(b: seq<bool>, pos: nat, out: seq<Byte>, limit: nat): (r: Outcome<(seq<Byte>, nat)>)
    requires pos <= |b| && |b| % 8 == 0
    ensures r.Ok? ==> pos < r.value.1 <= |b|
  {
    var (length, p) :- ReadU16(b, Aligned(pos));
    var (complement, q) :- ReadU16(b, p);
    if length != 0xFFFF - complement then Fail(q, StoredLengthMismatch)
    else
      var _ :- Reserved(out, length, limit, q);
      var (bytes, end) :- ReadBytes(b, q, length);
      Ok((out + bytes, end))
  }

  /** A match as the length and distance it stands for. */
  datatype Reference = Reference(length: nat, distance: nat)

  /** The base of a length class plus the extra bits that follow its symbol. */
  ghost function LengthOf(lengthClass: nat, b: seq<bool>, pos: nat): (r: Outcome<(nat, nat)>)
    requires pos <= |b| && lengthClass < LENGTHS
    ensures r.Ok? ==> pos <= r.value.1 <= |b|
  {
    var (bits, p) :- Read(b, pos, LengthExtra(lengthClass));
    Ok((LengthBase(lengthClass) + bits, p))
  }

  ghost function DistanceOf(dist: seq<nat>, b: seq<bool>, pos: nat): (r: Outcome<(nat, nat)>)
    requires pos <= |b|
    ensures r.Ok? ==> pos < r.value.1 <= |b|
  {
    var (symbol, p) :- DecodeSymbol(dist, b, pos);
    if symbol >= DISTANCES then Fail(p, InvalidDistanceSymbol)
    else
      var (bits, end) :- Read(b, p, DistanceExtra(symbol));
      Ok((DistanceBase(symbol) + bits, end))
  }

  /** The rest of a match whose length symbol has been decoded. */
  ghost function MatchReference(
      dist: seq<nat>, b: seq<bool>, pos: nat, lengthClass: nat): (r: Outcome<(Reference, nat)>)
    requires pos <= |b| && lengthClass < LENGTHS
    ensures r.Ok? ==> pos < r.value.1 <= |b|
  {
    var (length, p) :- LengthOf(lengthClass, b, pos);
    if !Accepted(dist) then Fail(p, NoDistanceTree)
    else
      var (distance, end) :- DistanceOf(dist, b, p);
      Ok((Reference(length, distance), end))
  }

  /** What one symbol does: the output after it, where it ends, and whether the block ends. */
  datatype Progress = Progress(out: seq<Byte>, pos: nat, finished: bool)

  ghost function OneMatch(dist: seq<nat>, b: seq<bool>, pos: nat, lengthClass: nat, out: seq<Byte>, limit: nat)
    : (r: Outcome<(seq<Byte>, nat)>)
    requires pos <= |b| && lengthClass < LENGTHS
    ensures r.Ok? ==> pos < r.value.1 <= |b|
  {
    var (reference, p) :- MatchReference(dist, b, pos, lengthClass);
    if reference.distance == 0 || reference.distance > |out| then Fail(p, ReferenceOutOfRange)
    else
      var _ :- Reserved(out, reference.length, limit, p);
      Ok((CopyBytes(out, reference.distance, reference.length), p))
  }

  ghost function OneSymbol(lit: seq<nat>, dist: seq<nat>, b: seq<bool>, pos: nat, out: seq<Byte>, limit: nat)
    : (r: Outcome<Progress>)
    requires pos <= |b|
    ensures r.Ok? ==> pos < r.value.pos <= |b|
  {
    var (symbol, p) :- DecodeSymbol(lit, b, pos);
    if symbol <= 255 then
      var _ :- Reserved(out, 1, limit, p);
      Ok(Progress(out + [symbol], p, false))
    else if symbol == 256 then Ok(Progress(out, p, true))
    else if symbol <= 285 then
      var (longer, q) :- OneMatch(dist, b, p, symbol - 257, out, limit);
      Ok(Progress(longer, q, false))
    else Fail(p, InvalidLiteralSymbol)
  }

  /** The symbols of a block up to its end-of-block symbol. */
  ghost function Symbols(lit: seq<nat>, dist: seq<nat>, b: seq<bool>, pos: nat, out: seq<Byte>, limit: nat)
    : (r: Outcome<(seq<Byte>, nat)>)
    requires pos <= |b|
    ensures r.Ok? ==> pos < r.value.1 <= |b|
    decreases |b| - pos
  {
    var next :- OneSymbol(lit, dist, b, pos, out, limit);
    if next.finished then Ok((next.out, next.pos)) else Symbols(lit, dist, b, next.pos, next.out, limit)
  }

  ghost function Compressed(lit: seq<nat>, dist: seq<nat>, b: seq<bool>, pos: nat, out: seq<Byte>, limit: nat)
    : (r: Outcome<(seq<Byte>, nat)>)
    requires pos <= |b|
    ensures r.Ok? ==> pos < r.value.1 <= |b|
  {
    var _ :- BuildOutcome(lit, pos, false);
    var _ :- BuildOutcome(dist, pos, |dist| == 1);
    Symbols(lit, dist, b, pos, out, limit)
  }

  /** The three-bit code lengths from the given index of the transmission order on. */
  function CodeLengths(b: seq<bool>, pos: nat, index: nat, count: nat, lengths: seq<nat>): (r: Outcome<(seq<nat>, nat)>)
    requires pos <= |b| && index <= count <= 19 && |lengths| == 19
    ensures r.Ok? ==> |r.value.0| == 19 && pos <= r.value.1 <= |b|
    decreases count - index
  {
    if index == count then Ok((lengths, pos))
    else
      var (length, p) :- Read(b, pos, 3);
      CodeLengths(b, p, index + 1, count, lengths[SentAt(index) := length])
  }

  function AppendRepeated(lengths: seq<nat>, value: nat, repeat: nat, total: nat, pos: nat): (r: Outcome<seq<nat>>)
  {
    if |lengths| + repeat > total then Fail(pos, RepeatTooLong) else Ok(lengths + Repeat(value, repeat))
  }

  /** One symbol of the run-length coded lengths. */
  function AppendDynamic(
      symbol: nat, b: seq<bool>, pos: nat, lengths: seq<nat>, total: nat): (r: Outcome<(seq<nat>, nat)>)
    requires pos <= |b|
    ensures r.Ok? ==> pos <= r.value.1 <= |b|
    ensures r.Ok? && |lengths| < total ==> |lengths| < |r.value.0| <= total
  {
    if symbol <= 15 then Ok((lengths + [symbol], pos))
    else if symbol == 16 then
      if lengths == [] then Fail(pos, NoPreviousLength)
      else
        var (repeat, p) :- Read(b, pos, 2);
        var appended :- AppendRepeated(lengths, lengths[|lengths| - 1], repeat + 3, total, p);
        Ok((appended, p))
    else if symbol == 17 then
      var (repeat, p) :- Read(b, pos, 3);
      var appended :- AppendRepeated(lengths, 0, repeat + 3, total, p);
      Ok((appended, p))
    else if symbol == 18 then
      var (repeat, p) :- Read(b, pos, 7);
      var appended :- AppendRepeated(lengths, 0, repeat + 11, total, p);
      Ok((appended, p))
    else Fail(pos, InvalidCodeLengthSymbol)
  }

  ghost function LengthRuns(
      code: seq<nat>, b: seq<bool>, pos: nat, lengths: seq<nat>, total: nat): (r: Outcome<(seq<nat>, nat)>)
    requires pos <= |b|
    ensures r.Ok? ==> pos <= r.value.1 <= |b| && |r.value.0| >= total
    ensures r.Ok? && |lengths| <= total ==> |r.value.0| == total
    decreases |b| - pos
  {
    if |lengths| >= total then Ok((lengths, pos))
    else
      var (symbol, p) :- DecodeSymbol(code, b, pos);
      var (more, q) :- AppendDynamic(symbol, b, p, lengths, total);
      LengthRuns(code, b, q, more, total)
  }

  /** The declared sizes of the two alphabets and the code of the run-length symbols. */
  datatype Header = Header(literals: nat, distances: nat, code: seq<nat>)

  /** The declared counts of literal, distance and code-length symbols. */
  function DynamicCounts(b: seq<bool>, pos: nat): (r: Outcome<((nat, nat, nat), nat)>)
    requires pos <= |b|
    ensures r.Ok? ==> pos <= r.value.1 <= |b|
    ensures r.Ok? ==> 257 <= r.value.0.0 <= 288 && 1 <= r.value.0.1 <= 32 && 4 <= r.value.0.2 <= 19
  {
    Pow2Values();
    var (hlit, p) :- Read(b, pos, 5);
    var (hdist, q) :- Read(b, p, 5);
    var (hclen, end) :- Read(b, q, 4);
    Ok(((hlit + 257, hdist + 1, hclen + 4), end))
  }

  function DynamicHeader(b: seq<bool>, pos: nat): (r: Outcome<(Header, nat)>)
    requires pos <= |b|
    ensures r.Ok? ==> pos <= r.value.1 <= |b|
    ensures r.Ok? ==> 257 <= r.value.0.literals <= 288 && 1 <= r.value.0.distances <= 32 && |r.value.0.code| == 19
  {
    var (counts, p) :- DynamicCounts(b, pos);
    var (code, end) :- CodeLengths(b, p, 0, counts.2, Repeat<nat>(0, 19));
    Ok((Header(counts.0, counts.1, code), end))
  }

  /** The declared number of lengths, split between the two alphabets. */
  ghost function RunsOf(header: Header, b: seq<bool>, pos: nat): (r: Outcome<((seq<nat>, seq<nat>), nat)>)
    requires pos <= |b| && header.literals >= 257
    ensures r.Ok? ==> pos <= r.value.1 <= |b|
    ensures r.Ok? ==> |r.value.0.0| == header.literals && |r.value.0.1| == header.distances && r.value.0.0[256] != 0
  {
    var (lengths, end) :- LengthRuns(header.code, b, pos, [], header.literals + header.distances);
    if lengths[256] == 0 then Fail(end, NoEndOfBlock)
    else Ok(((lengths[..header.literals], lengths[header.literals..]), end))
  }

  /** The literal and distance lengths of a dynamic block. */
  ghost function DynamicLengths(b: seq<bool>, pos: nat): (r: Outcome<((seq<nat>, seq<nat>), nat)>)
    requires pos <= |b|
    ensures r.Ok? ==> pos <= r.value.1 <= |b|
    ensures r.Ok? ==> 257 <= |r.value.0.0| <= 288 && 1 <= |r.value.0.1| <= 32 && r.value.0.0[256] != 0
  {
    var (header, p) :- DynamicHeader(b, pos);
    var _ :- BuildOutcome(header.code, p, false);
    RunsOf(header, b, p)
  }

  ghost function Block(kind: nat, b: seq<bool>, pos: nat, out: seq<Byte>, limit: nat): (r: Outcome<(seq<Byte>, nat)>)
    requires pos <= |b| && |b| % 8 == 0
    ensures r.Ok? ==> pos < r.value.1 <= |b|
  {
    if kind == 0 then Stored(b, pos, out, limit)
    else if kind == 1 then Compressed(FixedLiteralLengths(), FixedDistanceLengths(), b, pos, out, limit)
    else if kind == 2 then
      var (lengths, p) :- DynamicLengths(b, pos);
      Compressed(lengths.0, lengths.1, b, p, out, limit)
    else Fail(pos, ReservedBlockType)
  }

  /** Blocks up to the one marked final. */
  ghost function Blocks(b: seq<bool>, pos: nat, out: seq<Byte>, limit: nat): (r: Outcome<(seq<Byte>, nat)>)
    requires pos <= |b| && |b| % 8 == 0
    ensures r.Ok? ==> pos < r.value.1 <= |b|
    decreases |b| - pos
  {
    var (final, p) :- Read(b, pos, 1);
    var (kind, q) :- Read(b, p, 2);
    var (more, end) :- Block(kind, b, q, out, limit);
    if final != 0 then Ok((more, end)) else Blocks(b, end, more, limit)
  }

  ghost function Inflated(input: seq<Byte>, limit: nat): (r: Outcome<seq<Byte>>)
  {
    if input == [] then Fail(0, EmptyResource)
    else
      var (out, _) :- Blocks(Stream(input), 0, [], limit);
      Ok(out)
  }
}
