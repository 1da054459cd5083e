/**
 * The decoder itself: loops over a bit reader, a growing output and one shared
 * table, each proved to compute what InflateSpec says, diagnostics included.
 */
module Inflate {
  import opened Outcomes
  import opened Bits
  import opened BitReading
  import opened Canonical
  import opened HuffmanTable
  import opened Lz77
  import opened InflateSpec

  /** A method that leaves a buffer with the given contents did what a step of the specification does. */
  ghost predicate Produces<T>(r: Outcome<()>, contents: T, pos: nat, step: Outcome<(T, nat)>) {
    match step
    case Ok((c, p)) => r == Ok(()) && contents == c && pos == p
    case Err(e) => r == Err(e) && pos == e.position
  }

  method StoredBlock(bits: BitReader, output: Output, limit: nat) returns (r: Outcome<()>)
    requires bits.Valid() && |output.bytes| <= limit
    modifies bits, output
    ensures bits.Valid() && |output.bytes| <= limit
    ensures Produces(r, output.bytes, bits.bit, Stored(bits.All(), old(bits.bit), old(output.bytes), limit))
  {
    bits.AlignByte();
    var length :- bits.NextU16();
    var complement :- bits.NextU16();
    if length != 0xFFFF - complement {
      return Fail(bits.bit, StoredLengthMismatch);
    }
    var _ :- output.Reserve(length, limit, bits.bit);
    var bytes :- bits.NextBytes(length);
    output.bytes := output.bytes + bytes;
    return Ok(());
  }

  method ReadLength(bits: BitReader, lengthClass: nat) returns (r: Outcome<nat>)
    requires bits.Valid() && lengthClass < LENGTHS
    modifies bits
    ensures bits.Valid()
    ensures Follows(r, bits.bit, LengthOf(lengthClass, bits.All(), old(bits.bit)))
  {
    hide LengthBase, LengthExtra;
    var extra :- bits.ReadBits(LengthExtra(lengthClass));
    return Ok(LengthBase(lengthClass) + extra);
  }

  method DecodeDistance(bits: BitReader, tree: Huffman, table: Table, ghost dist: seq<nat>) returns (r: Outcome<nat>)
    requires bits.Valid() && Represents(table.entries, tree, dist)
    modifies bits
    ensures bits.Valid()
    ensures Follows(r, bits.bit, DistanceOf(dist, bits.All(), old(bits.bit)))
  {
    hide DistanceBase, DistanceExtra;
    var symbol :- Decode(tree, table, bits, dist);
    if symbol >= DISTANCES {
      return Fail(bits.bit, InvalidDistanceSymbol);
    }
    var extra :- bits.ReadBits(DistanceExtra(symbol));
    return Ok(DistanceBase(symbol) + extra);
  }

  /** The length of a match and its distance. */
  method DecodeMatch(bits: BitReader, lengthClass: nat, tree: Option<Huffman>, table: Table, ghost dist: seq<nat>)
    returns (r: Outcome<Reference>)
    requires bits.Valid() && lengthClass < LENGTHS
    requires if tree.Some? then Represents(table.entries, tree.value, dist) else !Accepted(dist)
    modifies bits
    ensures bits.Valid()
    ensures Follows(r, bits.bit, MatchReference(dist, bits.All(), old(bits.bit), lengthClass))
  {
    var length :- ReadLength(bits, lengthClass);
    if tree.None? {
      return Fail(bits.bit, NoDistanceTree);
    }
    var distance :- DecodeDistance(bits, tree.value, table, dist);
    return Ok(Reference(length, distance));
  }

  method ApplyMatch(bits: BitReader, output: Output, lengthClass: nat, tree: Option<Huffman>, table: Table,
                    ghost dist: seq<nat>, limit: nat)
    returns (r: Outcome<()>)
    requires bits.Valid() && |output.bytes| <= limit && lengthClass < LENGTHS
    requires if tree.Some? then Represents(table.entries, tree.value, dist) else !Accepted(dist)
    modifies bits, output
    ensures bits.Valid() && |output.bytes| <= limit
    ensures Produces(r, output.bytes, bits.bit,
                     OneMatch(dist, bits.All(), old(bits.bit), lengthClass, old(output.bytes), limit))
  {
    var reference :- DecodeMatch(bits, lengthClass, tree, table, dist);
    if reference.distance == 0 || reference.distance > |output.bytes| {
      return Fail(bits.bit, ReferenceOutOfRange);
    }
    var _ :- output.Reserve(reference.length, limit, bits.bit);
    output.CopyBackReference(reference.distance, reference.length);
    return Ok(());
  }

  ghost predicate Advances(r: Outcome<bool>, out: seq<Byte>, pos: nat, step: Outcome<Progress>) {
    match step
    case Ok(next) => r == Ok(next.finished) && out == next.out && pos == next.pos
    case Err(e) => r == Err(e) && pos == e.position
  }

  /** Decodes one symbol and applies it to the output; true at the end of the block. */
  method DecodeOne(bits: BitReader, output: Output, literalTree: Huffman, distanceTree: Option<Huffman>, table: Table,
                   ghost lit: seq<nat>, ghost dist: seq<nat>, limit: nat)
    returns (r: Outcome<bool>)
    requires bits.Valid() && |output.bytes| <= limit
    requires Represents(table.entries, literalTree, lit)
    requires if distanceTree.Some? then Represents(table.entries, distanceTree.value, dist) else !Accepted(dist)
    modifies bits, output
    ensures bits.Valid() && |output.bytes| <= limit
    ensures Advances(r, output.bytes, bits.bit,
                     OneSymbol(lit, dist, bits.All(), old(bits.bit), old(output.bytes), limit))
  {
    hide Represents, DecodeSymbol, OneMatch;
    var symbol :- Decode(literalTree, table, bits, lit);
    if symbol <= 255 {
      var _ :- output.Reserve(1, limit, bits.bit);
      output.bytes := output.bytes + [symbol];
      return Ok(false);
    } else if symbol == 256 {
      return Ok(true);
    } else if symbol <= 285 {
      var _ :- ApplyMatch(bits, output, symbol - 257, distanceTree, table, dist, limit);
      return Ok(false);
    } else {
      return Fail(bits.bit, InvalidLiteralSymbol);
    }
  }

  /** Builds both trees of a block in the shared table. */
  method BuildTrees(
      lit: seq<nat>, dist: seq<nat>, position: nat, table: Table) returns (r: Outcome<(Huffman, Option<Huffman>)>)
    requires |lit| < 0x1_0000 && |dist| < 0x1_0000
    modifies table
    ensures match BuildOutcome(lit, position, false)
            case Err(e) => r == Err(e)
            case Ok(_) => match BuildOutcome(dist, position, |dist| == 1)
                          case Err(e) => r == Err(e)
                          case Ok(present) => r.Ok? && r.value.1.Some? == present == Accepted(dist)
    ensures r.Ok? ==> Represents(table.entries, r.value.0, lit)
    ensures r.Ok? && r.value.1.Some? ==> Represents(table.entries, r.value.1.value, dist)
  {
    table.Clear();
    var literal :- Build(lit, position, table, false);
    ghost var first := table.entries;
    var distance :- Build(dist, position, table, |dist| == 1);
    RepresentsExtends(first, table.entries, literal.value, lit);
    return Ok((literal.value, distance));
  }

  method CompressedBlock(bits: BitReader, output: Output, lit: seq<nat>, dist: seq<nat>, table: Table, limit: nat)
    returns (r: Outcome<()>)
    requires bits.Valid() && |output.bytes| <= limit && |lit| < 0x1_0000 && |dist| < 0x1_0000
    modifies bits, output, table
    ensures bits.Valid() && |output.bytes| <= limit
    ensures Produces(r, output.bytes, bits.bit,
                     Compressed(lit, dist, bits.All(), old(bits.bit), old(output.bytes), limit))
  {
    var trees :- BuildTrees(lit, dist, bits.bit, table);
    ghost var start, before := bits.bit, output.bytes;
    ghost var entries := table.entries;
    var finished := false;
    while true
      invariant table.entries == entries
      invariant bits.Valid() && |output.bytes| <= limit
      invariant Symbols(lit, dist, bits.All(), bits.bit, output.bytes, limit)
             == Symbols(lit, dist, bits.All(), start, before, limit)
      decreases 8 * |bits.input| - bits.bit
    {
      finished :- DecodeOne(bits, output, trees.0, trees.1, table, lit, dist, limit);
      if finished {
        return Ok(());
      }
    }
  }

  /** The growing vector of code lengths. */
  class LengthVector {
    var items: seq<nat>

    constructor ()
      ensures items == []
    {
      items := [];
    }

    method AppendRun(value: nat, repeat: nat, total: nat, position: nat) returns (r: Outcome<()>)
      modifies this
      ensures match AppendRepeated(old(items), value, repeat, total, position)
              case Ok(more) => r == Ok(()) && items == more
              case Err(e) => r == Err(e) && items == old(items)
    {
      if |items| + repeat > total {
        return Fail(position, RepeatTooLong);
      }
      items := items + Repeat(value, repeat);
      return Ok(());
    }
  }

  method AppendDynamicLength(symbol: nat, bits: BitReader, lengths: LengthVector, total: nat) returns (r: Outcome<()>)
    requires bits.Valid()
    modifies bits, lengths
    ensures bits.Valid()
    ensures Produces(r, lengths.items, bits.bit,
                     AppendDynamic(symbol, bits.All(), old(bits.bit), old(lengths.items), total))
  {
    if symbol <= 15 {
      lengths.items := lengths.items + [symbol];
    } else if symbol == 16 {
      if lengths.items == [] {
        return Fail(bits.bit, NoPreviousLength);
      }
      var previous := lengths.items[|lengths.items| - 1];
      var repeat :- bits.ReadBits(2);
      var _ :- lengths.AppendRun(previous, repeat + 3, total, bits.bit);
    } else if symbol == 17 {
      var repeat :- bits.ReadBits(3);
      var _ :- lengths.AppendRun(0, repeat + 3, total, bits.bit);
    } else if symbol == 18 {
      var repeat :- bits.ReadBits(7);
      var _ :- lengths.AppendRun(0, repeat + 11, total, bits.bit);
    } else {
      return Fail(bits.bit, InvalidCodeLengthSymbol);
    }
    return Ok(());
  }

  method ReadCodeLengths(bits: BitReader, count: nat) returns (r: Outcome<seq<nat>>)
    requires bits.Valid() && count <= 19
    modifies bits
    ensures bits.Valid()
    ensures Follows(r, bits.bit, CodeLengths(bits.All(), old(bits.bit), 0, count, Repeat<nat>(0, 19)))
  {
    var code: seq<nat> := Repeat<nat>(0, 19);
    ghost var start := bits.bit;
    for index := 0 to count
      invariant bits.Valid() && |code| == 19
      invariant CodeLengths(bits.All(), bits.bit, index, count, code)
             == CodeLengths(bits.All(), start, 0, count, Repeat<nat>(0, 19))
    {
      var length :- bits.ReadBits(3);
      code := code[SentAt(index) := length];
    }
    return Ok(code);
  }

  method ReadLengthRuns(bits: BitReader, table: Table, tree: Huffman, ghost code: seq<nat>, total: nat)
    returns (r: Outcome<seq<nat>>)
    requires bits.Valid() && Represents(table.entries, tree, code)
    modifies bits
    ensures bits.Valid()
    ensures Follows(r, bits.bit, LengthRuns(code, bits.All(), old(bits.bit), [], total))
  {
    var lengths := new LengthVector();
    ghost var start := bits.bit;
    while |lengths.items| < total
      invariant bits.Valid()
      invariant LengthRuns(code, bits.All(), bits.bit, lengths.items, total)
             == LengthRuns(code, bits.All(), start, [], total)
      decreases 8 * |bits.input| - bits.bit
    {
      var symbol :- Decode(tree, table, bits, code);
      var _ :- AppendDynamicLength(symbol, bits, lengths, total);
    }
    return Ok(lengths.items);
  }

  method ReadDynamicCounts(bits: BitReader) returns (r: Outcome<(nat, nat, nat)>)
    requires bits.Valid()
    modifies bits
    ensures bits.Valid()
    ensures Follows(r, bits.bit, DynamicCounts(bits.All(), old(bits.bit)))
  {
    var hlit :- bits.ReadBits(5);
    var hdist :- bits.ReadBits(5);
    var hclen :- bits.ReadBits(4);
    var literals: nat, distances: nat, codes: nat := hlit as int + 257, hdist as int + 1, hclen as int + 4;
    return Ok((literals, distances, codes));
  }

  method ReadDynamicHeader(bits: BitReader) returns (r: Outcome<Header>)
    requires bits.Valid()
    modifies bits
    ensures bits.Valid()
    ensures Follows(r, bits.bit, DynamicHeader(bits.All(), old(bits.bit)))
  {
    ghost var start := bits.bit;
    var counts :- ReadDynamicCounts(bits);
    assert DynamicCounts(bits.All(), start) == Ok((counts, bits.bit));
    var code :- ReadCodeLengths(bits, counts.2);
    return Ok(Header(counts.0, counts.1, code));
  }

  method ReadRuns(
      bits: BitReader, table: Table, tree: Huffman, header: Header) returns (r: Outcome<(seq<nat>, seq<nat>)>)
    requires bits.Valid() && header.literals >= 257 && Represents(table.entries, tree, header.code)
    modifies bits
    ensures bits.Valid()
    ensures Follows(r, bits.bit, RunsOf(header, bits.All(), old(bits.bit)))
  {
    var lengths :- ReadLengthRuns(bits, table, tree, header.code, header.literals + header.distances);
    if lengths[256] == 0 {
      return Fail(bits.bit, NoEndOfBlock);
    }
    return Ok((lengths[..header.literals], lengths[header.literals..]));
  }

  method ReadDynamicLengths(bits: BitReader, table: Table) returns (r: Outcome<(seq<nat>, seq<nat>)>)
    requires bits.Valid()
    modifies bits, table
    ensures bits.Valid()
    ensures Follows(r, bits.bit, DynamicLengths(bits.All(), old(bits.bit)))
  {
    var header :- ReadDynamicHeader(bits);
    table.Clear();
    var built :- Build(header.code, bits.bit, table, false);
    r := ReadRuns(bits, table, built.value, header);
  }

  /** Inflates a raw DEFLATE stream within a limit on the decoded size. */
  method InflateRawDeflateBounded(input: seq<Byte>, limit: nat) returns (r: Outcome<seq<Byte>>)
    ensures r == Inflated(input, limit)
    ensures r.Ok? ==> |r.value| <= limit
  {
    if input == [] {
      return Fail(0, EmptyResource);
    }
    var bits := new BitReader(input);
    var output := new Output();
    var table := new Table();
    while true
      invariant bits.Valid() && bits.input == input && |output.bytes| <= limit
      invariant Blocks(bits.All(), bits.bit, output.bytes, limit) == Blocks(Stream(input), 0, [], limit)
      decreases 8 * |input| - bits.bit
    {
      var final :- bits.ReadBits(1);
      var kind :- bits.ReadBits(2);
      if kind == 0 {
        var _ :- StoredBlock(bits, output, limit);
      } else if kind == 1 {
        var _ :- CompressedBlock(bits, output, FixedLiteralLengths(), FixedDistanceLengths(), table, limit);
      } else if kind == 2 {
        var lengths :- ReadDynamicLengths(bits, table);
        var _ :- CompressedBlock(bits, output, lengths.0, lengths.1, table, limit);
      } else {
        return Fail(bits.bit, ReservedBlockType);
      }
      if final != 0 {
        return Ok(output.bytes);
      }
    }
  }
}
