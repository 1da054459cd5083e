/** The bit reader of src/metadata/deflate.rs and what its reads mean on the bit stream. */
module BitReading {
  import opened Outcomes
  import opened Bits

  /** The diagnostics of the decoder. */
  datatype Fault =
    | EmptyResource
    | TruncatedStream
    | UnalignedByteRead
    | ReservedBlockType
    | StoredLengthMismatch
    | OutputLimitExceeded
    | CodeTooLong
    | EmptyTree
    | OversubscribedTree
    | InvalidCode
    | NoPreviousLength
    | RepeatTooLong
    | InvalidCodeLengthSymbol
    | NoEndOfBlock
    | NoDistanceTree
    | InvalidDistanceSymbol
    | ReferenceOutOfRange
    | InvalidLiteralSymbol

  /** A diagnostic with the bit position it is reported at. */
  datatype DeflateError = DeflateError(position: nat, fault: Fault)

  type Outcome<+T> = Result<T, DeflateError>

  function Fail<T>(position: nat, fault: Fault): (r: Outcome<T>)
  {
    Err(DeflateError(position, fault))
  }

  /** A method that leaves the cursor at pos returned what a step of the specification gives. */
  ghost predicate Follows<T>(r: Outcome<T>, pos: nat, step: Outcome<(T, nat)>) {
    match step
    case Ok((v, p)) => r == Ok(v) && pos == p
    case Err(e) => r == Err(e) && pos == e.position
  }

  /** The next count bits as a number, and the position after them. */
  function Read(b: seq<bool>, pos: nat, count: nat): (r: Outcome<(nat, nat)>)
    requires pos <= |b|
    ensures r.Ok? ==> r.value.1 == pos + count <= |b| && r.value.0 < Pow2(count)
  {
    if count > |b| - pos then Fail(pos, TruncatedStream)
    else Ok((Value(b[pos..pos + count]), pos + count))
  }

  function Aligned(pos: nat): (p: nat)
    ensures pos <= p < pos + 8 && p % 8 == 0
  {
    (pos + 7) / 8 * 8
  }

  /** The bytes packed in a whole number of bytes of the stream. */
  function BytesOf(b: seq<bool>): (bytes: seq<Byte>)
    requires |b| % 8 == 0
    ensures |bytes| == |b| / 8
  {
    if b == [] then [] else (Pow2Values(); [Value(b[..8])] + BytesOf(b[8..]))
  }

  lemma {:induction false} BytesOfStream(bytes: seq<Byte>)
    ensures BytesOf(Stream(bytes)) == bytes
  {
    if bytes != [] {
      var b := Stream(bytes);
      assert b[..8] == ToBits(bytes[0], 8) && b[8..] == Stream(bytes[1..]);
      Pow2Values();
      ValueOfToBits(bytes[0], 8);
      BytesOfStream(bytes[1..]);
    }
  }

  lemma {:induction false} StreamOfBytes(b: seq<bool>)
    requires |b| % 8 == 0
    ensures Stream(BytesOf(b)) == b
  {
    if b != [] {
      ToBitsOfValue(b[..8]);
      StreamOfBytes(b[8..]);
      assert b == b[..8] + b[8..];
    }
  }

  function ReadByte(b: seq<bool>, pos: nat): (r: Outcome<(Byte, nat)>)
    requires pos <= |b| && |b| % 8 == 0
    ensures r.Ok? ==> r.value.1 == pos + 8 <= |b|
  {
    if pos % 8 != 0 then Fail(pos, UnalignedByteRead)
    else if pos == |b| then Fail(pos, TruncatedStream)
    else (Pow2Values(); Ok((Value(b[pos..pos + 8]), pos + 8)))
  }

  /** Two bytes, low byte first. */
  function ReadU16(b: seq<bool>, pos: nat): (r: Outcome<(U16, nat)>)
    requires pos <= |b| && |b| % 8 == 0
    ensures r.Ok? ==> r.value.1 == pos + 16 <= |b|
  {
    var (low, p) :- ReadByte(b, pos);
    var (high, q) :- ReadByte(b, p);
    Ok((low + 0x100 * high, q))
  }

  function ReadBytes(b: seq<bool>, pos: nat, count: nat): (r: Outcome<(seq<Byte>, nat)>)
    requires pos <= |b| && |b| % 8 == 0
    ensures r.Ok? ==> r.value.1 == pos + 8 * count <= |b| && |r.value.0| == count
  {
    if pos % 8 != 0 then Fail(pos, UnalignedByteRead)
    else if pos + 8 * count > |b| then Fail(pos, TruncatedStream)
    else Ok((BytesOf(b[pos..pos + 8 * count]), pos + 8 * count))
  }

  /** A bit count the three-byte window can serve from a given position. */
  function Served(pos: nat, count: nat): (n: nat)
    requires count <= 24
    ensures n <= count && pos % 8 + n <= 24 && (count <= 17 ==> n == count)
    ensures n < count ==> n == 24 - pos % 8
  {
    if pos % 8 + count <= 24 then count else 24 - pos % 8
  }

  class BitReader {
    const input: seq<Byte>
    var bit: nat

    ghost predicate Valid()
      reads this
    {
      bit <= 8 * |input|
    }

    /** The whole stream as bits. */
    ghost function All(): (b: seq<bool>)
      ensures |b| == 8 * |input|
    {
      Stream(input)
    }

    constructor (input: seq<Byte>)
      ensures Valid() && this.input == input && bit == 0
    {
      this.input := input;
      bit := 0;
    }

    /**
     * The three bytes at the cursor, with zeros past the end. The source ors
     * each byte into its own eight bits of the window, which is an addition.
     */
    method Window() returns (window: U32)
      requires Valid()
      ensures window == Value(Padded(All(), bit / 8 * 8, 24))
    {
      hide Value, Padded, Stream;
      var byteIndex := bit / 8;
      window := 0;
      assert Value(Padded(All(), 8 * byteIndex, 0)) == 0 by { EmptyWindow(All(), 8 * byteIndex); }
      var available := if |input| - byteIndex < 3 then |input| - byteIndex else 3;
      for index := 0 to available
        invariant window == Value(Padded(All(), 8 * byteIndex, 8 * index))
      {
        WindowStep(input, byteIndex, index, window);
        window := window + Shl(input[byteIndex + index], 8 * index);
      }
      WindowComplete(All(), 8 * byteIndex, 8 * available);
    }

    /** The next count bits as a number, with zeros past the end. */
    method PeekBitsPadded(count: nat) returns (value: U32)
      requires Valid() && count <= 24
      ensures value == Value(Padded(All(), bit, Served(bit, count)))
    {
      if count == 0 {
        assert Padded(All(), bit, 0) == [];
        return 0;
      }
      var window := Window();
      WindowBits(All(), bit, window, count);
      value := Low(Shr(window, bit % 8), count);
    }

    method ReadBits(count: nat) returns (r: Outcome<U32>)
      requires Valid() && count <= 17
      modifies this
      ensures Valid()
      ensures Follows(r, bit, Read(All(), old(bit), count))
    {
      if count > 8 * |input| - bit {
        return Fail(bit, TruncatedStream);
      }
      var value := PeekBitsPadded(count);
      assert Padded(All(), bit, count) == All()[bit..bit + count];
      bit := bit + count;
      return Ok(value);
    }

    method Advance(count: nat) returns (r: Outcome<()>)
      requires Valid()
      modifies this
      ensures Valid()
      ensures if old(bit) + count <= 8 * |input| then r == Ok(()) && bit == old(bit) + count
              else r == Fail(old(bit), TruncatedStream) && bit == old(bit)
    {
      if count > 8 * |input| - bit {
        return Fail(bit, TruncatedStream);
      }
      bit := bit + count;
      return Ok(());
    }

    method AlignByte()
      requires Valid()
      modifies this
      ensures Valid() && bit == Aligned(old(bit))
    {
      bit := (bit + 7) / 8 * 8;
    }

    method NextByte() returns (r: Outcome<Byte>)
      requires Valid()
      modifies this
      ensures Valid()
      ensures Follows(r, bit, ReadByte(All(), old(bit)))
    {
      if bit % 8 != 0 {
        return Fail(bit, UnalignedByteRead);
      }
      if bit / 8 >= |input| {
        return Fail(bit, TruncatedStream);
      }
      var byte := input[bit / 8];
      StreamByte(input, bit / 8);
      bit := bit + 8;
      return Ok(byte);
    }

    method NextU16() returns (r: Outcome<U16>)
      requires Valid()
      modifies this
      ensures Valid()
      ensures Follows(r, bit, ReadU16(All(), old(bit)))
    {
      var low :- NextByte();
      var high :- NextByte();
      var value: U16 := low as int + 0x100 * high as int;
      return Ok(value);
    }

    method NextBytes(count: nat) returns (r: Outcome<seq<Byte>>)
      requires Valid()
      modifies this
      ensures Valid()
      ensures Follows(r, bit, ReadBytes(All(), old(bit), count))
    {
      if bit % 8 != 0 {
        return Fail(bit, UnalignedByteRead);
      }
      var start := bit / 8;
      var end := start + count;
      if end > |input| {
        return Fail(bit, TruncatedStream);
      }
      StreamSlice(input, start, end);
      BytesOfStream(input[start..end]);
      bit := bit + count * 8;
      return Ok(input[start..end]);
    }
  }

  lemma EmptyWindow(b: seq<bool>, from: nat)
    ensures Value(Padded(b, from, 0)) == 0
  {
  }

  /** Adding a byte to the window appends its eight bits. */
  lemma WindowStep(input: seq<Byte>, from: nat, index: nat, window: nat)
    requires from + index < |input| && index < 3
    requires window == Value(Padded(Stream(input), 8 * from, 8 * index))
    ensures window + Shl(input[from + index], 8 * index) == Value(Padded(Stream(input), 8 * from, 8 * (index + 1)))
    ensures window + Shl(input[from + index], 8 * index) < 0x100_0000
  {
    WindowAppend(input, from, index);
    ValueOfAppendedByte(Padded(Stream(input), 8 * from, 8 * index), input[from + index]);
    WindowBound(Padded(Stream(input), 8 * from, 8 * (index + 1)));
  }

  lemma ValueOfAppendedByte(w: seq<bool>, byte: Byte)
    ensures Value(w + ToBits(byte, 8)) == Value(w) + Shl(byte, |w|)
  {
    ValueOfAppend(w, ToBits(byte, 8));
    ByteValue(byte);
  }

  lemma WindowAppend(input: seq<Byte>, from: nat, index: nat)
    requires from + index < |input|
    ensures Padded(Stream(input), 8 * from, 8 * (index + 1))
         == Padded(Stream(input), 8 * from, 8 * index) + ToBits(input[from + index], 8)
  {
    hide Stream, ToBits;
    var longer := Padded(Stream(input), 8 * from, 8 * index + 8);
    var shorter := Padded(Stream(input), 8 * from, 8 * index);
    var byte := ToBits(input[from + index], 8);
    forall i | 0 <= i < 8 * index + 8 ensures longer[i] == (shorter + byte)[i] {
      if i >= 8 * index {
        StreamAt(input, from + index, i - 8 * index);
      }
    }
    assert longer == shorter + byte;
  }

  lemma WindowBound(w: seq<bool>)
    requires |w| <= 24
    ensures Value(w) < 0x100_0000
  {
    Pow2Monotone(|w|, 24);
    Pow2Values();
  }

  /** Bytes past the end of the input leave zeros in the window. */
  lemma WindowComplete(b: seq<bool>, from: nat, n: nat)
    requires n == 24 || (n < 24 && from + n == |b|)
    ensures Value(Padded(b, from, n)) == Value(Padded(b, from, 24))
  {
    assert Padded(b, from, 24) == Padded(b, from, n) + Zeros(24 - n);
    ValueOfAppend(Padded(b, from, n), Zeros(24 - n));
    ValueOfZeros(24 - n);
  }

  /** Shifting and masking the window selects the bits at the cursor. */
  lemma WindowBits(b: seq<bool>, pos: nat, window: nat, count: nat)
    requires count <= 24 && window == Value(Padded(b, pos / 8 * 8, 24))
    ensures Low(Shr(window, pos % 8), count) == Value(Padded(b, pos, Served(pos, count))) < 0x100_0000
  {
    var w, k, n := Padded(b, pos / 8 * 8, 24), pos % 8, Served(pos, count);
    ShrOfValue(w, k);
    LowOfValue(w[k..], count);
    WindowBound(Padded(b, pos, n));
    WindowSlice(b, pos, n);
    assert n < count ==> w[k..][..n] == w[k..];
  }

  lemma WindowSlice(b: seq<bool>, pos: nat, n: nat)
    requires pos % 8 + n <= 24
    ensures Padded(b, pos / 8 * 8, 24)[pos % 8..][..n] == Padded(b, pos, n)
  {
    var from, k := pos / 8 * 8, pos % 8;
    assert from + k == pos;
    var slice := Padded(b, from, 24)[k..][..n];
    forall i | 0 <= i < n ensures slice[i] == Padded(b, pos, n)[i] {
      assert slice[i] == Padded(b, from, 24)[k + i];
    }
  }
}
