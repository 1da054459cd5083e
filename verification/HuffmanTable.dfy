/**
 * The flattened lookup table of src/metadata/deflate.rs: every bit pattern of the
 * longest code length is a slot holding the symbol whose codeword begins the pattern.
 * Several trees can share one table, each in its own range.
 */
module HuffmanTable {
  import opened Outcomes
  import opened Bits
  import opened BitReading
  import opened Canonical

  type I32 = x: int | -0x8000_0000 <= x < 0x8000_0000

  datatype Entry = Entry(length: nat, symbol: U16)

  const UNUSED_ENTRY := Entry(0, 0)

  class Table {
    var entries: seq<Entry>

    constructor ()
      ensures entries == []
    {
      entries := [];
    }

    method Clear()
      modifies this
      ensures entries == []
    {
      entries := [];
    }
  }

  /** One tree inside a table. */
  datatype Huffman = Huffman(start: nat, tableLength: nat, maximumLength: nat)

  function MaxLength(lengths: seq<nat>): (m: nat)
    ensures forall i :: 0 <= i < |lengths| ==> lengths[i] <= m
    ensures m == 0 || m in lengths
  {
    if lengths == [] then 0
    else
      var m := MaxLength(lengths[..|lengths| - 1]);
      if lengths[|lengths| - 1] > m then lengths[|lengths| - 1] else m
  }

  /** Among the first n symbols, e names the one whose codeword begins w, or is empty. */
  ghost predicate Slot(e: Entry, lengths: seq<nat>, n: nat, w: seq<bool>) {
    if e.length == 0 then forall s: nat :: s < n ==> !Matches(lengths, s, w)
    else e.symbol < n && Matches(lengths, e.symbol, w) && e.length == lengths[e.symbol]
  }

  ghost predicate Filled(entries: seq<Entry>, start: nat, lengths: seq<nat>, max: nat, n: nat) {
    && start + Pow2(max) <= |entries|
    && forall i: nat :: i < Pow2(max) ==> Slot(entries[start + i], lengths, n, ToBits(i, max))
  }

  /** The tree h of the table is the code of a length vector. */
  ghost predicate Represents(entries: seq<Entry>, h: Huffman, lengths: seq<nat>) {
    && Accepted(lengths)
    && h.maximumLength == MaxLength(lengths)
    && h.tableLength == Pow2(h.maximumLength)
    && Filled(entries, h.start, lengths, h.maximumLength, |lengths|)
  }

  // ---- what decoding a symbol means ----

  /**
   * The symbol whose codeword begins the remaining bits. A codeword that would need
   * zeros past the end of the stream is a truncation; anything else is invalid.
   */
  ghost function DecodeSymbol(lengths: seq<nat>, b: seq<bool>, pos: nat): (r: Outcome<(nat, nat)>)
    requires pos <= |b|
    ensures r.Ok? ==> Matches(lengths, r.value.0, b[pos..]) && r.value.1 == pos + lengths[r.value.0]
    ensures r.Ok? ==> pos < r.value.1 <= |b|
  {
    if exists s: nat :: Matches(lengths, s, b[pos..]) then
      var s: nat :| Matches(lengths, s, b[pos..]);
      Ok((s, pos + lengths[s]))
    else if exists s: nat :: Matches(lengths, s, b[pos..] + Zeros(15)) then Fail(pos, TruncatedStream)
    else Fail(pos, InvalidCode)
  }

  /** Decoding finds exactly the symbol whose codeword comes next. */
  lemma DecodeSymbolExact(lengths: seq<nat>, b: seq<bool>, pos: nat, s: nat)
    requires pos <= |b| && Accepted(lengths)
    ensures Matches(lengths, s, b[pos..]) <==>
            DecodeSymbol(lengths, b, pos).Ok? && DecodeSymbol(lengths, b, pos).value.0 == s
  {
    if Matches(lengths, s, b[pos..]) {
      UniqueMatch(lengths, s, DecodeSymbol(lengths, b, pos).value.0, b[pos..]);
    }
  }

  /** The padded window shows the same codewords as the padded stream. */
  lemma WindowMatches(lengths: seq<nat>, b: seq<bool>, pos: nat, max: nat, s: nat)
    requires pos <= |b| && AllShort(lengths) && forall i :: 0 <= i < |lengths| ==> lengths[i] <= max
    ensures Matches(lengths, s, Padded(b, pos, max)) <==> Matches(lengths, s, b[pos..] + Zeros(15))
    ensures Matches(lengths, s, b[pos..]) <==>
            Matches(lengths, s, Padded(b, pos, max)) && pos + lengths[s] <= |b|
  {
    if Coded(lengths, s) {
      var n := lengths[s];
      assert Padded(b, pos, max)[..n] == (b[pos..] + Zeros(15))[..n];
      var w := Codeword(lengths, s);
      assert w <= Padded(b, pos, max) <==> w == Padded(b, pos, max)[..n];
      assert w <= b[pos..] + Zeros(15) <==> w == (b[pos..] + Zeros(15))[..n];
      if pos + n <= |b| {
        assert b[pos..][..n] == Padded(b, pos, max)[..n];
        assert w <= b[pos..] <==> w == b[pos..][..n];
      }
    }
  }

  /** What a table slot says about the symbol at the cursor. */
  lemma LookupDecodes(e: Entry, lengths: seq<nat>, b: seq<bool>, pos: nat, max: nat)
    requires pos <= |b| && Accepted(lengths) && forall i :: 0 <= i < |lengths| ==> lengths[i] <= max
    requires Slot(e, lengths, |lengths|, Padded(b, pos, max))
    ensures DecodeSymbol(lengths, b, pos)
         == if e.length == 0 then Fail(pos, InvalidCode)
            else if pos + e.length > |b| then Fail(pos, TruncatedStream)
            else Ok((e.symbol, pos + e.length))
  {
    hide Codeword, Padded, Fits;
    forall s: nat
      ensures Matches(lengths, s, Padded(b, pos, max)) <==> Matches(lengths, s, b[pos..] + Zeros(15))
      ensures Matches(lengths, s, b[pos..]) <==>
              Matches(lengths, s, Padded(b, pos, max)) && pos + lengths[s] <= |b|
      ensures Matches(lengths, s, Padded(b, pos, max)) && e.length != 0 ==> s == e.symbol
    {
      WindowMatches(lengths, b, pos, max, s);
      if Matches(lengths, s, Padded(b, pos, max)) && e.length != 0 {
        UniqueMatch(lengths, s, e.symbol, Padded(b, pos, max));
      }
    }
    if e.length != 0 && pos + e.length <= |b| {
      DecodeSymbolExact(lengths, b, pos, e.symbol);
    }
  }

  method Decode(h: Huffman, table: Table, bits: BitReader, ghost lengths: seq<nat>) returns (r: Outcome<U16>)
    requires bits.Valid() && Represents(table.entries, h, lengths)
    modifies bits
    ensures bits.Valid()
    ensures Follows(r, bits.bit, DecodeSymbol(lengths, bits.All(), old(bits.bit)))
  {
    var index := bits.PeekBitsPadded(h.maximumLength);
    ghost var window := Padded(bits.All(), bits.bit, h.maximumLength);
    ToBitsOfValue(window);
    assert index < h.tableLength;
    var entry := table.entries[h.start + index];
    LookupDecodes(entry, lengths, bits.All(), bits.bit, h.maximumLength);
    if entry.length == 0 {
      return Fail(bits.bit, InvalidCode);
    }
    var _ :- bits.Advance(entry.length);
    return Ok(entry.symbol);
  }

  // ---- building ----

  method ReverseBits(code: nat, length: nat) returns (reversed: nat)
    ensures reversed == Value(MsbBits(code, length))
  {
    reversed := 0;
    var rest := code;
    ghost var tail: seq<bool> := [];
    for i := 0 to length
      invariant reversed == Value(tail) && |tail| == i
      invariant MsbBits(code, length) == MsbBits(rest, length - i) + tail
    {
      tail := [rest % 2 == 1] + tail;
      reversed := reversed * 2 + rest % 2;
      rest := rest / 2;
    }
    assert MsbBits(code, length) == tail;
  }

  lemma {:induction false} CountZero(lengths: seq<nat>, len: nat)
    ensures Count(lengths, len) == 0 <==> forall i :: 0 <= i < |lengths| ==> lengths[i] != len
  {
    if lengths != [] {
      var init := lengths[..|lengths| - 1];
      CountZero(init, len);
      assert forall i :: 0 <= i < |init| ==> lengths[i] == init[i];
    }
  }

  /** The first pass: how many codewords each length has. */
  method CountLengths(lengths: seq<nat>, position: nat) returns (r: Outcome<seq<U16>>)
    requires |lengths| < 0x1_0000
    ensures if AllShort(lengths) then r.Ok? && Counts(r.value, lengths) else r == Fail(position, CodeTooLong)
  {
    var counts := new U16[16](_ => 0);
    for i := 0 to |lengths|
      invariant AllShort(lengths[..i])
      invariant forall len :: 0 <= len <= 15 ==> counts[len] == Population(lengths[..i], len)
    {
      var length := lengths[i];
      assert lengths[..i + 1] == lengths[..i] + [length];
      if length > 15 {
        return Fail(position, CodeTooLong);
      }
      forall len | 0 <= len <= 15
        ensures Population(lengths[..i + 1], len)
             == Population(lengths[..i], len) + (if len == length && len != 0 then 1 else 0)
      {
        CountStep(lengths, i, len);
      }
      if length != 0 {
        counts[length] := counts[length] + 1;
      }
    }
    assert lengths[..|lengths|] == lengths;
    return Ok(counts[..]);
  }

  /** counts holds the number of codewords of every length. */
  predicate Counts(counts: seq<U16>, lengths: seq<nat>) {
    |counts| == 16 && forall len :: 0 <= len <= 15 ==> counts[len] == Population(lengths, len)
  }

  method NoCodes(counts: seq<U16>, ghost lengths: seq<nat>) returns (none: bool)
    requires Counts(counts, lengths) && AllShort(lengths)
    ensures none == AllAbsent(lengths)
  {
    none := forall len :: 1 <= len <= 15 ==> counts[len] == 0;
    if AllAbsent(lengths) {
      forall len | 1 <= len <= 15 ensures counts[len] == 0 {
        CountZero(lengths, len);
      }
    } else {
      ghost var i :| 0 <= i < |lengths| && lengths[i] != 0;
      CountZero(lengths, lengths[i]);
      assert counts[lengths[i]] != 0;
    }
  }

  /** The Kraft check: halve the free codes at each length and never run short. */
  method HasRoom(counts: seq<U16>, ghost lengths: seq<nat>) returns (room: bool)
    requires Counts(counts, lengths)
    ensures room == Fits(lengths)
  {
    var left: I32 := 1;
    for len := 1 to 16
      invariant left == Left(lengths, len - 1) <= 0x8000
      invariant forall k :: 0 <= k < len ==> Left(lengths, k) >= 0
    {
      LeftBounded(lengths, len);
      left := left * 2 - counts[len];
      if left < 0 {
        return false;
      }
    }
    return true;
  }

  lemma LeftBounded(lengths: seq<nat>, len: nat)
    requires len <= 15
    ensures Left(lengths, len) <= 0x8000
  {
    UsedPlusFree(lengths, len);
    Pow2Monotone(len, 15);
    Pow2Values();
  }

  /** The smallest code of each length; sixteen bits are always enough. */
  method NextCodes(counts: seq<U16>, ghost lengths: seq<nat>) returns (next: array<U16>)
    requires Counts(counts, lengths) && Fits(lengths)
    ensures fresh(next) && next.Length == 16
    ensures forall len :: 0 <= len <= 15 ==> next[len] == FirstCode(lengths, len)
  {
    next := new U16[16](_ => 0);
    var code: U16 := 0;
    for bits := 1 to 16
      invariant code == FirstCode(lengths, bits - 1)
      invariant forall len :: 0 <= len < bits ==> next[len] == FirstCode(lengths, len)
    {
      NextFirstCode(lengths, bits);
      code := (code + counts[bits - 1]) * 2;
      next[bits] := code;
    }
  }

  lemma NextFirstCode(lengths: seq<nat>, len: nat)
    requires 1 <= len <= 15 && Fits(lengths)
    ensures FirstCode(lengths, len) == (FirstCode(lengths, len - 1) + Population(lengths, len - 1)) * 2 <= 0x8000
  {
    EndBounded(lengths, len - 1);
  }

  lemma EndBounded(lengths: seq<nat>, len: nat)
    requires len <= 15 && Fits(lengths)
    ensures FirstCode(lengths, len) + Population(lengths, len) <= 0x8000
    ensures len < 15 ==> FirstCode(lengths, len) + Population(lengths, len) <= 0x4000
  {
    UsedPlusFree(lengths, len);
    Pow2Monotone(len, if len < 15 then 14 else 15);
    Pow2Values();
    assert Pow2(15) == 2 * Pow2(14);
  }

  /** A slot index and a codeword agree exactly on the index's low bits. */
  lemma IndexMatches(i: nat, max: nat, w: seq<bool>)
    requires |w| <= max
    ensures w <= ToBits(i, max) <==> Low(i, |w|) == Value(w)
  {
    ValueOfPrefix(i, max, |w|);
    var low := ToBits(i, max)[..|w|];
    assert w <= ToBits(i, max) <==> w == low;
    if Value(w) == Value(low) {
      ValueInjective(w, low);
    }
  }

  /** Numbers with the same low bits are at least a step apart. */
  lemma {:induction false} ClassGap(i: nat, j: nat, n: nat)
    requires Low(i, n) == Low(j, n) && i < j
    ensures i + Pow2(n) <= j
  {
    if n > 0 {
      ClassGap(i / 2, j / 2, n - 1);
    }
  }

  lemma {:induction false} NextInClass(i: nat, n: nat)
    ensures Low(i + Pow2(n), n) == Low(i, n)
  {
    if n > 0 {
      NextInClass(i / 2, n - 1);
    }
  }

  lemma {:induction false} LowOfSmall(i: nat, n: nat)
    requires i < Pow2(n)
    ensures Low(i, n) == i
  {
    if n > 0 {
      LowOfSmall(i / 2, n - 1);
    }
  }

  /** After is before with entry in every slot below bound whose index ends in reversed. */
  ghost predicate Stepped(
      before: seq<Entry>, after: seq<Entry>, start: nat, max: nat, bound: int, length: nat, reversed: nat,
      entry: Entry) {
    && |after| == |before| == start + Pow2(max)
    && after[..start] == before[..start]
    && forall i: nat :: i < Pow2(max) ==>
         after[start + i] == if i < bound && Low(i, length) == reversed then entry else before[start + i]
  }

  /** Writes one codeword into every slot whose index ends in it; no slot is in use. */
  method PlaceSymbol(
      table: Table, start: nat, max: nat, ghost lengths: seq<nat>, symbol: U16, length: nat, reversed: nat)
    requires Accepted(lengths) && Coded(lengths, symbol) && length == lengths[symbol] <= max
    requires reversed == Value(Codeword(lengths, symbol))
    requires |table.entries| == start + Pow2(max)
    requires Filled(table.entries, start, lengths, max, symbol)
    modifies table
    ensures |table.entries| == |old(table.entries)| && table.entries[..start] == old(table.entries)[..start]
    ensures Filled(table.entries, start, lengths, max, symbol + 1)
  {
    var entry := Entry(length, symbol);
    ghost var before := table.entries;
    var index := reversed;
    StepStart(before, start, max, length, reversed, entry);
    while index < Pow2(max)
      invariant Low(index, length) == reversed
      invariant Stepped(before, table.entries, start, max, index, length, reversed, entry)
    {
      SlotFree(before, start, lengths, max, symbol, index);
      assert table.entries[start + index].length == 0;
      ghost var current := table.entries;
      table.entries := table.entries[start + index := entry];
      StepOnce(before, current, table.entries, start, max, index, length, reversed, entry);
      index := index + Pow2(length);
    }
    PlacedFills(before, table.entries, start, lengths, max, symbol, index);
  }

  lemma StepStart(before: seq<Entry>, start: nat, max: nat, length: nat, reversed: nat, entry: Entry)
    requires reversed < Pow2(length) && |before| == start + Pow2(max)
    ensures Stepped(before, before, start, max, reversed, length, reversed, entry)
    ensures Low(reversed, length) == reversed
  {
    LowOfSmall(reversed, length);
    forall i: nat | i < reversed ensures Low(i, length) != reversed {
      LowOfSmall(i, length);
    }
  }

  lemma StepOnce(
      before: seq<Entry>, current: seq<Entry>, after: seq<Entry>, start: nat, max: nat, index: nat, length: nat,
      reversed: nat, entry: Entry)
    requires index < Pow2(max) && Low(index, length) == reversed
    requires Stepped(before, current, start, max, index, length, reversed, entry)
    requires after == current[start + index := entry]
    ensures Stepped(before, after, start, max, index + Pow2(length), length, reversed, entry)
    ensures Low(index + Pow2(length), length) == reversed
  {
    NextInClass(index, length);
    forall i: nat | i < Pow2(max)
      ensures after[start + i] == if i < index + Pow2(length) && Low(i, length) == reversed then entry
                                  else before[start + i]
    {
      if index < i && Low(i, length) == reversed {
        ClassGap(index, i, length);
      }
    }
  }

  lemma SlotFree(before: seq<Entry>, start: nat, lengths: seq<nat>, max: nat, symbol: nat, index: nat)
    requires Accepted(lengths) && Coded(lengths, symbol) && lengths[symbol] <= max && index < Pow2(max)
    requires Filled(before, start, lengths, max, symbol)
    requires Low(index, lengths[symbol]) == Value(Codeword(lengths, symbol))
    ensures before[start + index].length == 0
  {
    IndexMatches(index, max, Codeword(lengths, symbol));
    NoOtherMatch(before[start + index], lengths, symbol, ToBits(index, max));
  }

  lemma PlacedFills(
      before: seq<Entry>, after: seq<Entry>, start: nat, lengths: seq<nat>, max: nat, symbol: U16, bound: int)
    requires Accepted(lengths) && Coded(lengths, symbol) && lengths[symbol] <= max && Pow2(max) <= bound
    requires Filled(before, start, lengths, max, symbol)
    requires Stepped(before, after, start, max, bound, lengths[symbol], Value(Codeword(lengths, symbol)),
                     Entry(lengths[symbol], symbol))
    ensures Filled(after, start, lengths, max, symbol + 1)
  {
    forall i: nat | i < Pow2(max)
      ensures Slot(after[start + i], lengths, symbol + 1, ToBits(i, max))
    {
      var w := ToBits(i, max);
      IndexMatches(i, max, Codeword(lengths, symbol));
      assert Slot(before[start + i], lengths, symbol, w);
      if Low(i, lengths[symbol]) == Value(Codeword(lengths, symbol)) {
        assert after[start + i] == Entry(lengths[symbol], symbol);
      } else {
        assert after[start + i] == before[start + i] && !Matches(lengths, symbol, w);
      }
    }
  }

  /** A slot of earlier symbols is empty where a later codeword belongs. */
  lemma NoOtherMatch(e: Entry, lengths: seq<nat>, symbol: nat, w: seq<bool>)
    requires Accepted(lengths) && Slot(e, lengths, symbol, w) && Matches(lengths, symbol, w)
    ensures e.length == 0
  {
    if e.length != 0 {
      UniqueMatch(lengths, e.symbol, symbol, w);
    }
  }

  /** Whether a length vector gives a tree, no tree, or a diagnostic. */
  function BuildOutcome(lengths: seq<nat>, position: nat, allowEmpty: bool): (r: Outcome<bool>)
    ensures r == Ok(true) <==> Accepted(lengths)
  {
    if !AllShort(lengths) then Fail(position, CodeTooLong)
    else if AllAbsent(lengths) then (if allowEmpty then Ok(false) else Fail(position, EmptyTree))
    else if !Fits(lengths) then Fail(position, OversubscribedTree)
    else Ok(true)
  }

  /** Appends a tree to the table, keeping the trees already there. */
  method Build(lengths: seq<nat>, position: nat, table: Table, allowEmpty: bool) returns (r: Outcome<Option<Huffman>>)
    requires |lengths| < 0x1_0000
    modifies table
    ensures match BuildOutcome(lengths, position, allowEmpty)
            case Err(e) => r == Err(e) && table.entries == old(table.entries)
            case Ok(present) => r.Ok? && r.value.Some? == present
    ensures r.Ok? && r.value.None? ==> table.entries == old(table.entries)
    ensures r.Ok? && r.value.Some? ==>
      var h := r.value.value;
      && h.start == |old(table.entries)|
      && |table.entries| == h.start + h.tableLength
      && old(table.entries) <= table.entries
      && Represents(table.entries, h, lengths)
  {
    var counts :- CountLengths(lengths, position);
    var none := NoCodes(counts, lengths);
    if none {
      return if allowEmpty then Ok(None) else Fail(position, EmptyTree);
    }
    var room := HasRoom(counts, lengths);
    if !room {
      return Fail(position, OversubscribedTree);
    }
    var next := NextCodes(counts, lengths);
    var maximumLength := MaxLength(lengths);
    var tableLength := Pow2(maximumLength);
    var start := |table.entries|;
    ghost var before := table.entries;
    table.entries := table.entries + seq(tableLength, _ => UNUSED_ENTRY);
    for symbol := 0 to |lengths|
      invariant |table.entries| == start + tableLength && table.entries[..start] == before
      invariant Filled(table.entries, start, lengths, maximumLength, symbol)
      invariant RanksUpTo(next[..], lengths, symbol)
    {
      var length := lengths[symbol];
      RankStep(next[..], lengths, symbol);
      if length != 0 {
        var canonical := next[length];
        next[length] := next[length] + 1;
        var reversed := ReverseBits(canonical, length);
        PlaceSymbol(table, start, maximumLength, lengths, symbol, length, reversed);
      } else {
        SkipSymbol(table.entries, start, lengths, maximumLength, symbol);
      }
    }
    return Ok(Some(Huffman(start, tableLength, maximumLength)));
  }

  /** The next code of each length once the first n symbols have theirs. */
  ghost predicate RanksUpTo(next: seq<U16>, lengths: seq<nat>, n: nat)
    requires n <= |lengths|
  {
    |next| == 16 && forall len :: 1 <= len <= 15 ==> next[len] == FirstCode(lengths, len) + Count(lengths[..n], len)
  }

  lemma RankStep(next: seq<U16>, lengths: seq<nat>, symbol: nat)
    requires Accepted(lengths) && symbol < |lengths| && RanksUpTo(next, lengths, symbol)
    ensures var length := lengths[symbol];
            && (length == 0 ==> RanksUpTo(next, lengths, symbol + 1))
            && (length != 0 ==> next[length] == CodeOf(lengths, symbol) < 0x8000)
            && (length != 0 ==> RanksUpTo(next[length := next[length] + 1], lengths, symbol + 1))
  {
    forall len | 1 <= len <= 15
      ensures Count(lengths[..symbol + 1], len)
           == Count(lengths[..symbol], len) + (if lengths[symbol] == len then 1 else 0)
    {
      CountStep(lengths, symbol, len);
    }
    if lengths[symbol] != 0 {
      CodeFits(lengths, symbol);
      EndBounded(lengths, lengths[symbol]);
    }
  }

  lemma SkipSymbol(entries: seq<Entry>, start: nat, lengths: seq<nat>, max: nat, symbol: nat)
    requires symbol < |lengths| && lengths[symbol] == 0 && Filled(entries, start, lengths, max, symbol)
    ensures Filled(entries, start, lengths, max, symbol + 1)
  {
    forall i: nat | i < Pow2(max)
      ensures Slot(entries[start + i], lengths, symbol + 1, ToBits(i, max))
    {
      assert Slot(entries[start + i], lengths, symbol, ToBits(i, max));
    }
  }

  /** Appending a tree does not disturb the trees below it. */
  lemma RepresentsExtends(entries: seq<Entry>, more: seq<Entry>, h: Huffman, lengths: seq<nat>)
    requires Represents(entries, h, lengths) && entries <= more
    ensures Represents(more, h, lengths)
  {
    forall i: nat | i < h.tableLength
      ensures Slot(more[h.start + i], lengths, |lengths|, ToBits(i, h.maximumLength))
    {
      assert more[h.start + i] == entries[h.start + i];
    }
  }
}
