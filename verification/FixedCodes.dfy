/**
 * The tables of sections 3.2.5 to 3.2.7 of RFC 1951 in arithmetic, without the lists the
 * decoder looks them up in, and what a block written by them inflates to.
 */
module FixedCodes {
  import opened Outcomes
  import opened Bits
  import opened BitReading
  import opened Canonical
  import opened Lz77
  import opened InflateSpec
  import opened Rfc1951
  import opened InflateExact
  import opened InflateTheorem

  // ---- the fixed codes (section 3.2.6) ----

  /** The codeword of a literal or length symbol. */
  function LiteralBits(s: nat): (w: seq<bool>)
    requires s < 288
  {
    if s < 144 then MsbBits(0x30 + s, 8)
    else if s < 256 then MsbBits(0x190 + s - 144, 9)
    else if s < 280 then MsbBits(s - 256, 7)
    else MsbBits(0xC0 + s - 280, 8)
  }

  function DistanceBits(s: nat): (w: seq<bool>)
    requires s < 32
  {
    MsbBits(s, 5)
  }

  /** The bits of a codeword, the highest first. */
  lemma {:induction false} MsbBitAt(v: nat, n: nat, i: nat)
    requires i < n
    ensures MsbBits(v, n)[i] <==> Shr(v, n - 1 - i) % 2 == 1
    decreases n
  {
    if i < n - 1 {
      MsbBitAt(v / 2, n - 1, i);
    }
  }

  lemma FixedFirstCodes()
    ensures FirstCode(FixedLiteralLengths(), 7) == 0 && FirstCode(FixedLiteralLengths(), 8) == 0x30
    ensures FirstCode(FixedLiteralLengths(), 9) == 0x190 && FirstCode(FixedDistanceLengths(), 5) == 0
  {
    hide Count, FixedLiteralLengths, FixedDistanceLengths;
    var lit, dist, len := FixedLiteralLengths(), FixedDistanceLengths(), 0;
    while len < 7
      invariant len <= 7 && FirstCode(lit, len) == 0 && FirstCode(dist, if len < 5 then len else 5) == 0
    {
      FixedCounts(len);
      len := len + 1;
    }
    FixedCounts(7);
    FixedCounts(8);
    assert FirstCode(lit, 8) == (FirstCode(lit, 7) + Population(lit, 7)) * 2;
    assert FirstCode(lit, 9) == (FirstCode(lit, 8) + Population(lit, 8)) * 2;
  }

  lemma LengthsBefore(s: nat)
    requires s < 288
    ensures var lit := FixedLiteralLengths();
            && lit[s] == (if s < 144 then 8 else if s < 256 then 9 else if s < 280 then 7 else 8)
            && Count(lit[..s], lit[s])
               == if s < 144 then s else if s < 256 then s - 144 else if s < 280 then s - 256 else 144 + (s - 280)
  {
    hide Count;
    var a, b, c := Repeat<nat>(8, 144), Repeat<nat>(9, 112), Repeat<nat>(7, 24);
    var lit := FixedLiteralLengths();
    CountRepeat(8, 144, lit[s]);
    CountRepeat(9, 112, lit[s]);
    CountRepeat(7, 24, lit[s]);
    if s < 144 {
      assert lit[s] == 8 && lit[..s] == Repeat<nat>(8, s);
      CountRepeat(8, s, 8);
    } else if s < 256 {
      assert lit[..s] == a + Repeat<nat>(9, s - 144);
      CountAppend(a, Repeat<nat>(9, s - 144), 9);
      CountRepeat(9, s - 144, 9);
    } else if s < 280 {
      assert lit[..s] == a + b + Repeat<nat>(7, s - 256);
      CountAppend(a + b, Repeat<nat>(7, s - 256), 7);
      CountAppend(a, b, 7);
      CountRepeat(7, s - 256, 7);
    } else {
      assert lit[..s] == a + b + c + Repeat<nat>(8, s - 280);
      CountAppend(a + b + c, Repeat<nat>(8, s - 280), 8);
      CountAppend(a + b, c, 8);
      CountAppend(a, b, 8);
      CountRepeat(8, s - 280, 8);
    }
  }

  /** The decoder's literal code is the table. */
  lemma LiteralCodeword(s: nat)
    requires s < 288
    ensures Coded(FixedLiteralLengths(), s) && Codeword(FixedLiteralLengths(), s) == LiteralBits(s)
  {
    hide Count, FixedLiteralLengths, FirstCode;
    LengthsBefore(s);
    FixedFirstCodes();
  }

  lemma DistanceCodeword(s: nat)
    requires s < 32
    ensures Coded(FixedDistanceLengths(), s) && Codeword(FixedDistanceLengths(), s) == DistanceBits(s)
  {
    hide Count, FirstCode;
    FixedFirstCodes();
    assert FixedDistanceLengths()[s] == 5 && FixedDistanceLengths()[..s] == Repeat<nat>(5, s);
    CountRepeat(5, s, 5);
  }

  // ---- lengths and distances (section 3.2.5) ----

  /** How often v is halved before it is below the bound: the number of its extra bits. */
  function Halvings(v: nat, bound: nat): (n: nat)
    requires bound > 0
    decreases v
  {
    if v < bound then 0 else 1 + Halvings(v / 2, bound)
  }

  /** A symbol and the extra bits that follow it. */
  datatype Symbol = Symbol(symbol: nat, extra: nat, bits: nat)

  /** Lengths from 3 on, in groups of four symbols that share a number of extra bits; 258 by itself. */
  function LengthSymbol(length: nat): (s: Symbol)
    requires 3 <= length <= 258
  {
    if length == 258 then Symbol(285, 0, 0)
    else
      var v := length - 3;
      var e := Halvings(v, 8);
      if e == 0 then Symbol(257 + v, 0, 0) else Symbol(257 + 4 * e + v / Pow2(e), e, v % Pow2(e))
  }

  /** Distances from 1 on, in groups of two symbols. */
  function DistanceSymbol(distance: nat): (s: Symbol)
    requires 1 <= distance <= 0x8000
  {
    var v := distance - 1;
    var e := Halvings(v, 4);
    if e == 0 then Symbol(v, 0, 0) else Symbol(2 * e + v / Pow2(e), e, v % Pow2(e))
  }

  lemma {:induction false} HalvingsRange(v: nat, k: nat, top: nat)
    requires v < Pow2(k + top)
    ensures var n := Halvings(v, Pow2(k));
            n <= top && v < Pow2(k + n) && (n > 0 ==> Pow2(k + n - 1) <= v)
    decreases v
  {
    if v >= Pow2(k) {
      if top == 0 {
        assert false;
      }
      assert Pow2(k + top) == 2 * Pow2(k + top - 1);
      HalvingsRange(v / 2, k, top - 1);
      var m := Halvings(v / 2, Pow2(k));
      assert Pow2(k + m + 1) == 2 * Pow2(k + m);
      if m > 0 {
        assert Pow2(k + m) == 2 * Pow2(k + m - 1);
      }
    }
  }

  /** A number with e extra bits splits into its leading bits and those. */
  lemma LeadingBits(v: nat, e: nat, low: nat)
    requires low * Pow2(e) <= v < 2 * low * Pow2(e)
    ensures low <= v / Pow2(e) < 2 * low && v == v / Pow2(e) * Pow2(e) + v % Pow2(e)
  {
    QuotientRange(v, Pow2(e), low);
  }

  lemma QuotientRange(v: nat, p: nat, low: nat)
    requires p > 0 && low * p <= v < 2 * low * p
    ensures low <= v / p < 2 * low && v == v / p * p + v % p
  {
    var q := v / p;
    assert q * p <= v < q * p + p;
    if q < low {
      Times(q + 1, low, p);
    } else if q >= 2 * low {
      Times(2 * low, q, p);
    }
  }

  lemma Times(a: nat, b: nat, p: nat)
    requires a <= b
    ensures a * p <= b * p
  {
  }

  /** The tables of the decoder, row by row: e extra bits, q the leading bits of what they extend. */
  lemma LengthRow(e: nat, q: nat)
    requires 1 <= e <= 5 && 4 <= q < 8
    ensures LengthExtra(4 * e + q) == e && LengthBase(4 * e + q) == 3 + q * Pow2(e)
  {
    Pow2Values();
    var c := 4 * e + q;
    assert LENGTH_EXTRA[c] == e by { LengthExtras(); }
    assert LENGTH_BASE[c] == 3 + q * Pow2(e) by { LengthBases(e); }
  }

  lemma LengthExtras()
    ensures forall c :: 0 <= c < 28 ==> LENGTH_EXTRA[c] == if c < 8 then 0 else c / 4 - 1
  {
  }

  lemma LengthBases(e: nat)
    requires 1 <= e <= 5
    ensures forall q :: 4 <= q < 8 ==> LENGTH_BASE[4 * e + q] == 3 + q * Pow2(e)
  {
    Pow2Values();
  }

  lemma DistanceRow(e: nat, q: nat)
    requires 1 <= e <= 13 && 2 <= q < 4
    ensures DistanceExtra(2 * e + q) == e && DistanceBase(2 * e + q) == 1 + q * Pow2(e)
  {
    Pow2Values();
  }

  /** How a length is written: the decoder reads that symbol with those bits as the length. */
  lemma LengthIsWritten(length: nat)
    requires 3 <= length <= 258
    ensures var s := LengthSymbol(length);
            && 257 <= s.symbol <= 285 && s.bits < Pow2(s.extra)
            && LengthExtra(s.symbol - 257) == s.extra && LengthBase(s.symbol - 257) + s.bits == length
  {
    hide Halvings, Pow2, LENGTH_BASE, LENGTH_EXTRA;
    Pow2Values();
    if length < 258 {
      var v := length - 3;
      HalvingsRange(v, 3, 5);
      var e := Halvings(v, 8);
      if e > 0 {
        Shifted(e, 2);
        LeadingBits(v, e, 4);
        LengthRow(e, v / Pow2(e));
      } else {
        ShortLengths(v);
      }
    } else {
      LongestLength();
    }
  }

  lemma Shifted(e: nat, k: nat)
    ensures Pow2(e + k) == Pow2(k) * Pow2(e) && Pow2(e + k + 1) == 2 * Pow2(k) * Pow2(e)
  {
    if k > 0 {
      Shifted(e, k - 1);
    }
  }

  lemma DistanceIsWritten(distance: nat)
    requires 1 <= distance <= 0x8000
    ensures var s := DistanceSymbol(distance);
            && s.symbol < 30 && s.bits < Pow2(s.extra)
            && DistanceExtra(s.symbol) == s.extra && DistanceBase(s.symbol) + s.bits == distance
  {
    hide Halvings, Pow2, DISTANCE_BASE, DISTANCE_EXTRA;
    Pow2Values();
    var v := distance - 1;
    HalvingsRange(v, 2, 13);
    var e := Halvings(v, 4);
    if e > 0 {
      Shifted(e, 1);
      LeadingBits(v, e, 2);
      DistanceRow(e, v / Pow2(e));
    } else {
      ShortDistances(v);
    }
  }

  lemma ShortDistances(v: nat)
    requires v < 4
    ensures DistanceExtra(v) == 0 && DistanceBase(v) == 1 + v
  {
  }

  lemma ShortLengths(v: nat)
    requires v < 8
    ensures LengthExtra(v) == 0 && LengthBase(v) == 3 + v
  {
  }

  lemma LongestLength()
    ensures LengthExtra(28) == 0 && LengthBase(28) == 258
  {
  }

  // ---- a block of data in the fixed codes ----

  /** A byte by itself, or a copy of earlier bytes. */
  datatype Item = Plain(byte: Byte) | Copy(length: nat, distance: nat)

  predicate Proper(item: Item) {
    item.Copy? ==> 3 <= item.length <= 258 && 1 <= item.distance <= 0x8000
  }

  /** Every copy reaches back no further than the bytes there are. */
  predicate Plays(out: seq<Byte>, items: seq<Item>): (plays: bool)
    ensures plays ==> AllProper(items)
    decreases |items|
  {
    if items == [] then true
    else if !Proper(items[0]) || (items[0].Copy? && items[0].distance > |out|) then false
    else
      assert items == [items[0]] + items[1..];
      Plays(After(out, items[0]), items[1..])
  }

  predicate AllProper(items: seq<Item>) {
    forall i :: 0 <= i < |items| ==> Proper(items[i])
  }

  function After(out: seq<Byte>, item: Item): (r: seq<Byte>)
    requires Proper(item) && (item.Copy? ==> item.distance <= |out|)
  {
    if item.Plain? then out + [item.byte] else CopyBytes(out, item.distance, item.length)
  }

  function Played(out: seq<Byte>, items: seq<Item>): (r: seq<Byte>)
    requires Plays(out, items)
    decreases |items|
  {
    if items == [] then out else Played(After(out, items[0]), items[1..])
  }

  /** An item by the tables: its symbol, extra bits, and for a copy the distance likewise. */
  function ItemBits(item: Item): (w: seq<bool>)
    requires Proper(item)
  {
    if item.Plain? then LiteralBits(item.byte)
    else
      LengthIsWritten(item.length);
      DistanceIsWritten(item.distance);
      var l, d := LengthSymbol(item.length), DistanceSymbol(item.distance);
      LiteralBits(l.symbol) + (ToBits(l.bits, l.extra) + (DistanceBits(d.symbol) + ToBits(d.bits, d.extra)))
  }

  /** The items, and seven zeros for the end of the block. */
  function DataBits(items: seq<Item>): (w: seq<bool>)
    requires AllProper(items)
  {
    if items == [] then Repeat(false, 7) else ItemBits(items[0]) + DataBits(items[1..])
  }

  function TokenOf(item: Item): (t: Token)
    requires Proper(item)
  {
    if item.Plain? then Literal(item.byte)
    else
      LengthIsWritten(item.length);
      var l, d := LengthSymbol(item.length), DistanceSymbol(item.distance);
      Match(l.symbol - 257, l.bits, d.symbol, d.bits)
  }

  function TokensOf(items: seq<Item>): (ts: seq<Token>)
    requires AllProper(items)
  {
    if items == [] then [] else [TokenOf(items[0])] + TokensOf(items[1..])
  }

  lemma ItemIsToken(item: Item)
    requires Proper(item)
    ensures var t := TokenOf(item);
            && ValidToken(t) && (t.Literal? <==> item.Plain?)
            && (item.Plain? ==> t == Literal(item.byte))
            && (item.Copy? ==> Length(t) == item.length && Distance(t) == item.distance)
            && Encodable(FixedLiteralLengths(), FixedDistanceLengths(), t)
            && EncodeToken(FixedLiteralLengths(), FixedDistanceLengths(), t) == ItemBits(item)
  {
    hide LengthSymbol, DistanceSymbol, LiteralBits, DistanceBits, FixedLiteralLengths, FixedDistanceLengths, Codeword;
    hide LengthBase, LengthExtra, DistanceBase, DistanceExtra, ToBits, Pow2;
    if item.Plain? {
      LiteralCodeword(item.byte);
    } else {
      LengthIsWritten(item.length);
      DistanceIsWritten(item.distance);
      LiteralCodeword(LengthSymbol(item.length).symbol);
      DistanceCodeword(DistanceSymbol(item.distance).symbol);
    }
  }

  lemma EndIsSevenZeros()
    ensures Coded(FixedLiteralLengths(), 256) && Codeword(FixedLiteralLengths(), 256) == Repeat(false, 7)
  {
    hide FixedLiteralLengths, Codeword;
    LiteralCodeword(256);
    assert MsbBits(0, 7) == Repeat(false, 7) by {
      forall i | 0 <= i < 7
        ensures !MsbBits(0, 7)[i]
      {
        ZeroBit(7, i);
      }
    }
  }

  lemma {:induction false} ZeroBit(n: nat, i: nat)
    requires i < n
    ensures !MsbBits(0, n)[i]
    decreases n
  {
    if i < n - 1 {
      ZeroBit(n - 1, i);
    }
  }

  /** The tokens of data play as the data, and are written as the tables say. */
  lemma {:induction false} DataIsTokens(out: seq<Byte>, items: seq<Item>)
    requires Plays(out, items)
    ensures Playable(out, TokensOf(items)) && Expand(out, TokensOf(items)) == Played(out, items)
    ensures AllEncodable(FixedLiteralLengths(), FixedDistanceLengths(), TokensOf(items))
    ensures EncodeTokens(FixedLiteralLengths(), FixedDistanceLengths(), TokensOf(items)) == DataBits(items)
    decreases |items|
  {
    hide TokenOf, EncodeToken, Encodable, ItemBits, FixedLiteralLengths, FixedDistanceLengths, Proper, Codeword, Coded;
    hide Length, Distance, CopyBytes, Repeat;
    EndIsSevenZeros();
    if items != [] {
      var t := TokenOf(items[0]);
      ItemIsToken(items[0]);
      OneItem(out, items[0]);
      DataIsTokens(After(out, items[0]), items[1..]);
      var ts := TokensOf(items);
      assert ts[0] == t && ts[1..] == TokensOf(items[1..]);
    }
  }

  lemma OneItem(out: seq<Byte>, item: Item)
    requires Proper(item) && (item.Copy? ==> item.distance <= |out|)
    ensures var t := TokenOf(item);
            ValidToken(t) && InRange(out, t) && Apply(out, t) == After(out, item)
  {
    hide TokenOf;
    ItemIsToken(item);
  }

  /** The mark of a last block, the kind of a fixed one, and data by the tables inflate to the data. */
  lemma FixedDataInflates(items: seq<Item>, limit: nat)
    requires Plays([], items) && |Played([], items)| <= limit
    ensures Inflated(Pack([true, true, false] + DataBits(items)), limit) == Ok(Played([], items))
  {
    hide Inflated, Pack, Plays, Played, DataBits, TokensOf, Playable, Expand, AllEncodable, EncodeTokens;
    hide FixedLiteralLengths, FixedDistanceLengths;
    DataIsTokens([], items);
    FixedRoundTrip(TokensOf(items), limit);
    var block := FixedBlock(TokensOf(items));
    assert EncodeBody(block, 3, []) == DataBits(items);
    assert ToBits(1, 2) == [true, false];
    assert EncodeStream([block], 0, []) == [true, true, false] + DataBits(items);
  }

  /** The empty fixed block, as deflaters write it. */
  lemma EmptyBlockInflates(limit: nat)
    ensures Inflated([0x03, 0x00], limit) == Ok([])
  {
    hide Inflated, Stream, BytesOf;
    FixedDataInflates([], limit);
    EmptyBlockBytes();
    BytesOfStream([0x03, 0x00]);
  }

  lemma EmptyBlockBytes()
    ensures Stream([0x03, 0x00]) == [true, true, false] + DataBits([]) + Zeros(6)
  {
    hide ToBits;
    assert [0x03, 0x00][1..] == [0x00] && [0x00][1..] == [];
    assert Stream([0x03, 0x00]) == ToBits(3, 8) + (ToBits(0, 8) + []);
    TwoBytes();
  }

  lemma TwoBytes()
    ensures ToBits(3, 8) == [true, true] + Zeros(6) && ToBits(0, 8) == Zeros(8)
  {
    assert ToBits(3, 8) == [true, true, false, false, false, false, false, false];
    assert ToBits(0, 8) == [false, false, false, false, false, false, false, false];
  }

  // ---- the order of code-length codes (section 3.2.7) ----

  /** First the three run symbols and zero, then from 8 outwards: 8, 7, 9, 6, and so on to 15. */
  lemma SentOutwards(k: nat)
    ensures SentAt(0) == 16 && SentAt(1) == 17 && SentAt(2) == 18 && SentAt(3) == 0
    ensures k <= 7 ==> SentAt(4 + 2 * k) == 8 + k
    ensures k <= 6 ==> SentAt(5 + 2 * k) == 7 - k
  {
    if k <= 3 {
    } else if k <= 7 {
    }
  }
}
