/**
 * A container byte by byte: the sixteen bytes before the table of contents, the 31 bytes of a
 * block's header, the twelve bytes of a record and the twenty bytes before a name.
 */
module ContainerBytes {
  import opened Bits
  import opened Container
  import opened ContainerEntries
  import opened Outcomes
  import opened ScalarText
  import opened Slices

  // ---- hexadecimal digits ----

  const SMALL_DIGITS := "0123456789abcdef"
  const CAPITAL_DIGITS := "0123456789ABCDEF"

  predicate IsDigitOf(b: Byte, v: nat)
    requires v < 16
  {
    b as char == SMALL_DIGITS[v] || b as char == CAPITAL_DIGITS[v]
  }

  /** Small and capital letters are digits alike, and nothing else is. */
  lemma HexDigitExactly(b: Byte, v: nat)
    requires v < 16
    ensures IsHex(b) && HexDigitValue(b) == v <==> IsDigitOf(b, v)
  {
  }

  function PowerOfSixteen(k: nat): (p: nat)
    ensures p > 0
  {
    if k == 0 then 1 else 16 * PowerOfSixteen(k - 1)
  }

  lemma HighestPower()
    ensures PowerOfSixteen(8) == 0x1_0000_0000
  {
    assert PowerOfSixteen(4) == 0x1_0000;
  }

  function Digit(v: nat, capital: bool): (b: Byte)
    requires v < 16
    ensures IsDigitOf(b, v)
  {
    var d := if capital then CAPITAL_DIGITS[v] else SMALL_DIGITS[v];
    DigitIsByte(v);
    d as Byte
  }

  lemma DigitIsByte(v: nat)
    requires v < 16
    ensures CAPITAL_DIGITS[v] as int < 0x80 && SMALL_DIGITS[v] as int < 0x80
  {
  }

  /** The digit of a number at a place counted from the last one. */
  function DigitAt(n: nat, place: nat, capital: bool): (b: Byte) {
    Digit(n / PowerOfSixteen(place) % 16, capital)
  }

  /** A number in eight hexadecimal digits, the highest first. */
  function EightDigits(n: nat, capital: bool): (w: seq<Byte>)
    ensures |w| == 8
  {
    seq(8, i requires 0 <= i < 8 => DigitAt(n, 7 - i, capital))
  }

  lemma DigitsAreHex(n: nat, capital: bool, k: nat)
    requires k <= 8
    ensures forall i :: 0 <= i < k ==> IsHex(EightDigits(n, capital)[..k][i])
  {
    hide DigitAt, IsHex;
    forall i | 0 <= i < k
      ensures IsHex(EightDigits(n, capital)[..k][i])
    {
      DigitReads(n, 7 - i, capital);
    }
  }

  lemma DigitReads(n: nat, place: nat, capital: bool)
    ensures IsHex(DigitAt(n, place, capital))
    ensures HexDigitValue(DigitAt(n, place, capital)) == n / PowerOfSixteen(place) % 16
  {
    HexDigitExactly(DigitAt(n, place, capital), n / PowerOfSixteen(place) % 16);
  }

  lemma {:induction false} LeadingDigits(n: nat, capital: bool, k: nat)
    requires k <= 8 && n < 0x1_0000_0000
    ensures forall i :: 0 <= i < k ==> IsHex(EightDigits(n, capital)[..k][i])
    ensures HexValue(EightDigits(n, capital)[..k]) == n / PowerOfSixteen(8 - k)
    decreases k
  {
    hide DigitAt, PowerOfSixteen, IsHex, HexDigitValue;
    var w := EightDigits(n, capital);
    DigitsAreHex(n, capital, k);
    if k > 0 {
      LeadingDigits(n, capital, k - 1);
      assert w[..k][..k - 1] == w[..k - 1] && w[..k][k - 1] == w[k - 1] == DigitAt(n, 8 - k, capital);
      DigitReads(n, 8 - k, capital);
      OneDigit(n, 8 - k);
    } else {
      HighestPower();
    }
  }

  lemma OneDigit(n: nat, place: nat)
    ensures n / PowerOfSixteen(place)
         == n / PowerOfSixteen(place + 1) * 16 + n / PowerOfSixteen(place) % 16
  {
    DivideTwice(n, PowerOfSixteen(place), 16);
  }

  /** Eight digits in small or capital letters are read as the number. */
  lemma EightDigitsRead(n: nat, capital: bool)
    requires n < 0x1_0000_0000
    ensures ParseHex(EightDigits(n, capital)) == Some(n)
  {
    hide EightDigits, HexValue;
    var w := EightDigits(n, capital);
    LeadingDigits(n, capital, 8);
    assert w[..8] == w;
    assert IsHex(w[0]);
  }

  /** Every hexadecimal digit counts for the power of sixteen of the places behind it. */
  ghost predicate HexPlaces(digits: seq<Byte>, n: nat)
    decreases |digits|
  {
    if digits == [] then n == 0
    else exists v: nat, rest: nat ::
           && v < 16 && IsDigitOf(digits[0], v) && HexPlaces(digits[1..], rest)
           && n == v * PowerOfSixteen(|digits| - 1) + rest
  }

  lemma {:induction false} PlacesOfHex(digits: seq<Byte>)
    requires forall i :: 0 <= i < |digits| ==> IsHex(digits[i])
    ensures HexPlaces(digits, HexValue(digits))
    decreases |digits|
  {
    hide IsHex, IsDigitOf, HexDigitValue;
    if digits != [] {
      var v := HexDigitValue(digits[0]);
      HexDigitExactly(digits[0], v);
      PlacesOfHex(digits[1..]);
      FirstHexPlace(digits);
    }
  }

  lemma {:induction false} FirstHexPlace(digits: seq<Byte>)
    requires digits != [] && forall i :: 0 <= i < |digits| ==> IsHex(digits[i])
    ensures HexValue(digits)
         == HexDigitValue(digits[0]) * PowerOfSixteen(|digits| - 1) + HexValue(digits[1..])
    decreases |digits|
  {
    hide IsHex, HexDigitValue;
    var n := |digits| - 1;
    if n > 0 {
      FirstHexPlace(digits[..n]);
      assert digits[..n][1..] == digits[1..][..n - 1];
      var d, p := HexDigitValue(digits[0]), PowerOfSixteen(n - 1);
      assert d * (16 * p) == d * p * 16;
    }
  }

  lemma {:induction false} HexOfPlaces(digits: seq<Byte>, n: nat)
    requires HexPlaces(digits, n)
    ensures (forall i :: 0 <= i < |digits| ==> IsHex(digits[i])) && HexValue(digits) == n
    decreases |digits|
  {
    hide IsHex, IsDigitOf, HexDigitValue;
    if digits != [] {
      var v: nat, rest: nat :|
        && v < 16 && IsDigitOf(digits[0], v) && HexPlaces(digits[1..], rest)
        && n == v * PowerOfSixteen(|digits| - 1) + rest;
      HexDigitExactly(digits[0], v);
      HexOfPlaces(digits[1..], rest);
      forall i | 0 <= i < |digits|
        ensures IsHex(digits[i])
      {
        assert i > 0 ==> digits[i] == digits[1..][i - 1];
      }
      FirstHexPlace(digits);
    }
  }

  /** The digits of a number: a plus sign may stand before them. */
  function Unsigned(s: seq<Byte>): (digits: seq<Byte>) {
    if s != [] && s[0] == '+' as int then s[1..] else s
  }

  /** A number is one or more hexadecimal digits, or a plus sign and these. */
  lemma HexExactly(s: seq<Byte>, n: nat)
    ensures ParseHex(s) == Some(n) <==> Unsigned(s) != [] && HexPlaces(Unsigned(s), n)
  {
    hide IsHex, HexPlaces, HexValue;
    var digits := Unsigned(s);
    assert ParseHex(s).Some? ==> forall i :: 0 <= i < |digits| ==> IsHex(digits[i]);
    if ParseHex(s) == Some(n) {
      PlacesOfHex(digits);
    }
    if digits != [] && HexPlaces(digits, n) {
      HexOfPlaces(digits, n);
    }
  }

  // ---- names ----

  predicate IsHigh(u: Unit) {
    0xD800 <= u <= 0xDBFF
  }

  predicate IsLow(u: Unit) {
    0xDC00 <= u <= 0xDFFF
  }

  /** A low surrogate follows a high one, and a high one stands before a low one. */
  predicate PairedAt(name: Name, i: nat)
    requires i < |name|
  {
    && (IsHigh(name[i]) ==> i + 1 < |name| && IsLow(name[i + 1]))
    && (IsLow(name[i]) ==> i > 0 && IsHigh(name[i - 1]))
  }

  predicate Paired(name: Name) {
    forall i :: 0 <= i < |name| ==> PairedAt(name, i)
  }

  /** A name is well-formed UTF-16 exactly when its surrogates are paired. */
  lemma Utf16Exactly(name: Name)
    ensures ValidUtf16(name) <==> Paired(name)
  {
    if ValidUtf16(name) {
      ValidIsPaired(name);
    }
    if Paired(name) {
      PairedIsValid(name);
    }
  }

  lemma {:induction false} ValidIsPaired(name: Name)
    requires ValidUtf16(name)
    ensures Paired(name)
    decreases |name|
  {
    if name != [] {
      var n := if IsHigh(name[0]) then 2 else 1;
      var rest := name[n..];
      ValidIsPaired(rest);
      forall i | n <= i < |name|
        ensures PairedAt(name, i)
      {
        assert PairedAt(rest, i - n);
      }
    }
  }

  lemma {:induction false} PairedIsValid(name: Name)
    requires Paired(name)
    ensures ValidUtf16(name)
    decreases |name|
  {
    if name != [] {
      assert PairedAt(name, 0);
      var n := if IsHigh(name[0]) then 2 else 1;
      var rest := name[n..];
      forall i | 0 <= i < |rest|
        ensures PairedAt(rest, i)
      {
        assert PairedAt(name, i + n);
      }
      PairedIsValid(rest);
    }
  }

  // ---- blocks ----

  /** Line end, three numbers with a space behind each, line end: 31 bytes. */
  function HeaderBytes(total: nat, capacity: nat, next: nat, capital: bool): (b: seq<Byte>)
    ensures |b| == 31
  {
    [13, 10] + EightDigits(total, capital) + [32] + EightDigits(capacity, capital) + [32]
    + EightDigits(next, capital) + [32, 13, 10]
  }

  lemma HeaderBytesRead(container: seq<Byte>, o: nat, total: nat, capacity: nat, next: nat, capital: bool)
    requires total < 0x1_0000_0000 && capacity < 0x1_0000_0000 && next < 0x1_0000_0000
    requires StandsAt(container, o, HeaderBytes(total, capacity, next, capital))
    ensures o + 31 <= |container| && o + HEADER_LENGTH <= |container|
    ensures ReadHeader(container, o) == Some(Header(total, capacity, next))
  {
    hide EightDigits, ParseHex;
    EightDigitsRead(total, capital);
    EightDigitsRead(capacity, capital);
    EightDigitsRead(next, capital);
    var h := HeaderBytes(total, capacity, next, capital);
    SameSlice(container, o, h, 2, 10);
    SameSlice(container, o, h, 11, 19);
    SameSlice(container, o, h, 20, 28);
    assert h[2..10] == EightDigits(total, capital) && h[11..19] == EightDigits(capacity, capital);
    assert h[20..28] == EightDigits(next, capital);
  }

  lemma SameSlice(s: seq<Byte>, o: nat, w: seq<Byte>, i: nat, j: nat)
    requires StandsAt(s, o, w) && i <= j <= |w|
    ensures o + |w| <= |s| && s[o + i..o + j] == w[i..j]
  {
    forall k | 0 <= k < j - i
      ensures s[o + i..o + j][k] == w[i..j][k]
    {
      assert s[o..o + |w|][i + k] == s[o + i + k];
    }
  }

  /** A document in a single block, the place behind it filled up. */
  function BlockBytes(data: seq<Byte>, filler: seq<Byte>, capital: bool): (b: seq<Byte>)
    ensures |b| == 31 + |data| + |filler|
  {
    HeaderBytes(|data|, |data| + |filler|, 0x7FFF_FFFF, capital) + data + filler
  }

  lemma BlockIsRead(
      container: seq<Byte>, o: nat, minimum: nat, limit: nat, data: seq<Byte>, filler: seq<Byte>, capital: bool)
    requires StandsAt(container, o, BlockBytes(data, filler, capital))
    requires |data| + |filler| < 0x1_0000_0000 && |data| <= limit
    ensures Document(container, o, minimum, limit) == Ok(data)
  {
    hide HeaderBytes, ReadHeader, Chain, StandsAt;
    var capacity := |data| + |filler|;
    var h := HeaderBytes(|data|, capacity, 0x7FFF_FFFF, capital);
    StandsAtConcat(container, o, h + data, filler);
    StandsAtConcat(container, o, h, data);
    HeaderBytesRead(container, o, |data|, capacity, 0x7FFF_FFFF, capital);
    assert Gives(container, o, minimum, |data|, data);
    HeldIsRead(container, [o], minimum, limit, |data|, None, [], data, {});
    assert [] + data == data;
  }

  // ---- a container of one file ----

  /** Four bytes, the lowest first. */
  function FourBytes(n: nat): (b: seq<Byte>)
    requires n < 0x1_0000_0000
    ensures |b| == 4
  {
    [n % 0x100, n / 0x100 % 0x100, n / 0x1_0000 % 0x100, n / 0x100_0000]
  }

  lemma FourBytesRead(n: nat)
    requires n < 0x1_0000_0000
    ensures LittleEndian(FourBytes(n)) == n
  {
    hide LittleEndian;
    FourInTurn(n % 0x100, n / 0x100 % 0x100, n / 0x1_0000 % 0x100, n / 0x100_0000);
    FourDigits(n, n / 0x100, n / 0x1_0000, n / 0x100_0000);
  }

  lemma FourDigits(n: nat, q: nat, r: nat, s: nat)
    requires q == n / 0x100 && r == n / 0x1_0000 && s == n / 0x100_0000
    ensures n == n % 0x100 + 0x100 * (q % 0x100 + 0x100 * (r % 0x100 + 0x100 * s))
  {
    assert r == q / 0x100 && s == r / 0x100;
    assert n == n % 0x100 + 0x100 * q && q == q % 0x100 + 0x100 * r && r == r % 0x100 + 0x100 * s;
  }

  lemma FourInTurn(a: Byte, b: Byte, c: Byte, d: Byte)
    ensures LittleEndian([a, b, c, d])
         == a as int + 0x100 * (b as int + 0x100 * (c as int + 0x100 * d as int))
  {
    assert [a, b, c, d][1..] == [b, c, d] && [b, c, d][1..] == [c, d] && [c, d][1..] == [d] && [d][1..] == [];
    assert LittleEndian([d]) == d as int;
    assert LittleEndian([c, d]) == c as int + 0x100 * d as int;
    assert LittleEndian([b, c, d]) == b as int + 0x100 * (c as int + 0x100 * d as int);
  }

  /** Where the file's description starts: behind the head, a block header and the room of the contents. */
  const DESCRIPTION_PLACE := 16 + 31 + 0x200

  function DocumentPlace(stamp: seq<Byte>, name: Name): (o: nat) {
    DESCRIPTION_PLACE + 31 + |DescriptionOf(stamp, name)|
  }

  /** Twenty bytes of dates and marks, the name, a zero unit. */
  function DescriptionOf(stamp: seq<Byte>, name: Name): (b: seq<Byte>) {
    stamp + (NameBytes(name) + [0, 0])
  }

  function ContentsOf(description: nat, document: nat): (b: seq<Byte>)
    requires description < 0x1_0000_0000 && document < 0x1_0000_0000
    ensures |b| == 12
  {
    FourBytes(description) + FourBytes(document) + [0xFF, 0xFF, 0xFF, 0x7F]
  }

  function OneFile(
      head: seq<Byte>, room: seq<Byte>, stamp: seq<Byte>, name: Name, data: seq<Byte>, capital: bool)
    : (container: seq<Byte>)
    requires DocumentPlace(stamp, name) < 0x1_0000_0000
  {
    head + (BlockBytes(ContentsOf(DESCRIPTION_PLACE, DocumentPlace(stamp, name)), room, capital)
            + (BlockBytes(DescriptionOf(stamp, name), [], capital) + BlockBytes(data, [], capital)))
  }

  lemma OneRecordReads(description: nat, document: nat)
    requires description < 0x1_0000_0000 && document < 0x1_0000_0000
    ensures var toc := ContentsOf(description, document);
            && LittleEndian(toc[0..4]) == description && LittleEndian(toc[4..8]) == document
            && LittleEndian(toc[8..12]) == NO_NEXT
  {
    hide LittleEndian, FourBytes;
    var toc := ContentsOf(description, document);
    FourBytesRead(description);
    FourBytesRead(document);
    FourBytesRead(0x7FFF_FFFF);
    LargestMark();
    assert toc[0..4] == FourBytes(description) && toc[4..8] == FourBytes(document);
    assert toc[8..12] == [0xFF, 0xFF, 0xFF, 0x7F];
  }

  lemma LargestMark()
    ensures FourBytes(0x7FFF_FFFF) == [0xFF, 0xFF, 0xFF, 0x7F]
  {
  }

  /** A container written byte by byte with one file gives that file by its name, and none by another. */
  lemma OneFileReads(
      head: seq<Byte>, room: seq<Byte>, stamp: seq<Byte>, name: Name, data: seq<Byte>, capital: bool, wanted: Name,
      limit: nat)
    requires |head| == 16 && |room| == 0x200 - 12 && |stamp| == 20 && 0 !in name && ValidUtf16(name)
    requires DocumentPlace(stamp, name) < 0x1_0000_0000 && |data| < 0x1_0000_0000
    requires |data| <= limit && |DescriptionOf(stamp, name)| <= limit && limit >= 12
    ensures Entry(OneFile(head, room, stamp, name, data, capital), wanted, limit)
         == if wanted == name then Ok(Some(data)) else Ok(None)
  {
    hide BlockBytes, Document, LittleEndian, NameUnits, ValidUtf16, NameBytes;
    var container := OneFile(head, room, stamp, name, data, capital);
    var description, place := DescriptionOf(stamp, name), DocumentPlace(stamp, name);
    var toc := ContentsOf(DESCRIPTION_PLACE, place);
    FileBlocksStand(head, room, stamp, name, data, capital);
    BlockIsRead(container, 16, 0x200, limit, toc, room, capital);
    BlockIsRead(container, DESCRIPTION_PLACE, 0, limit, description, [], capital);
    BlockIsRead(container, place, 0, limit, data, [], capital);
    OneRecordReads(DESCRIPTION_PLACE, place);
    NameRoundTrip(name, []);
    assert description[20..] == NameBytes(name) + [0, 0] + [];
    OneRecord(container, toc, wanted, limit);
  }

  lemma FileBlocksStand(
      head: seq<Byte>, room: seq<Byte>, stamp: seq<Byte>, name: Name, data: seq<Byte>, capital: bool)
    requires |head| == 16 && |room| == 0x200 - 12 && DocumentPlace(stamp, name) < 0x1_0000_0000
    ensures var container, place := OneFile(head, room, stamp, name, data, capital), DocumentPlace(stamp, name);
            && |container| >= 16
            && StandsAt(container, 16, BlockBytes(ContentsOf(DESCRIPTION_PLACE, place), room, capital))
            && StandsAt(container, DESCRIPTION_PLACE, BlockBytes(DescriptionOf(stamp, name), [], capital))
            && StandsAt(container, place, BlockBytes(data, [], capital))
  {
    hide BlockBytes, ContentsOf, DescriptionOf, StandsAt;
    var place := DocumentPlace(stamp, name);
    var a := BlockBytes(ContentsOf(DESCRIPTION_PLACE, place), room, capital);
    var b, c := BlockBytes(DescriptionOf(stamp, name), [], capital), BlockBytes(data, [], capital);
    var container := OneFile(head, room, stamp, name, data, capital);
    Whole(container);
    StandsAtConcat(container, 0, head, a + (b + c));
    StandsAtConcat(container, 16, a, b + c);
    StandsAtConcat(container, 16 + |a|, b, c);
  }

  lemma Whole(s: seq<Byte>)
    ensures StandsAt(s, 0, s)
  {
  }

  lemma OneRecord(container: seq<Byte>, toc: seq<Byte>, wanted: Name, limit: nat)
    requires |toc| == 12 && LittleEndian(toc[8..12]) == NO_NEXT && |container| >= 16
    requires Document(container, 16, 0x200, limit) == Ok(toc)
    requires var d := Document(container, LittleEndian(toc[0..4]), 0, limit);
             d.Ok? && |d.value| >= 20 && ValidUtf16(NameUnits(d.value[20..]))
    requires Document(container, LittleEndian(toc[4..8]), 0, limit).Ok?
    ensures Entry(container, wanted, limit)
         == if wanted == NameUnits(Document(container, LittleEndian(toc[0..4]), 0, limit).value[20..])
            then Ok(Some(Document(container, LittleEndian(toc[4..8]), 0, limit).value)) else Ok(None)
  {
    hide Document, LittleEndian, NameUnits, ValidUtf16;
    assert Find(container, toc, 12, wanted, limit) == Ok(None);
  }
}
