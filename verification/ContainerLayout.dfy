/** Laying documents out over chains of blocks, and reading them back by name. */
module ContainerLayout {
  import opened Outcomes
  import opened Bits
  import opened Slices
  import opened Container

  // ---- writing numbers ----

  function HexDigitByte(v: nat): (b: Byte)
    requires v < 16
    ensures IsHex(b) && HexDigitValue(b) == v
  {
    if v < 10 then 0x30 + v else 0x61 + v - 10
  }

  function Power16(k: nat): (p: nat)
  {
    if k == 0 then 1 else 16 * Power16(k - 1)
  }

  /** A number in `k` hexadecimal digits. */
  function HexDigits(n: nat, k: nat): (s: seq<Byte>)
    ensures |s| == k && forall i :: 0 <= i < k ==> IsHex(s[i])
  {
    if k == 0 then [] else HexDigits(n / 16, k - 1) + [HexDigitByte(n % 16)]
  }

  lemma {:induction false} HexRoundTrip(n: nat, k: nat)
    requires n < Power16(k)
    ensures HexValue(HexDigits(n, k)) == n
  {
    if k > 0 {
      HexRoundTrip(n / 16, k - 1);
      assert HexDigits(n, k)[..k - 1] == HexDigits(n / 16, k - 1);
    }
  }

  const WORD := 0x1_0000_0000

  lemma EightDigits(n: nat)
    requires n < WORD
    ensures ParseHex(HexDigits(n, 8)) == Some(n)
  {
    assert Power16(2) == 0x100 && Power16(4) == 0x1_0000 && Power16(6) == 0x100_0000 && Power16(8) == WORD;
    HexRoundTrip(n, 8);
    assert IsHex(HexDigits(n, 8)[0]);
  }

  // ---- laying out a document ----

  /** A place for a block and the length its header declares. */
  datatype Span = Span(offset: nat, capacity: nat)

  predicate HeaderStands(container: seq<Byte>, o: nat, total: nat, capacity: nat, next: nat) {
    && o + 31 <= |container|
    && StandsAt(container, o + 2, HexDigits(total, 8))
    && StandsAt(container, o + 11, HexDigits(capacity, 8))
    && StandsAt(container, o + 20, HexDigits(next, 8))
  }

  /** Blocks filled with `data` in order, each with its header; the last one leads nowhere. */
  predicate LaidOut(container: seq<Byte>, spans: seq<Span>, minimum: nat, total: nat, data: seq<Byte>)
    decreases |spans|
  {
    && spans != [] && spans[0].capacity < WORD
    && (var room := Max(spans[0].capacity, minimum);
        if |spans| == 1 then
          && |data| <= room && HeaderStands(container, spans[0].offset, total, spans[0].capacity, 0x7FFF_FFFF)
          && StandsAt(container, spans[0].offset + 31, data)
        else
          && room < |data| && spans[1].offset < WORD && spans[1].offset != 0x7FFF_FFFF
          && HeaderStands(container, spans[0].offset, total, spans[0].capacity, spans[1].offset)
          && StandsAt(container, spans[0].offset + 31, data[..room])
          && LaidOut(container, spans[1..], minimum, total, data[room..]))
  }

  function Offsets(spans: seq<Span>): (path: seq<nat>)
    ensures |path| == |spans| && forall i :: 0 <= i < |path| ==> path[i] == spans[i].offset
  {
    seq(|spans|, i requires 0 <= i < |spans| => spans[i].offset)
  }

  lemma HeaderReads(container: seq<Byte>, o: nat, total: nat, capacity: nat, next: nat)
    requires total < WORD && capacity < WORD && next < WORD
    requires HeaderStands(container, o, total, capacity, next)
    ensures ReadHeader(container, o) == Some(Header(total, capacity, next))
  {
    hide ParseHex, HexDigits;
    EightDigits(total);
    EightDigits(capacity);
    EightDigits(next);
  }

  /** Blocks laid out hold what was laid out. */
  lemma {:induction false} LaidOutIsHeld(
      container: seq<Byte>, spans: seq<Span>, minimum: nat, total: nat, data: seq<Byte>)
    requires LaidOut(container, spans, minimum, total, data) && total < WORD
    ensures Holds(container, Offsets(spans), minimum, data)
    ensures spans[0].offset + HEADER_LENGTH <= |container| && ReadHeader(container, spans[0].offset).Some?
    ensures ReadHeader(container, spans[0].offset).value.total == total
    decreases |spans|
  {
    hide ReadHeader, HeaderStands, StandsAt;
    var first, room := spans[0], Max(spans[0].capacity, minimum);
    if |spans| == 1 {
      HeaderFits(container, first.offset, total, first.capacity, NO_NEXT);
      HeaderReads(container, first.offset, total, first.capacity, NO_NEXT);
      assert Gives(container, first.offset, minimum, |data|, data);
    } else {
      HeaderFits(container, first.offset, total, first.capacity, spans[1].offset);
      HeaderReads(container, first.offset, total, first.capacity, spans[1].offset);
      LaidOutIsHeld(container, spans[1..], minimum, total, data[room..]);
      assert Offsets(spans)[1..] == Offsets(spans[1..]);
      assert Gives(container, first.offset, minimum, |data|, data[..room]);
      assert LeadsTo(container, first.offset, spans[1].offset);
    }
  }

  lemma HeaderFits(container: seq<Byte>, o: nat, total: nat, capacity: nat, next: nat)
    requires HeaderStands(container, o, total, capacity, next)
    ensures o + HEADER_LENGTH <= |container|
  {
  }

  /** A document laid out over blocks at different places is read back exactly. */
  lemma LayoutReadsBack(container: seq<Byte>, spans: seq<Span>, minimum: nat, limit: nat, data: seq<Byte>)
    requires LaidOut(container, spans, minimum, |data|, data)
    requires Distinct(Offsets(spans)) && |spans| <= 1_000_000 && |data| <= limit && |data| < WORD
    ensures Document(container, spans[0].offset, minimum, limit) == Ok(data)
  {
    hide Document, ReadHeader, Holds, LaidOut, Distinct;
    LaidOutIsHeld(container, spans, minimum, |data|, data);
    assert spans != [] by { FirstSpan(container, spans, minimum, data); }
    assert IsDocument(container, Offsets(spans), spans[0].offset, minimum, limit, data);
    DocumentExactly(container, spans[0].offset, minimum, limit, data);
  }

  lemma FirstSpan(container: seq<Byte>, spans: seq<Span>, minimum: nat, data: seq<Byte>)
    requires LaidOut(container, spans, minimum, |data|, data)
    ensures spans != []
  {
  }
}
