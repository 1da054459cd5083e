/**
 * The scanners over UTF-8 bytes, as the source has them: they look for ASCII byte by byte
 * and slice only at character boundaries, and what they give is the encoding of what the
 * scanners over characters give.
 */
module ByteText {
  import opened Bits
  import opened BraceText
  import opened Outcomes
  import opened Slices
  import opened Utf8
  import Lexing

  const QUOTE: Byte := 0x22

  lemma {:induction false} QuoteIsFound(s: string, k: nat)
    requires k <= |s|
    ensures FindChar(s, k, {'"'}) == FindQuote(s, k)
    decreases |s| - k
  {
    if k < |s| && s[k] != '"' {
      QuoteIsFound(s, k + 1);
    }
  }

  lemma {:induction false} DelimiterIsFound(s: string, k: nat)
    requires k <= |s|
    ensures FindChar(s, k, {',', '}', '{'}) == AtomEnd(s, k)
    decreases |s| - k
  {
    if k < |s| && !IsDelimiter(s[k]) {
      DelimiterIsFound(s, k + 1);
    }
  }

  /** The first quote, by bytes. */
  lemma QuoteOffset(s: string, k: nat)
    requires k <= |s|
    ensures ByteOffset(s, k) <= |Encode(s)|
    ensures FindByte(Encode(s), ByteOffset(s, k), {'"'}) == ByteOffset(s, FindQuote(s, k))
  {
    hide Encode, ByteOffset, FindByte;
    FindByteIsFindChar(s, k, {'"'});
    QuoteIsFound(s, k);
  }

  lemma DelimiterOffset(s: string, k: nat)
    requires k <= |s|
    ensures ByteOffset(s, k) <= |Encode(s)|
    ensures FindByte(Encode(s), ByteOffset(s, k), {',', '}', '{'}) == ByteOffset(s, AtomEnd(s, k))
  {
    hide Encode, ByteOffset, FindByte;
    FindByteIsFindChar(s, k, {',', '}', '{'});
    DelimiterIsFound(s, k);
  }

  /** A byte at the offset of a place is a quote if and only if the character there is. */
  lemma QuoteAt(s: string, k: nat)
    requires k <= |s|
    ensures ByteOffset(s, k) <= |Encode(s)|
    ensures ByteOffset(s, k) < |Encode(s)| <==> k < |s|
    ensures k < |s| ==> (Encode(s)[ByteOffset(s, k)] == QUOTE <==> s[k] == '"')
    ensures k < |s| && s[k] == '"' ==> ByteOffset(s, k + 1) == ByteOffset(s, k) + 1
  {
    hide Encode, ByteOffset, EncodeChar;
    if k < |s| {
      CharStands(s, k);
      QuoteByte(s[k]);
      var b, p, q := Encode(s), ByteOffset(s, k), ByteOffset(s, k + 1);
      assert b[p] == b[p..q][0];
    } else {
      OffsetEnds(s);
    }
  }

  lemma QuoteByte(c: char)
    ensures EncodeChar(c)[0] == QUOTE <==> c == '"'
    ensures |EncodeChar('"')| == 1
  {
    hide EncodeChar;
    CharShape(c);
    CharShape('"');
  }

  // ---- quoted strings ----

  /** What the next quote means for the string gathered so far. */
  lemma TailCases(text: string, k: nat, gathered: string)
    requires k <= |text|
    ensures var q, whole := FindQuote(text, k), Prepend(gathered, StringTail(text, k));
            && (q == |text| ==> whole == Fault(k, UnterminatedString))
            && (q < |text| && !(q + 1 < |text| && text[q + 1] == '"') ==> whole == Ok((gathered + text[k..q], q + 1)))
            && (q + 1 < |text| && text[q + 1] == '"' ==>
                  whole == Prepend(gathered + (text[k..q] + ['"']), StringTail(text, q + 2)))
  {
    hide FindQuote, Prepend;
    var q := FindQuote(text, k);
    PrependCases(gathered, StringTail(text, k));
    if q + 1 < |text| && text[q + 1] == '"' {
      PrependTwice(gathered, text[k..q] + ['"'], StringTail(text, q + 2));
    }
  }

  lemma EncodeQuote()
    ensures Encode(['"']) == [QUOTE]
  {
    hide EncodeChar;
    OneChar('"');
    CharShape('"');
  }

  lemma EncodeGathered(gathered: string, segment: string)
    ensures Encode(gathered + segment) == Encode(gathered) + Encode(segment)
    ensures Encode(gathered + (segment + ['"'])) == Encode(gathered) + Encode(segment) + [QUOTE]
  {
    hide Encode;
    EncodeAppend(gathered, segment);
    EncodeAppend(gathered + segment, ['"']);
    EncodeQuote();
    Regroup(gathered, segment, ['"']);
  }

  function BytesOr(owned: Option<seq<Byte>>): (b: seq<Byte>) {
    if owned.Some? then owned.value else []
  }

  /** A cursor over bytes; `place` counts the characters of `text` before it. */
  class ByteCursor {
    const input: seq<Byte>
    ghost const text: string
    var offset: nat
    ghost var place: nat

    ghost predicate Valid()
      reads this
    {
      input == Encode(text) && place <= |text| && offset == ByteOffset(text, place)
    }

    constructor (input: seq<Byte>, ghost text: string)
      requires input == Encode(text)
      ensures Valid() && this.input == input && this.text == text && offset == place == 0
    {
      this.input := input;
      this.text := text;
      offset := 0;
      place := 0;
      new;
      OffsetEnds(text);
    }

    /** The first quote from the cursor on, byte by byte. */
    method NextQuote() returns (quote: nat)
      requires Valid()
      ensures FindQuote(text, place) <= |text| && quote == ByteOffset(text, FindQuote(text, place)) <= |input|
      ensures offset <= quote
    {
      hide Encode, ByteOffset;
      QuoteOffset(text, place);
      SliceIsEncoded(text, place, FindQuote(text, place));
      quote := offset;
      while quote < |input| && input[quote] != QUOTE
        invariant offset <= quote <= |input| && FindByte(input, quote, {'"'}) == FindByte(input, offset, {'"'})
      {
        quote := quote + 1;
      }
    }

    /** A slice of the input; the source panics where an end is no character boundary. */
    method Slice(from: nat, to: nat) returns (slice: seq<Byte>)
      requires from <= to <= |input| && IsBoundary(input, from) && IsBoundary(input, to)
      ensures slice == input[from..to]
    {
      slice := input[from..to];
    }

    /** The characters between two places, as the bytes between their offsets. */
    method Segment(from: nat, to: nat, ghost i: nat, ghost j: nat) returns (segment: seq<Byte>)
      requires Valid() && i <= j <= |text| && from == ByteOffset(text, i) && to == ByteOffset(text, j)
      ensures segment == Encode(text[i..j])
    {
      hide Encode, ByteOffset, IsBoundary;
      SliceIsEncoded(text, i, j);
      OffsetIsBoundary(text, i);
      OffsetIsBoundary(text, j);
      segment := Slice(from, to);
    }

    /** Reads a quoted string; the bytes given are those of the string the characters give. */
    method ReadString() returns (r: Result<seq<Byte>, ParseError>)
      requires Valid() && place < |text| && text[place] == '"'
      modifies this`offset, this`place
      ensures Valid()
      ensures match StringTail(text, old(place) + 1)
              case Ok((s, p)) => r == Ok(Encode(s)) && place == p
              case Err(e) => e.offset <= |text| && r == Fault(ByteOffset(text, e.offset), e.fault)
    {
      hide Encode, ByteOffset, FindQuote, Prepend, StringTail;
      QuoteAt(text, place);
      offset := offset + 1;
      place := place + 1;
      var segmentStart := offset;
      var owned: Option<seq<Byte>> := None;
      ghost var gathered: string := [];
      PrependNothing(StringTail(text, place));
      EncodeNothing();
      while true
        invariant Valid() && segmentStart == offset && BytesOr(owned) == Encode(gathered)
        invariant Prepend(gathered, StringTail(text, place)) == StringTail(text, old(place) + 1)
        decreases |text| - place
      {
        var quote := NextQuote();
        ghost var q := FindQuote(text, place);
        TailCases(text, place, gathered);
        QuoteAt(text, q);
        if quote == |input| {
          return Fault(offset, UnterminatedString);
        }
        QuoteAt(text, q + 1);
        var segment := Segment(segmentStart, quote, place, q);
        EncodeGathered(gathered, text[place..q]);
        if quote + 1 < |input| && input[quote + 1] == QUOTE {
          owned := Some(BytesOr(owned) + segment + [QUOTE]);
          gathered := gathered + (text[place..q] + ['"']);
          offset := quote + 2;
          place := q + 2;
          segmentStart := offset;
        } else {
          offset := quote + 1;
          place := q + 1;
          assert [] + segment == segment;
          return Ok(if owned.Some? then owned.value + segment else segment);
        }
      }
    }

    /** The bytes of an atom before trimming: up to the first delimiter, byte by byte. */
    method ReadAtomSlice() returns (slice: seq<Byte>)
      requires Valid()
      modifies this`offset, this`place
      ensures Valid() && place == AtomEnd(text, old(place)) && slice == Encode(text[old(place)..place])
    {
      hide Encode, ByteOffset;
      var start := offset;
      DelimiterOffset(text, place);
      SliceIsEncoded(text, place, AtomEnd(text, place));
      while offset < |input| && !StopsAt(input[offset], {',', '}', '{'})
        invariant start <= offset <= |input| && start == old(offset) && place == old(place)
        invariant FindByte(input, offset, {',', '}', '{'}) == FindByte(input, start, {',', '}', '{'})
      {
        offset := offset + 1;
      }
      place := AtomEnd(text, place);
      slice := Segment(start, offset, old(place), place);
    }
  }

  lemma EncodeNothing()
    ensures Encode([]) == []
  {
  }

  // ---- spans of tokens ----

  /** The span of a token, in bytes, starts and ends at character boundaries and holds the bytes of its lexeme. */
  ghost predicate SpansBytes(t: Lexing.Token, s: string) {
    && t.start < t.end <= |s|
    && IsBoundary(Encode(s), ByteOffset(s, t.start)) && IsBoundary(Encode(s), ByteOffset(s, t.end))
    && ByteOffset(s, t.start) < ByteOffset(s, t.end) <= |Encode(s)|
    && Encode(s)[ByteOffset(s, t.start)..ByteOffset(s, t.end)] == Encode(t.lexeme)
  }

  lemma MarkSpansBytes(t: Lexing.Token, s: string)
    requires Lexing.Marks(t, s)
    ensures SpansBytes(t, s)
  {
    hide Encode, EncodeChar, ByteOffset;
    Lexing.MarkBounds(t, s);
    SliceIsEncoded(s, t.start, t.end);
    OffsetIsBoundary(s, t.start);
    OffsetIsBoundary(s, t.end);
    assert |Encode(t.lexeme)| >= |t.lexeme|;
  }

  /** The spans of tokens that tile a text lie on its character boundaries. */
  lemma {:induction false} TilesSpanBytes(tokens: seq<Lexing.Token>, s: string, o: nat)
    requires o <= |s| && Lexing.Tiles(tokens, s, o)
    ensures forall t :: t in tokens ==> SpansBytes(t, s)
    decreases |tokens|
  {
    hide SpansBytes, Lexing.Marks;
    if tokens != [] {
      MarkSpansBytes(tokens[0], s);
      Lexing.MarkBounds(tokens[0], s);
      TilesSpanBytes(tokens[1..], s, tokens[0].end);
    }
  }
}
