/**
 * The lexical layer of the brace format: white space, quoted strings with doubled
 * quotes, and unquoted atoms. Offsets count characters.
 */
module BraceText {
  import opened Outcomes
  import opened Slices
  import opened WhiteSpace

  datatype ParseFault =
    | EmptyText
    | TrailingText
    | UnexpectedEnd
    | UnterminatedList
    | ExpectedSeparator
    | UnterminatedString
    | EmptyAtom
    | NestingTooDeep

  datatype ParseError = ParseError(offset: nat, fault: ParseFault)

  type Parsed<+T> = Result<(T, nat), ParseError>

  function Fault<T>(offset: nat, fault: ParseFault): (r: Result<T, ParseError>)
  {
    Err(ParseError(offset, fault))
  }

  /** The white space of the ASCII range that separates tokens: no vertical tab. */
  predicate IsAsciiSpace(c: char) {
    c as int in {0x09, 0x0A, 0x0C, 0x0D, 0x20}
  }

  /** The white space skipped between tokens. */
  predicate Skippable(c: char) {
    if c as int < 0x80 then IsAsciiSpace(c) else IsSpace(c)
  }

  function SkipSpaces(t: string, o: nat): (p: nat)
    requires o <= |t|
    ensures o <= p <= |t| && (p < |t| ==> !Skippable(t[p]))
    decreases |t| - o
  {
    if o < |t| && Skippable(t[o]) then SkipSpaces(t, o + 1) else o
  }

  /** The first quote from o on, or the end of the text. */
  function FindQuote(t: string, o: nat): (q: nat)
    requires o <= |t|
    ensures o <= q <= |t| && (q < |t| ==> t[q] == '"') && (forall i :: o <= i < q ==> t[i] != '"')
    decreases |t| - o
  {
    if o < |t| && t[o] != '"' then FindQuote(t, o + 1) else o
  }

  function Prepend(front: string, r: Parsed<string>): (p: Parsed<string>)
  {
    if r.Ok? then Ok((front + r.value.0, r.value.1)) else Err(r.error)
  }

  /** A quoted string after its opening quote: segments joined by single quotes. */
  function StringTail(t: string, o: nat): (r: Parsed<string>)
    requires o <= |t|
    ensures r.Ok? ==> o < r.value.1 <= |t|
    decreases |t| - o
  {
    var q := FindQuote(t, o);
    if q == |t| then Fault(o, UnterminatedString)
    else if q + 1 < |t| && t[q + 1] == '"' then Prepend(t[o..q] + ['"'], StringTail(t, q + 2))
    else Ok((t[o..q], q + 1))
  }

  /** The text gathered so far: nothing until the first doubled quote. */
  function OrEmpty(owned: Option<string>): string {
    if owned.Some? then owned.value else []
  }

  lemma PrependCases(front: string, r: Parsed<string>)
    ensures r.Ok? ==> Prepend(front, r) == Ok((front + r.value.0, r.value.1))
    ensures r.Ok? && front == [] ==> Prepend(front, r) == r
    ensures r.Err? ==> Prepend(front, r) == r
  {
    assert r.Ok? ==> [] + r.value.0 == r.value.0;
  }

  /** Ends an atom. */
  predicate IsDelimiter(c: char) {
    c == ',' || c == '}' || c == '{'
  }

  function AtomEnd(t: string, o: nat): (p: nat)
    requires o <= |t|
    ensures o <= p <= |t| && (p < |t| ==> IsDelimiter(t[p])) && (forall i :: o <= i < p ==> !IsDelimiter(t[i]))
    decreases |t| - o
  {
    if o < |t| && !IsDelimiter(t[o]) then AtomEnd(t, o + 1) else o
  }

  function AtomText(t: string, o: nat): (r: Parsed<string>)
    requires o <= |t|
    ensures r.Ok? ==> o <= r.value.1 <= |t| && (o < |t| && !IsDelimiter(t[o]) ==> o < r.value.1)
  {
    var end := AtomEnd(t, o);
    var atom := Trim(t[o..end]);
    if atom == [] then Fault(o, EmptyAtom) else Ok((atom, end))
  }

  /** The cursor both streaming parsers move over their input. */
  class TextCursor {
    const input: string
    var offset: nat

    ghost predicate Valid()
      reads this
    {
      offset <= |input|
    }

    constructor (input: string)
      ensures Valid() && this.input == input && offset == 0
    {
      this.input := input;
      offset := 0;
    }

    function Current(): (c: Option<char>)
      requires Valid()
      reads this
    {
      if offset < |input| then Some(input[offset]) else None
    }

    method SkipWhitespace()
      requires Valid()
      modifies this
      ensures Valid() && offset == SkipSpaces(input, old(offset))
    {
      while offset < |input| && Skippable(input[offset])
        invariant Valid() && SkipSpaces(input, offset) == SkipSpaces(input, old(offset))
        decreases |input| - offset
      {
        offset := offset + 1;
      }
    }

    method NextQuote() returns (quote: nat)
      requires Valid()
      ensures quote == FindQuote(input, offset)
    {
      quote := offset;
      while quote < |input| && input[quote] != '"'
        invariant quote <= |input| && FindQuote(input, quote) == FindQuote(input, offset)
      {
        quote := quote + 1;
      }
    }

    /** Reads a quoted string; only a text with doubled quotes is copied out piecewise. */
    method ReadString() returns (r: Result<string, ParseError>)
      requires Valid() && offset < |input|
      modifies this
      ensures Valid()
      ensures match StringTail(input, old(offset) + 1)
              case Ok((s, p)) => r == Ok(s) && offset == p
              case Err(e) => r == Err(e)
    {
      hide FindQuote, Prepend;
      offset := offset + 1;
      var segmentStart := offset;
      var owned: Option<string> := None;
      PrependNothing(StringTail(input, offset));
      while true
        invariant Valid() && segmentStart == offset
        invariant Prepend(OrEmpty(owned), StringTail(input, offset)) == StringTail(input, old(offset) + 1)
        decreases |input| - offset
      {
        var quote := NextQuote();
        PrependCases(OrEmpty(owned), StringTail(input, offset));
        if quote == |input| {
          return Fault(offset, UnterminatedString);
        }
        if quote + 1 < |input| && input[quote + 1] == '"' {
          PrependTwice(OrEmpty(owned), input[segmentStart..quote] + ['"'], StringTail(input, quote + 2));
          owned := Some(OrEmpty(owned) + (input[segmentStart..quote] + ['"']));
          offset := quote + 2;
          segmentStart := offset;
        } else {
          offset := quote + 1;
          return Ok(if owned.Some? then owned.value + input[segmentStart..quote] else input[segmentStart..quote]);
        }
      }
    }

    method ReadAtom() returns (r: Result<string, ParseError>)
      requires Valid()
      modifies this
      ensures Valid()
      ensures match AtomText(input, old(offset))
              case Ok((s, p)) => r == Ok(s) && offset == p
              case Err(e) => r == Err(e)
    {
      var start := offset;
      while offset < |input| && !IsDelimiter(input[offset])
        invariant start <= offset && Valid() && AtomEnd(input, offset) == AtomEnd(input, start)
        decreases |input| - offset
      {
        offset := offset + 1;
      }
      var atom := Trim(input[start..offset]);
      return if atom == [] then Fault(start, EmptyAtom) else Ok(atom);
    }
  }

  lemma PrependTwice(a: string, b: string, r: Parsed<string>)
    ensures Prepend(a, Prepend(b, r)) == Prepend(a + b, r)
  {
    if r.Ok? {
      assert a + (b + r.value.0) == a + b + r.value.0;
    }
  }

  lemma PrependNothing(r: Parsed<string>)
    ensures Prepend([], r) == r
  {
    if r.Ok? {
      assert [] + r.value.0 == r.value.0;
    }
  }

  // ---- quote doubling ----

  function DoubleQuotes(s: string): (d: string)
    ensures |d| >= |s|
  {
    if s == [] then [] else (if s[0] == '"' then ['"', '"'] else [s[0]]) + DoubleQuotes(s[1..])
  }

  /** A closing quote: one that is not doubled. */
  predicate ClosesAt(t: string, o: nat) {
    o < |t| && t[o] == '"' && (o + 1 < |t| ==> t[o + 1] != '"')
  }

  lemma PlainCharacter(t: string, o: nat)
    requires o < |t| && t[o] != '"' && StringTail(t, o + 1).Ok?
    ensures StringTail(t, o) == Prepend([t[o]], StringTail(t, o + 1))
  {
    var q := FindQuote(t, o + 1);
    assert FindQuote(t, o) == q;
    assert t[o..q] == [t[o]] + t[o + 1..q];
    if q + 1 < |t| && t[q + 1] == '"' {
      PrependTwice([t[o]], t[o + 1..q] + ['"'], StringTail(t, q + 2));
      assert t[o..q] + ['"'] == [t[o]] + (t[o + 1..q] + ['"']);
    }
  }

  lemma DoubledQuote(t: string, o: nat)
    requires o + 1 < |t| && t[o] == '"' && t[o + 1] == '"'
    ensures StringTail(t, o) == Prepend(['"'], StringTail(t, o + 2))
  {
    assert FindQuote(t, o) == o && t[o..o] + ['"'] == ['"'];
  }

  lemma ClosingQuote(t: string, o: nat)
    requires ClosesAt(t, o)
    ensures StringTail(t, o) == Ok(([], o + 1))
  {
    assert FindQuote(t, o) == o && t[o..o] == [];
  }

  /** The scanner undoes quote doubling. */
  lemma {:induction false} StringWritten(t: string, o: nat, s: string)
    requires StandsAt(t, o, DoubleQuotes(s)) && ClosesAt(t, o + |DoubleQuotes(s)|)
    ensures StringTail(t, o) == Ok((s, o + |DoubleQuotes(s)| + 1))
    decreases s
  {
    hide StringTail;
    if s == [] {
      ClosingQuote(t, o);
    } else {
      var head := if s[0] == '"' then ['"', '"'] else [s[0]];
      StandsAtConcat(t, o, head, DoubleQuotes(s[1..]));
      StringWritten(t, o + |head|, s[1..]);
      assert t[o] == t[o..o + |head|][0] == s[0];
      if s[0] == '"' {
        assert t[o + 1] == t[o..o + |head|][1];
        DoubledQuote(t, o);
      } else {
        PlainCharacter(t, o);
      }
      assert [s[0]] + s[1..] == s;
    }
  }

  lemma {:induction false} NothingToDouble(s: string)
    requires '"' !in s
    ensures DoubleQuotes(s) == s
  {
    if s != [] {
      NothingToDouble(s[1..]);
    }
  }

  lemma {:induction false} DoubleQuotesAppend(a: string, b: string)
    ensures DoubleQuotes(a + b) == DoubleQuotes(a) + DoubleQuotes(b)
  {
    if a == [] {
      assert a + b == b;
    } else {
      assert (a + b)[1..] == a[1..] + b;
      DoubleQuotesAppend(a[1..], b);
    }
  }

  /** What the scanner accepts is a text with its quotes doubled, up to a closing quote. */
  lemma {:induction false} WrittenIsString(t: string, o: nat)
    requires o <= |t| && StringTail(t, o).Ok?
    ensures var (s, p) := StringTail(t, o).value;
            p == o + |DoubleQuotes(s)| + 1 && StandsAt(t, o, DoubleQuotes(s)) && ClosesAt(t, p - 1)
    decreases |t| - o
  {
    hide DoubleQuotes;
    var q := FindQuote(t, o);
    NothingToDouble(t[o..q]);
    if q + 1 < |t| && t[q + 1] == '"' {
      WrittenIsString(t, q + 2);
      SegmentWritten(t, o, q, StringTail(t, q + 2).value.0);
    }
  }

  lemma DoubledSegment(plain: string, rest: string)
    requires '"' !in plain
    ensures DoubleQuotes(plain + ['"'] + rest) == plain + ['"', '"'] + DoubleQuotes(rest)
  {
    var tail := ['"'] + rest;
    assert plain + ['"'] + rest == plain + tail;
    assert tail[1..] == rest;
    DoubleQuotesAppend(plain, tail);
    NothingToDouble(plain);
  }

  /** A segment, a doubled quote and what follows are the doubled form of the whole. */
  lemma SegmentWritten(t: string, o: nat, q: nat, rest: string)
    requires o <= q && q + 1 < |t| && '"' !in t[o..q] && t[q] == '"' && t[q + 1] == '"'
    requires StandsAt(t, q + 2, DoubleQuotes(rest))
    ensures var s := t[o..q] + ['"'] + rest;
            |DoubleQuotes(s)| == q - o + 2 + |DoubleQuotes(rest)| && StandsAt(t, o, DoubleQuotes(s))
  {
    hide DoubleQuotes;
    DoubledSegment(t[o..q], rest);
    assert t[q..q + 2] == ['"', '"'];
    StandsAtConcat(t, o, t[o..q], ['"', '"']);
    StandsAtConcat(t, o, t[o..q] + ['"', '"'], DoubleQuotes(rest));
  }
}
