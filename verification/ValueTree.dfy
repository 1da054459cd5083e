/**
 * Values of the brace format and the tree parser of src/metadata/value.rs, which the
 * streaming parsers of Config and DBNames replace without building the tree.
 */
module ValueTree {
  import opened Outcomes
  import opened BraceText
  import opened Slices
  import opened WhiteSpace

  datatype Value =
    | List(items: seq<Value>)
    | Str(text: string)
    | Atom(text: string)
    | Null
  {
    function AsStr(): (r: Option<string>) {
      if Str? || Atom? then Some(text) else None
    }

    function AsString(): (r: Option<string>) {
      if Str? then Some(text) else None
    }

    function AsAtom(): (r: Option<string>) {
      if Atom? then Some(text) else None
    }
  }

  const NESTING_LIMIT: nat := 512

  // ---- the tree parser ----

  function ParseValue(t: string, o: nat, depth: nat): (r: Parsed<Value>)
    requires o <= |t|
    ensures r.Ok? ==> o <= r.value.1 <= |t|
    ensures r.Ok? && o < |t| && t[o] != ',' && t[o] != '}' ==> o < r.value.1
    decreases |t| - o, 1
  {
    if o == |t| then Fault(o, UnexpectedEnd)
    else if t[o] == '{' then
      var (items, p) :- ParseList(t, o, depth);
      Ok((List(items), p))
    else if t[o] == '"' then
      var (s, p) :- StringTail(t, o + 1);
      Ok((Str(s), p))
    else if t[o] == ',' || t[o] == '}' then Ok((Null, o))
    else
      var (s, p) :- AtomText(t, o);
      Ok((Atom(s), p))
  }

  function ParseList(t: string, o: nat, depth: nat): (r: Parsed<seq<Value>>)
    requires o < |t|
    ensures r.Ok? ==> o < r.value.1 <= |t|
    decreases |t| - o, 0
  {
    if depth >= NESTING_LIMIT then Fault(o, NestingTooDeep)
    else ParseItems(t, SkipSpaces(t, o + 1), depth, [], true)
  }

  /** The rest of a list after some values; expecting says no value has followed the last comma. */
  function ParseItems(t: string, o: nat, depth: nat, values: seq<Value>, expecting: bool): (r: Parsed<seq<Value>>)
    requires o <= |t|
    ensures r.Ok? ==> o < r.value.1 <= |t| && values <= r.value.0
    decreases |t| - o, 2
  {
    var p := SkipSpaces(t, o);
    if p == |t| then Fault(p, UnterminatedList)
    else if t[p] == '}' then Ok((if expecting && values != [] then values + [Null] else values, p + 1))
    else if t[p] == ',' then
      ParseItems(t, p + 1, depth, if expecting then values + [Null] else values, true)
    else if expecting then
      var (v, q) :- ParseValue(t, p, depth + 1);
      ParseItems(t, q, depth, values + [v], false)
    else Fault(p, ExpectedSeparator)
  }

  /** Only an omitted value is read as nothing. */
  lemma ParsedNotNull(t: string, o: nat, depth: nat)
    requires o < |t| && t[o] != ',' && t[o] != '}' && ParseValue(t, o, depth).Ok?
    ensures ParseValue(t, o, depth).value.0 != Null
  {
  }

  /** One complete value, with nothing but white space around it. */
  function ParseSerialized(t: string): (r: Result<Value, ParseError>)
  {
    var o := SkipSpaces(t, 0);
    if o == |t| then Fault(o, EmptyText)
    else
      var (v, p) :- ParseValue(t, o, 0);
      var end := SkipSpaces(t, p);
      if end == |t| then Ok(v) else Fault(end, TrailingText)
  }

  // ---- printing ----

  function Print(v: Value): (s: string)
    decreases v, 1
  {
    match v
    case List(items) => "{" + PrintItems(items) + "}"
    case Str(text) => "\"" + DoubleQuotes(text) + "\""
    case Atom(text) => text
    case Null => ""
  }

  function PrintItems(items: seq<Value>): (s: string)
    decreases items, 0
  {
    if items == [] then ""
    else if |items| == 1 then Print(items[0])
    else Print(items[0]) + "," + PrintItems(items[1..])
  }

  predicate PlainAtom(text: string) {
    && text != [] && text[0] != '"' && !IsSpace(text[0]) && !IsSpace(text[|text| - 1])
    && forall i :: 0 <= i < |text| ==> !IsDelimiter(text[i])
  }

  /** Values the format can write: a lone omitted value in a list reads back as an empty list. */
  predicate Printable(v: Value, depth: nat) {
    match v
    case List(items) =>
      depth < NESTING_LIMIT && items != [Null] && forall i :: 0 <= i < |items| ==> Printable(items[i], depth + 1)
    case Str(_) => true
    case Atom(text) => PlainAtom(text)
    case Null => true
  }

  /** A place where a value may end. */
  predicate Ends(t: string, o: nat) {
    o == |t| || (o < |t| && (t[o] == ',' || t[o] == '}'))
  }

  lemma NotSkipped(t: string, o: nat)
    requires o < |t| && !IsSpace(t[o])
    ensures SkipSpaces(t, o) == o
  {
  }

  lemma {:induction false} AtomEndAt(t: string, o: nat, end: nat)
    requires o <= end <= |t| && (forall i :: o <= i < end ==> !IsDelimiter(t[i]))
    requires end == |t| || IsDelimiter(t[end])
    ensures AtomEnd(t, o) == end
    decreases end - o
  {
    if o < end {
      AtomEndAt(t, o + 1, end);
    }
  }

  lemma AtomParsed(t: string, o: nat, text: string)
    requires PlainAtom(text) && StandsAt(t, o, text) && Ends(t, o + |text|)
    ensures AtomText(t, o) == Ok((text, o + |text|))
  {
    var end := o + |text|;
    forall i | o <= i < end ensures !IsDelimiter(t[i]) {
      assert t[i] == t[o..end][i - o];
    }
    AtomEndAt(t, o, end);
    TrimOfPlain(text);
  }

  lemma FirstOfPrinted(v: Value, depth: nat)
    requires Printable(v, depth) && v != Null
    ensures Print(v) != [] && !IsSpace(Print(v)[0]) && Print(v)[0] != ',' && Print(v)[0] != '}'
  {
  }

  /** A printed value parses back to itself. */
  lemma {:induction false} ValueParsed(t: string, o: nat, depth: nat, v: Value)
    requires Printable(v, depth) && v != Null && StandsAt(t, o, Print(v)) && Ends(t, o + |Print(v)|)
    ensures ParseValue(t, o, depth) == Ok((v, o + |Print(v)|))
    decreases v, 1
  {
    hide StringTail, AtomText, DoubleQuotes, PlainAtom, IsSpace, PrintItems;
    FirstOfPrinted(v, depth);
    assert t[o] == t[o..o + |Print(v)|][0];
    match v {
      case List(items) =>
        ListParsed(t, o, depth, items);
      case Str(text) =>
        StandsAtConcat(t, o, "\"" + DoubleQuotes(text), "\"");
        StandsAtConcat(t, o, "\"", DoubleQuotes(text));
        StringWritten(t, o + 1, text);
      case Atom(text) =>
        assert PlainAtom(text);
        AtomStart(text);
        AtomParsed(t, o, text);
    }
  }

  lemma AtomStart(text: string)
    requires PlainAtom(text)
    ensures text[0] != '{' && text[0] != '"' && text[0] != ',' && text[0] != '}'
  {
  }

  predicate AllPrintable(items: seq<Value>, depth: nat) {
    forall i :: 0 <= i < |items| ==> Printable(items[i], depth)
  }

  lemma {:induction false} ListParsed(t: string, o: nat, depth: nat, items: seq<Value>)
    requires Printable(List(items), depth) && StandsAt(t, o, "{" + PrintItems(items) + "}")
    ensures ParseList(t, o, depth) == Ok((items, o + |PrintItems(items)| + 2))
    decreases items, 1
  {
    hide ParseValue, ParseItems, Print, PrintItems, IsSpace, SkipSpaces, StandsAt;
    assert AllPrintable(items, depth + 1) && items != [Null];
    var rest := PrintItems(items) + "}";
    assert "{" + PrintItems(items) + "}" == "{" + rest;
    StandsAtConcat(t, o, "{", rest);
    FirstOfItems(items, depth + 1);
    StandsAtHead(t, o, "{");
    StandsAtHead(t, o + 1, rest);
    NotSkipped(t, o + 1);
    if items == [] {
      NoItems();
      ClosingBrace(t, o + 1, depth);
    } else {
      assert [] + items == items;
      ItemsParsed(t, o + 1, depth, [], items);
    }
  }

  lemma ClosingBrace(t: string, o: nat, depth: nat)
    requires o < |t| && t[o] == '}' && SkipSpaces(t, o) == o
    ensures ParseItems(t, o, depth, [], true) == Ok(([], o + 1))
  {
  }

  lemma NoItems()
    ensures PrintItems([]) == "" && |PrintItems([])| == 0
  {
  }

  lemma FirstOfItems(items: seq<Value>, depth: nat)
    requires AllPrintable(items, depth)
    ensures var s := PrintItems(items) + "}"; !IsSpace(s[0]) && (items == [] ==> s == "}")
  {
    if items != [] && items[0] != Null {
      FirstOfPrinted(items[0], depth);
    }
  }

  /** What follows the first of some printed items. */
  function AfterFirst(items: seq<Value>): (s: string)
    requires items != []
    ensures s != [] && s[0] == if |items| == 1 then '}' else ','
  {
    if |items| == 1 then "}" else "," + (PrintItems(items[1..]) + "}")
  }

  lemma FirstItem(items: seq<Value>)
    requires items != []
    ensures PrintItems(items) + "}" == Print(items[0]) + AfterFirst(items)
  {
    hide Print;
    if |items| > 1 {
      var first, rest := Print(items[0]), PrintItems(items[1..]);
      assert PrintItems(items) == first + "," + rest;
      assert AfterFirst(items) == "," + (rest + "}");
      hide PrintItems, AfterFirst;
      Regroup(first + ",", rest, "}");
      Regroup(first, ",", rest + "}");
    }
  }

  /** Past the first item, the parser stands at the closing brace or the next item. */
  lemma AfterItem(t: string, o: nat, depth: nat, values: seq<Value>, expecting: bool, items: seq<Value>)
    requires items != [] && StandsAt(t, o, AfterFirst(items)) && (expecting ==> values != [] || |items| > 1)
    ensures var more := if expecting then values + [Null] else values;
            ParseItems(t, o, depth, values, expecting)
            == if |items| == 1 then Ok((more, o + 1)) else ParseItems(t, o + 1, depth, more, true)
  {
    hide ParseValue, PrintItems;
    assert t[o] == t[o..o + |AfterFirst(items)|][0];
    NotSkipped(t, o);
  }

  lemma OneItem(t: string, o: nat, depth: nat, values: seq<Value>, v: Value, p: nat)
    requires o < |t| && !IsSpace(t[o]) && t[o] != '}' && t[o] != ','
    requires ParseValue(t, o, depth + 1) == Ok((v, p))
    ensures ParseItems(t, o, depth, values, true) == ParseItems(t, p, depth, values + [v], false)
  {
    hide ParseValue;
    NotSkipped(t, o);
  }

  /** Printed items, after values already read, parse back to those values and themselves. */
  lemma {:induction false} ItemsParsed(t: string, o: nat, depth: nat, values: seq<Value>, items: seq<Value>)
    requires items != [] && AllPrintable(items, depth + 1) && values + items != [Null]
    requires StandsAt(t, o, PrintItems(items) + "}")
    ensures ParseItems(t, o, depth, values, true) == Ok((values + items, o + |PrintItems(items) + "}"|))
    decreases items, 0
  {
    hide ParseValue, ParseItems, Print, PrintItems, Printable, AfterFirst, StandsAt, IsSpace;
    var v, tail := items[0], AfterFirst(items);
    FirstItem(items);
    StandsAtConcat(t, o, Print(v), tail);
    var p := o + |Print(v)|;
    StandsAtHead(t, p, tail);
    if v == Null {
      PrintedNull();
      AfterItem(t, o, depth, values, true, items) by {
        assert |items| == 1 ==> items == [Null] && values + [Null] != [Null];
      }
    } else {
      FirstOfPrinted(v, depth + 1);
      StandsAtHead(t, o, Print(v));
      ValueParsed(t, o, depth + 1, v);
      OneItem(t, o, depth, values, v, p);
      AfterItem(t, p, depth, values + [v], false, items);
    }
    RemainingItems(t, p, depth, values + [v], items);
    assert values + [v] + items[1..] == values + items;
  }

  lemma PrintedNull()
    ensures Print(Null) == ""
  {
  }

  lemma {:induction false} RemainingItems(t: string, p: nat, depth: nat, more: seq<Value>, items: seq<Value>)
    requires items != [] && more != [] && AllPrintable(items, depth + 1) && StandsAt(t, p, AfterFirst(items))
    ensures (if |items| == 1 then Ok((more, p + 1)) else ParseItems(t, p + 1, depth, more, true))
         == Ok((more + items[1..], p + |AfterFirst(items)|))
    decreases items, 0, 0
  {
    hide ParseItems, PrintItems, Printable;
    if |items| > 1 {
      StandsAtConcat(t, p, ",", PrintItems(items[1..]) + "}");
      ItemsParsed(t, p + 1, depth, more, items[1..]);
    } else {
      assert more + items[1..] == more;
    }
  }

  /** Printing a value and parsing the text gives the value back. */
  lemma PrintThenParse(v: Value)
    requires Printable(v, 0) && v != Null
    ensures ParseSerialized(Print(v)) == Ok(v)
  {
    hide ParseValue, Print;
    var t := Print(v);
    FirstOfPrinted(v, 0);
    NotSkipped(t, 0);
    assert t[0..|t|] == t;
    ValueParsed(t, 0, 0, v);
  }
}
