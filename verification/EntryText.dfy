/** The text of one DBNames entry, and what is read from it. */
module EntryText {
  import opened BraceForms
  import opened BraceText
  import opened DbNames
  import opened Outcomes
  import opened Scalars
  import opened ScalarText
  import opened ValueTree
  import opened WhiteSpace

  /** A list is an entry exactly when it is an identifier, a string and a positive 32-bit number. */
  lemma EntryExactly(values: seq<Value>, e: Entry)
    ensures EntryOf(values) == Some(e) <==>
            && |values| == 3 && (values[0].Str? || values[0].Atom?)
            && IsIdentifier(values[0].text) && LowersTo(values[0].text, e.guid)
            && values[1] == Str(e.alias) && values[2].Atom? && e.number > 0
            && Says(values[2].text, e.number)
  {
    hide ParseGuid, ParseU32, Says;
    if |values| == 3 && values[2].Atom? {
      NumberExactly(values[2].text, e.number);
    }
    if |values| == 3 && (values[0].Str? || values[0].Atom?) {
      GuidExactly(values[0].text, e.guid);
    }
  }

  /** An entry as it is written: identifier, alias, number. */
  function EntryWritten(guid: string, alias: string, number: string): (text: string) {
    "{" + guid + ",\"" + DoubleQuotes(alias) + "\"," + number + "}"
  }

  lemma EntryPrinted(guid: string, alias: string, number: string)
    ensures Print(List([Atom(guid), Str(alias), Atom(number)])) == EntryWritten(guid, alias, number)
  {
    hide DoubleQuotes;
    var items := [Atom(guid), Str(alias), Atom(number)];
    assert items[1..] == [Str(alias), Atom(number)] && items[1..][1..] == [Atom(number)];
    assert PrintItems([Atom(number)]) == number;
    assert PrintItems(items[1..]) == "\"" + DoubleQuotes(alias) + "\"" + "," + number;
    assert PrintItems(items) == guid + "," + ("\"" + DoubleQuotes(alias) + "\"" + "," + number);
  }

  lemma IdentifierIsPlain(guid: string)
    requires IsIdentifier(guid)
    ensures PlainAtom(guid)
  {
    assert guid[0] in "0123456789abcdefABCDEF" && guid[35] in "0123456789abcdefABCDEF";
    forall i | 0 <= i < |guid|
      ensures !IsDelimiter(guid[i]) && !IsSpace(guid[i]) && guid[i] != '"'
    {
      PlainDigit(guid[i]);
    }
  }

  lemma PlainDigit(c: char)
    requires c == '-' || c in "0123456789abcdefABCDEF"
    ensures !IsDelimiter(c) && !IsSpace(c) && c != '"'
  {
    HexDigits(c);
  }

  lemma NumberIsPlain(number: string)
    requires number != "" && AllDigits(number)
    ensures PlainAtom(number)
  {
  }

  lemma {:induction false} FlatWalk(values: seq<Value>)
    requires forall i :: 0 <= i < |values| ==> !values[i].List?
    ensures WalkAll(values) == []
    decreases |values|
  {
    if values != [] {
      FlatWalk(values[1..]);
    }
  }

  lemma OneEntry(items: seq<Value>)
    requires forall i :: 0 <= i < |items| ==> !items[i].List?
    ensures Walk(List(items)) == OptionToSeq(EntryOf(items))
  {
    hide EntryOf;
    FlatWalk(items);
  }

  /** A text of an identifier, an alias and any plain atom gives an entry exactly if the atom is a positive number. */
  method EntryOfText(guid: string, alias: string, number: string) returns (r: Result<seq<Entry>, ParseError>)
    requires IsIdentifier(guid) && PlainAtom(number)
    ensures (forall n: nat :: n > 0 ==> !Says(number, n)) ==> r == Ok([])
    ensures forall n: nat :: n > 0 && Says(number, n) ==>
              r.Ok? && |r.value| == 1 && LowersTo(guid, r.value[0].guid)
              && r.value[0].alias == alias && r.value[0].number == n
  {
    hide PlainAtom, Print, Walk, Says, IsIdentifier, LowersTo, EntryOf;
    ghost var items := [Atom(guid), Str(alias), Atom(number)];
    IdentifierIsPlain(guid);
    EntryPrinted(guid, alias, number);
    OneEntry(items);
    EntryRead(guid, alias, number);
    PrintThenParse(List(items));
    r := ParseDbNameEntries(EntryWritten(guid, alias, number));
  }

  lemma EntryRead(guid: string, alias: string, number: string)
    requires IsIdentifier(guid)
    ensures var e := EntryOf([Atom(guid), Str(alias), Atom(number)]);
            && ((forall n: nat :: n > 0 ==> !Says(number, n)) ==> e == None)
            && (forall n: nat :: n > 0 && Says(number, n) ==>
                  e.Some? && LowersTo(guid, e.value.guid) && e.value.alias == alias && e.value.number == n)
  {
    hide ParseU32, ParseGuid, LowersTo, IsIdentifier, Says;
    var items := [Atom(guid), Str(alias), Atom(number)];
    if EntryOf(items).Some? {
      EntryExactly(items, EntryOf(items).value);
    }
    IdentifierIsRead(guid);
    forall n: nat | n > 0 && Says(number, n)
      ensures ParseU32(number) == Some(n)
    {
      NumberExactly(number, n);
    }
  }

  lemma IdentifierIsRead(guid: string)
    requires IsIdentifier(guid)
    ensures ParseGuid(guid).Some?
  {
    GuidExactly(guid, AsciiLowerAll(guid));
    AsciiLowerExactly(guid, AsciiLowerAll(guid));
  }

  /** The decimal digits of a positive 32-bit number are read as that number. */
  method EntryOfNumber(guid: string, alias: string, n: nat) returns (r: Result<seq<Entry>, ParseError>)
    requires IsIdentifier(guid) && 0 < n < 0x1_0000_0000
    ensures r.Ok? && |r.value| == 1
    ensures LowersTo(guid, r.value[0].guid) && r.value[0].alias == alias && r.value[0].number == n
  {
    hide PlainAtom, LowersTo, ParseU32, Says;
    DecimalsReadBack(n);
    NumberExactly(Decimals(n), n);
    NumberIsPlain(Decimals(n));
    r := EntryOfText(guid, alias, Decimals(n));
  }

  /** The entries of any text are those of the value it writes. */
  method EntriesOfForm(text: string, ghost front: string, ghost form: Form, ghost back: string)
    returns (r: Result<seq<Entry>, ParseError>)
    requires Lays(text, front, form, back)
    ensures r == Ok(Walk(Meaning(form)))
  {
    hide ParseSerialized, Walk, Meaning, Lays;
    FormIsRead(text, front, form, back);
    r := ParseDbNameEntries(text);
  }
}
