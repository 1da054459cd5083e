/**
 * What a Config resource says, field by field: which lists are descriptors and of what, and
 * which identifiers declare which purpose; and the same for the text of a resource.
 */
module ConfigText {
  import opened BraceForms
  import opened BraceText
  import opened ConfigAgreement
  import opened ConfigStream
  import opened ConfigTree
  import opened EntryText
  import opened Outcomes
  import opened Scalars
  import opened ScalarText
  import opened ValueTree

  // ---- descriptors ----

  /** The text of a string or an atom. */
  predicate Reads(v: Value, text: string) {
    v == Str(text) || v == Atom(text)
  }

  /** A self-reference: a marker, a zero and an identifier. */
  predicate References(v: Value, marker: string, guid: Guid) {
    && v.List? && |v.items| == 3 && Reads(v.items[0], marker) && Reads(v.items[1], "0")
    && (v.items[2].Str? || v.items[2].Atom?) && IsIdentifier(v.items[2].text) && LowersTo(v.items[2].text, guid)
  }

  /** The comment is the string two places behind the name, unless it is empty. */
  predicate Comments(values: seq<Value>, i: nat, comment: Option<string>) {
    if i + 3 < |values| && values[i + 3].Str? && values[i + 3].text != ""
    then comment == Some(values[i + 3].text) else comment == None
  }

  /** A field purpose marks a field, the purpose of enumerations marks a value, no purpose marks nothing. */
  predicate Serves(d: Descriptor, purpose: Option<Purpose>) {
    match purpose
    case None => d.fieldPurpose == None && !d.enumerationValue
    case Some(Field(field)) => d.fieldPurpose == Some(field) && !d.enumerationValue
    case Some(EnumerationValue) => d.fieldPurpose == None && d.enumerationValue
  }

  /** A descriptor starts at an index exactly where a self-reference and a name stand, and it says what they say. */
  lemma DescriptorExactly(values: seq<Value>, i: nat, purpose: Option<Purpose>, d: Descriptor)
    requires i + 2 < |values|
    ensures DescriptorAt(values, i, purpose) == Some(d) <==>
            && References(values[i], d.marker, d.guid) && values[i + 1] == Str(d.name)
            && Comments(values, i, d.comment) && Serves(d, purpose)
  {
    hide ParseGuid, IsIdentifier, LowersTo;
    if values[i].List? && |values[i].items| == 3 && (values[i].items[2].Str? || values[i].items[2].Atom?) {
      var text := values[i].items[2].text;
      GuidExactly(text, d.guid);
      if ParseGuid(text).Some? {
        GuidExactly(text, ParseGuid(text).value);
      }
    }
  }

  // ---- purposes ----

  /** The collections whose lists declare a purpose. */
  const COLLECTIONS: seq<(string, Purpose)> := [
    ("bee0a08c-07eb-40c0-8544-5c364c171465", EnumerationValue),
    ("13134203-f60b-11d5-a3c7-0050bae0a776", Field(InformationRegisterDimension)),
    ("13134202-f60b-11d5-a3c7-0050bae0a776", Field(InformationRegisterResource)),
    ("a2207540-1400-11d6-a3c7-0050bae0a776", Field(InformationRegisterAttribute)),
    ("b64d9a43-1642-11d6-a3c7-0050bae0a776", Field(AccumulationRegisterDimension)),
    ("b64d9a41-1642-11d6-a3c7-0050bae0a776", Field(AccumulationRegisterResource)),
    ("b64d9a42-1642-11d6-a3c7-0050bae0a776", Field(AccumulationRegisterAttribute)),
    ("35b63b9d-0adf-4625-a047-10ae874c19a3", Field(AccountingRegisterDimension)),
    ("63405499-7491-4ce3-ac72-43433cbe4112", Field(AccountingRegisterResource)),
    ("9d28ee33-9c7e-4a1b-8f13-50aa9b36607b", Field(AccountingRegisterAttribute))]

  /** The text is the identifier of a collection, in any case, and the purpose is that of the collection. */
  predicate Declares(text: string, purpose: Purpose) {
    exists k :: 0 <= k < |COLLECTIONS| && LowersTo(text, COLLECTIONS[k].0) && COLLECTIONS[k].1 == purpose
  }

  /** The letters that tell the collections apart. */
  predicate ToldApart(id: string, a: char, b: char, c: char) {
    |id| > 7 && id[0] == a && id[1] == b && id[7] == c
  }

  lemma IdentifiersDiffer()
    ensures ToldApart(COLLECTIONS[0].0, 'b', 'e', 'c') && ToldApart(COLLECTIONS[1].0, '1', '3', '3')
    ensures ToldApart(COLLECTIONS[2].0, '1', '3', '2') && ToldApart(COLLECTIONS[3].0, 'a', '2', '0')
    ensures ToldApart(COLLECTIONS[4].0, 'b', '6', '3') && ToldApart(COLLECTIONS[5].0, 'b', '6', '1')
    ensures ToldApart(COLLECTIONS[6].0, 'b', '6', '2') && ToldApart(COLLECTIONS[7].0, '3', '5', 'd')
    ensures ToldApart(COLLECTIONS[8].0, '6', '3', '9') && ToldApart(COLLECTIONS[9].0, '9', 'd', '3')
  {
  }

  lemma CollectionIsFound(text: string, k: nat)
    requires k < 10 && AsciiLowerAll(text) == COLLECTIONS[k].0
    ensures FromCollection(text) == Some(COLLECTIONS[k].1)
  {
    IdentifiersDiffer();
  }

  lemma FoundIsCollection(text: string) returns (k: nat)
    requires FromCollection(text).Some?
    ensures k < 10 && AsciiLowerAll(text) == COLLECTIONS[k].0 && COLLECTIONS[k].1 == FromCollection(text).value
  {
    var id := AsciiLowerAll(text);
    k := if id == COLLECTIONS[0].0 then 0 else if id == COLLECTIONS[1].0 then 1
         else if id == COLLECTIONS[2].0 then 2 else if id == COLLECTIONS[3].0 then 3
         else if id == COLLECTIONS[4].0 then 4 else if id == COLLECTIONS[5].0 then 5
         else if id == COLLECTIONS[6].0 then 6 else if id == COLLECTIONS[7].0 then 7
         else if id == COLLECTIONS[8].0 then 8 else 9;
  }

  /** A text declares a purpose exactly when it is the identifier of that purpose's collection. */
  lemma CollectionExactly(text: string, purpose: Purpose)
    ensures FromCollection(text) == Some(purpose) <==> Declares(text, purpose)
  {
    hide FromCollection, COLLECTIONS;
    TenCollections();
    if FromCollection(text) == Some(purpose) {
      var k := FoundIsCollection(text);
      AsciiLowerExactly(text, COLLECTIONS[k].0);
    }
    if Declares(text, purpose) {
      var k :| 0 <= k < |COLLECTIONS| && LowersTo(text, COLLECTIONS[k].0) && COLLECTIONS[k].1 == purpose;
      AsciiLowerExactly(text, COLLECTIONS[k].0);
      CollectionIsFound(text, k);
    }
  }

  lemma TenCollections()
    ensures |COLLECTIONS| == 10
  {
  }

  /** A list declares the purpose its first value declares, or else its second one. */
  lemma DeclaredExactly(values: seq<Value>, purpose: Purpose)
    ensures Declared(values) == Some(purpose) <==>
            || (|values| > 0 && SaysPurpose(values[0], purpose))
            || (|values| > 1 && (forall other :: !SaysPurpose(values[0], other)) && SaysPurpose(values[1], purpose))
  {
    hide FromCollection, Declares;
    if |values| > 0 {
      PurposeExactly(values[0], purpose);
      if DeclaredBy(values[0]).Some? {
        PurposeExactly(values[0], DeclaredBy(values[0]).value);
      } else {
        forall other
          ensures !SaysPurpose(values[0], other)
        {
          PurposeExactly(values[0], other);
        }
      }
    }
    if |values| > 1 {
      PurposeExactly(values[1], purpose);
    }
  }

  predicate SaysPurpose(v: Value, purpose: Purpose) {
    (v.Str? || v.Atom?) && Declares(v.text, purpose)
  }

  lemma PurposeExactly(v: Value, purpose: Purpose)
    ensures DeclaredBy(v) == Some(purpose) <==> SaysPurpose(v, purpose)
  {
    hide FromCollection, Declares;
    if v.Str? || v.Atom? {
      CollectionExactly(v.text, purpose);
    }
  }

  // ---- from the text of a resource ----

  /** The first descriptor of a list is that of the first window that holds one. */
  lemma {:induction false} FirstDescribed(values: seq<Value>, n: nat, i: nat, purpose: Option<Purpose>)
    requires i < n && n + 2 <= |values| && DescriptorAt(values, i, purpose).Some? && !Obscured(values, i)
    requires forall j :: 0 <= j < i ==> DescriptorAt(values, j, purpose).None?
    ensures ClearDescriptors(values, n, purpose) != []
    ensures ClearDescriptors(values, n, purpose)[0] == DescriptorAt(values, i, purpose).value
    decreases n
  {
    hide DescriptorAt, Obscured;
    if i < n - 1 {
      FirstDescribed(values, n - 1, i, purpose);
    } else {
      NoneDescribed(values, i, purpose);
    }
  }

  lemma {:induction false} NoneDescribed(values: seq<Value>, n: nat, purpose: Option<Purpose>)
    requires n + 2 <= |values| && forall j :: 0 <= j < n ==> DescriptorAt(values, j, purpose).None?
    ensures ClearDescriptors(values, n, purpose) == []
    decreases n
  {
    hide DescriptorAt, Obscured;
    if n > 0 {
      NoneDescribed(values, n - 1, purpose);
    }
  }

  /** What the first descriptor of a resource says. */
  predicate Says(r: Result<seq<Descriptor>, ParseError>, guid: string, marker: string, name: string, comment: string) {
    && r.Ok? && r.value != [] && LowersTo(guid, r.value[0].guid) && r.value[0].marker == marker
    && r.value[0].name == name && r.value[0].comment == if comment == "" then None else Some(comment)
  }

  /** A self-reference, a name, any value and a comment. */
  function Described(
      marker: string, guid: string, name: string, between: Value, comment: string): (values: seq<Value>)
  {
    [List([Atom(marker), Atom("0"), Atom(guid)]), Str(name), between, Str(comment)]
  }

  lemma DescribedAt(
      front: seq<Value>, marker: string, guid: string, name: string, between: Value, comment: string, rest: seq<Value>,
      purpose: Option<Purpose>)
    requires IsIdentifier(guid)
    ensures var values := front + Described(marker, guid, name, between, comment) + rest;
            var d := DescriptorAt(values, |front|, purpose);
            && d.Some? && !Obscured(values, |front|) && LowersTo(guid, d.value.guid) && d.value.marker == marker
            && d.value.name == name && d.value.comment == (if comment == "" then None else Some(comment))
            && Serves(d.value, purpose)
  {
    hide DescriptorAt, IsIdentifier, LowersTo;
    var values := front + Described(marker, guid, name, between, comment) + rest;
    var i := |front|;
    var note := if comment == "" then None else Some(comment);
    var lowered := AsciiLowerAll(guid);
    AsciiLowerExactly(guid, lowered);
    var d := Descriptor(lowered, marker, name, note,
                        if purpose.Some? && purpose.value.Field? then Some(purpose.value.field) else None,
                        purpose == Some(EnumerationValue));
    assert values[i] == List([Atom(marker), Atom("0"), Atom(guid)]) && values[i + 1] == Str(name);
    assert values[i + 3] == Str(comment);
    DescriptorExactly(values, i, purpose, d);
  }

  predicate AllPrintable(values: seq<Value>) {
    forall i :: 0 <= i < |values| ==> Printable(values[i], 1)
  }

  lemma DescribedPrints(marker: string, guid: string, name: string, between: Value, comment: string)
    requires IsIdentifier(guid) && PlainAtom(marker) && Printable(between, 1)
    ensures AllPrintable(Described(marker, guid, name, between, comment))
  {
    hide IsIdentifier, PlainAtom;
    IdentifierIsPlain(guid);
    NumberIsPlain("0");
    var reference := [Atom(marker), Atom("0"), Atom(guid)];
    assert forall i :: 0 <= i < 3 ==> Printable(reference[i], 2);
    assert Printable(List(reference), 1);
  }

  /** The text of a resource that begins with a described object gives that description first. */
  method DescriptorOfText(
      marker: string, guid: string, name: string, between: Value, comment: string, rest: seq<Value>)
    returns (r: Result<seq<Descriptor>, ParseError>)
    requires IsIdentifier(guid) && PlainAtom(marker) && Printable(between, 1) && AllPrintable(rest)
    ensures Says(r, guid, marker, name, comment)
  {
    hide IsIdentifier, PlainAtom, LowersTo, ParseSerialized, Print, DescriptorAt, Obscured, ClearDescriptors, Declared;
    hide CollectAllClear;
    var values := Described(marker, guid, name, between, comment) + rest;
    DescribedPrints(marker, guid, name, between, comment);
    assert values[0] != Null;
    PrintThenParse(List(values));
    ghost var purpose := Declared(values);
    DescribedAt([], marker, guid, name, between, comment, rest, purpose);
    assert [] + Described(marker, guid, name, between, comment) + rest == values;
    FirstDescribed(values, WindowCount(values), 0, purpose);
    r := ParseConfig(Print(List(values)));
  }

  /** A collection's identifier at the head of a list gives the descriptors of the list its purpose. */
  method PurposeOfText(
      id: string, purpose: Purpose, other: Value, marker: string, guid: string, name: string, between: Value,
      comment: string, rest: seq<Value>)
    returns (r: Result<seq<Descriptor>, ParseError>)
    requires Declares(id, purpose) && PlainAtom(id) && Printable(other, 1)
    requires IsIdentifier(guid) && PlainAtom(marker) && Printable(between, 1) && AllPrintable(rest)
    ensures Says(r, guid, marker, name, comment) && Serves(r.value[0], Some(purpose))
  {
    hide IsIdentifier, PlainAtom, LowersTo, ParseSerialized, Print, DescriptorAt, Obscured, ClearDescriptors, Declared;
    hide CollectAllClear, Declares, Serves;
    var front := [Atom(id), other];
    var values := front + Described(marker, guid, name, between, comment) + rest;
    DescribedPrints(marker, guid, name, between, comment);
    assert values[0] != Null;
    PrintThenParse(List(values));
    DeclaredExactly(values, purpose);
    DescribedAt(front, marker, guid, name, between, comment, rest, Some(purpose));
    NothingBefore(values, Some(purpose));
    FirstDescribed(values, WindowCount(values), 2, Some(purpose));
    r := ParseConfig(Print(List(values)));
  }

  lemma NothingBefore(values: seq<Value>, purpose: Option<Purpose>)
    requires |values| > 4 && values[0].Atom? && values[2].List?
    ensures forall j :: 0 <= j < 2 ==> DescriptorAt(values, j, purpose).None?
  {
    assert values[2].AsString() == None;
  }

  /** The descriptors of any text are those of the value it writes, but for the obscured ones. */
  method DescriptorsOfForm(text: string, ghost front: string, ghost form: Form, ghost back: string)
    returns (r: Result<seq<Descriptor>, ParseError>)
    requires Lays(text, front, form, back)
    ensures r == Ok(CollectClear(Meaning(form), None))
    ensures Plain(Meaning(form)) ==> r == Ok(Collect(Meaning(form), None))
  {
    hide ParseSerialized, Collect, CollectClear, Plain, Meaning, Lays;
    FormIsRead(text, front, form, back);
    r := ParseConfig(text);
  }
}
