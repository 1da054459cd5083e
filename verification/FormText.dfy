/**
 * The old metadata forms written out, value by value: which lists are an identity, an
 * attribute row, a section row or the class list of a processor, and what a row then says.
 */
module FormText {
  import opened Outcomes
  import opened Scalars
  import opened ScalarText
  import opened StagedDescriptors
  import opened StagedSections
  import opened ValueTree

  // ---- identifiers and flags ----

  /** An atom that holds an identifier, in any case. */
  predicate HoldsIdentifier(v: Value) {
    v.Atom? && IsIdentifier(v.text)
  }

  lemma GuidOfExactly(v: Value, guid: Guid)
    ensures GuidOf(v) == Some(guid) <==> HoldsIdentifier(v) && LowersTo(v.text, guid)
  {
    hide ParseGuid, IsIdentifier, LowersTo;
    if v.Atom? {
      GuidExactly(v.text, guid);
    }
  }

  lemma IsGuidExactly(v: Value)
    ensures GuidOf(v).Some? <==> HoldsIdentifier(v)
  {
    hide ParseGuid, IsIdentifier;
    if v.Atom? {
      GuidExactly(v.text, AsciiLowerAll(v.text));
      AsciiLowerExactly(v.text, AsciiLowerAll(v.text));
      if ParseGuid(v.text).Some? {
        GuidExactly(v.text, ParseGuid(v.text).value);
      }
    }
  }

  lemma FlagExactly(v: Value, b: bool)
    ensures Flag(v) == Some(b) <==> v == Atom(if b then "1" else "0")
  {
  }

  /** The type of the object: an identifier in lower case, unless it is all zeros. */
  lemma ObjectTypeExactly(v: Value, guid: Guid)
    ensures NotNil(GuidOf(v)) == Some(guid) <==>
            HoldsIdentifier(v) && LowersTo(v.text, guid) && guid != "00000000-0000-0000-0000-000000000000"
  {
    hide GuidOf, IsIdentifier, LowersTo;
    GuidOfExactly(v, guid);
  }

  // ---- identities ----

  function WrittenIdentity(guid: string, name: string, synonym: string): (v: Value) {
    List([Atom("1"), List([Atom("0"), Atom("0"), Atom(guid)]), Str(name),
          List([Atom("1"), Str("ru"), Str(synonym)]), Str(""), Atom("0"), Atom("0")])
  }

  /** The value is an identity with a name, a synonym and a lower-case identifier that is not all zeros. */
  predicate Identifies(v: Value, guid: string, name: string, synonym: string, id: Guid) {
    && v == WrittenIdentity(guid, name, synonym) && name != "" && synonym != ""
    && IsIdentifier(guid) && LowersTo(guid, id) && id != "00000000-0000-0000-0000-000000000000"
  }

  ghost predicate HasIdentity(v: Value, id: Guid) {
    exists guid, name, synonym :: Identifies(v, guid, name, synonym, id)
  }

  lemma IdentityExactly(v: Value, id: Guid)
    ensures Identity(v) == Some(id) <==> HasIdentity(v, id)
  {
    hide GuidOf, IsIdentifier, LowersTo;
    if Identity(v) == Some(id) {
      IdentityIsWritten(v, id);
    }
    if HasIdentity(v, id) {
      var guid, name, synonym :| Identifies(v, guid, name, synonym, id);
      GuidOfExactly(Atom(guid), id);
    }
  }

  lemma IdentityIsWritten(v: Value, id: Guid)
    requires Identity(v) == Some(id)
    ensures HasIdentity(v, id)
  {
    hide GuidOf, IsIdentifier, LowersTo;
    var i := v.items;
    var reference, synonyms := i[1].items, i[3].items;
    GuidOfExactly(reference[2], id);
    assert i[1] == List([Atom("0"), Atom("0"), Atom(reference[2].text)]);
    assert i[3] == List([Atom("1"), Str("ru"), Str(synonyms[2].text)]);
    assert v == WrittenIdentity(reference[2].text, i[2].text, synonyms[2].text);
    assert Identifies(v, reference[2].text, i[2].text, synonyms[2].text, id);
  }

  // ---- attribute rows ----

  /** The body of an attribute: the form 27, the identity and the types, and 21 values behind them. */
  function WrittenBody(identity: Value, types: Value, rest: seq<Value>): (v: Value) {
    List([Atom("27"), List([Atom("2"), identity, types])] + rest)
  }

  ghost predicate SaysAttribute<D, F>(
      v: Value, identity: Value, types: Value, rest: seq<Value>, readers: Readers<D, F>, p: Parsed<D>)
  {
    && v == WrittenBody(identity, types, rest) && |rest| == 21
    && HasIdentity(identity, p.id) && readers.declaration(types) == Some(p.content.types) && p.content.body == v.items
  }

  ghost predicate IsAttribute<D, F>(v: Value, readers: Readers<D, F>, p: Parsed<D>) {
    exists identity, types, rest :: SaysAttribute(v, identity, types, rest, readers, p)
  }

  lemma AttributeExactly<D, F>(v: Value, readers: Readers<D, F>, p: Parsed<D>)
    ensures AttributeBody(v, readers) == Some(p) <==> IsAttribute(v, readers, p)
  {
    hide Identity, HasIdentity;
    if AttributeBody(v, readers) == Some(p) {
      var typed := v.items[1].items;
      IdentityExactly(typed[1], p.id);
      assert v.items[1] == List([Atom("2"), typed[1], typed[2]]);
      assert v == WrittenBody(typed[1], typed[2], v.items[2..]);
      assert SaysAttribute(v, typed[1], typed[2], v.items[2..], readers, p);
    }
    if IsAttribute(v, readers, p) {
      var identity, types, rest :| SaysAttribute(v, identity, types, rest, readers, p);
      IdentityExactly(identity, p.id);
    }
  }

  /** The row of a processor around an attribute, which must have a type. */
  lemma ProcessorRowExactly<D, F>(v: Value, readers: Readers<D, F>, p: Parsed<D>)
    ensures ProcessorRow(v, readers) == Some(p) <==>
            && p.content.types != []
            && exists body :: v == List([List([Atom("0"), body]), Atom("0")]) && IsAttribute(body, readers, p)
  {
    hide AttributeBody, IsAttribute;
    if ProcessorRow(v, readers) == Some(p) {
      var body := v.items[0].items[1];
      assert v.items[0] == List([Atom("0"), body]);
      AttributeExactly(body, readers, p);
    }
    if exists body :: v == List([List([Atom("0"), body]), Atom("0")]) && IsAttribute(body, readers, p) {
      var body :| v == List([List([Atom("0"), body]), Atom("0")]) && IsAttribute(body, readers, p);
      AttributeExactly(body, readers, p);
    }
  }

  /** The row of a characteristic around an attribute, which may have no type. */
  lemma CharacteristicRowExactly<D, F>(v: Value, readers: Readers<D, F>, p: Parsed<D>)
    ensures CharacteristicRow(v, readers) == Some(p) <==>
            exists body ::
              && v == List([List([Atom("1"), body, Atom("0"), Atom("0"), Atom("1")]), Atom("0")])
              && IsAttribute(body, readers, p)
  {
    hide AttributeBody, IsAttribute;
    if CharacteristicRow(v, readers) == Some(p) {
      var body := v.items[0].items[1];
      assert v.items[0] == List([Atom("1"), body, Atom("0"), Atom("0"), Atom("1")]);
      AttributeExactly(body, readers, p);
    }
    if exists body :: v == List([List([Atom("1"), body, Atom("0"), Atom("0"), Atom("1")]), Atom("0")])
                      && IsAttribute(body, readers, p)
    {
      var body :| v == List([List([Atom("1"), body, Atom("0"), Atom("0"), Atom("1")]), Atom("0")])
                  && IsAttribute(body, readers, p);
      AttributeExactly(body, readers, p);
    }
  }

  /**
   * What a row leaves: the declared types, from the 18th value behind them the filling value, and
   * from the 19th whether it fills, which only the atoms 0 and 1 say. The rest is as it was.
   */
  lemma WrittenExactly<D, F>(
      d: Descriptor<D, F>, identity: Value, types: Value, rest: seq<Value>, readers: Readers<D, F>, p: Parsed<D>)
    requires |rest| == 21 && p.content.body == WrittenBody(identity, types, rest).items
    ensures var w := Written(d, p, readers);
            && w.declaredTypes == Some(p.content.types) && w.fillingValue == readers.filling(rest[17])
            && (w.fillFromFillingValue == Some(true) <==> rest[18] == Atom("1"))
            && (w.fillFromFillingValue == Some(false) <==> rest[18] == Atom("0"))
            && OnlyDeclarations(d, w)
  {
    assert p.content.body[19] == rest[17] && p.content.body[20] == rest[18];
    FlagExactly(rest[18], true);
    FlagExactly(rest[18], false);
  }

  // ---- section rows ----

  function WrittenSection(guids: seq<Value>, identity: Value, behind: seq<Value>, fields: Value): (v: Value) {
    List([List([Atom("0"), List([Atom("11")] + guids + [List([Atom("0"), identity])] + behind)]), Atom("1"), fields])
  }

  ghost predicate SaysSection(
      v: Value, guids: seq<Value>, identity: Value, behind: seq<Value>, fields: Value, section: Section)
  {
    && v == WrittenSection(guids, identity, behind, fields) && |guids| == 4 && |behind| == 3
    && (forall i :: 0 <= i < 4 ==> HoldsIdentifier(guids[i]))
    && HasIdentity(identity, section.id) && section.content == v.items
  }

  ghost predicate IsSection(v: Value, section: Section) {
    exists guids, identity, behind, fields :: SaysSection(v, guids, identity, behind, fields, section)
  }

  /** The row of a section: the form 11, four identifiers, the identity, three values, and the fields. */
  lemma SectionExactly(v: Value, section: Section)
    ensures SectionRow(v) == Some(section) <==> IsSection(v, section)
  {
    hide Identity, HasIdentity, GuidOf, HoldsIdentifier;
    if SectionRow(v) == Some(section) {
      SectionIsWritten(v, section);
    }
    if IsSection(v, section) {
      var guids, identity, behind, fields :| SaysSection(v, guids, identity, behind, fields, section);
      WrittenIsSection(v, guids, identity, behind, fields, section);
    }
  }

  lemma SectionIsWritten(v: Value, section: Section)
    requires SectionRow(v) == Some(section)
    ensures IsSection(v, section)
  {
    hide Identity, HasIdentity, GuidOf, HoldsIdentifier;
    var body := v.items[0].items[1].items;
    var identity := body[5].items[1];
    IdentityExactly(identity, section.id);
    forall k | 1 <= k < 5
      ensures HoldsIdentifier(body[k])
    {
      IsGuidExactly(body[k]);
    }
    assert body[5] == List([Atom("0"), identity]);
    assert body == [Atom("11")] + body[1..5] + [body[5]] + body[6..];
    assert v.items[0] == List([Atom("0"), List(body)]);
    assert v.items == [v.items[0], Atom("1"), v.items[2]];
    assert SaysSection(v, body[1..5], identity, body[6..], v.items[2], section);
  }

  lemma WrittenIsSection(
      v: Value, guids: seq<Value>, identity: Value, behind: seq<Value>, fields: Value, section: Section)
    requires SaysSection(v, guids, identity, behind, fields, section)
    ensures SectionRow(v) == Some(section)
  {
    hide Identity, HasIdentity, GuidOf, HoldsIdentifier;
    var body := v.items[0].items[1].items;
    assert body == [Atom("11")] + guids + [List([Atom("0"), identity])] + behind;
    IdentityExactly(identity, section.id);
    forall k | 1 <= k < 5
      ensures GuidOf(body[k]).Some?
    {
      assert body[k] == guids[k - 1];
      IsGuidExactly(body[k]);
    }
  }

  // ---- the class list ----

  /** The class list of a processor: the form 16, the identity in the fourth place, and six identifiers. */
  ghost predicate IsProcessor(class_: seq<Value>, resource: Guid) {
    && |class_| == 12 && class_[0] == Atom("16")
    && HoldsIdentifier(class_[1]) && HoldsIdentifier(class_[2]) && HoldsIdentifier(class_[4])
    && HoldsIdentifier(class_[7]) && HoldsIdentifier(class_[8]) && HoldsIdentifier(class_[9])
    && exists identity :: class_[3] == List([Atom("0"), identity]) && HasIdentity(identity, resource)
  }

  lemma ProcessorExactly(value: Value, resource: Guid)
    ensures DescribesProcessor(value, resource) <==>
            value.List? && |value.items| > 1 && value.items[1].List? && IsProcessor(value.items[1].items, resource)
  {
    hide Identity, HasIdentity, GuidOf, HoldsIdentifier;
    if value.List? && |value.items| > 1 && value.items[1].List? && |value.items[1].items| == 12 {
      ClassExactly(value, resource);
    }
  }

  lemma ClassExactly(value: Value, resource: Guid)
    requires value.List? && |value.items| > 1 && value.items[1].List? && |value.items[1].items| == 12
    ensures DescribesProcessor(value, resource) <==> IsProcessor(value.items[1].items, resource)
  {
    hide Identity, HasIdentity, GuidOf, HoldsIdentifier;
    var class_ := value.items[1].items;
    SixIdentifiers(class_);
    if IsList(class_[3], 2) && AtomIs(class_[3].items[0], "0") {
      var identity := class_[3].items[1];
      assert class_[3] == List([Atom("0"), identity]);
      IdentityExactly(identity, resource);
    }
  }

  lemma SixIdentifiers(class_: seq<Value>)
    requires |class_| == 12
    ensures (forall i :: i in [1, 2, 4, 7, 8, 9] ==> GuidOf(class_[i]).Some?) <==>
            && HoldsIdentifier(class_[1]) && HoldsIdentifier(class_[2]) && HoldsIdentifier(class_[4])
            && HoldsIdentifier(class_[7]) && HoldsIdentifier(class_[8]) && HoldsIdentifier(class_[9])
  {
    hide GuidOf, HoldsIdentifier;
    var places := [1, 2, 4, 7, 8, 9];
    forall i | i in places
      ensures GuidOf(class_[i]).Some? <==> HoldsIdentifier(class_[i])
    {
      IsGuidExactly(class_[i]);
    }
    assert places[0] in places && places[1] in places && places[2] in places;
    assert places[3] in places && places[4] in places && places[5] in places;
  }

  // ---- collections ----

  /** A list headed by an identifier. */
  predicate HeadedBy(v: Value, id: string) {
    v.List? && v.items != [] && v.items[0] == Atom(id)
  }

  /** The only list headed by the identifier stands at a place: the count of the rows and the rows. */
  ghost predicate HoldsRows(root: seq<Value>, id: string, k: nat, rows: seq<Value>) {
    && k < |root| && (forall i :: 0 <= i < |root| ==> (HeadedBy(root[i], id) <==> i == k))
    && exists count :: root[k] == List([Atom(id), Atom(count)] + rows) && Says(count, |rows|)
  }

  lemma CollectionExactly(root: seq<Value>, id: string, rows: seq<Value>)
    ensures Collection(root, id) == Some(rows) <==> exists k: nat :: HoldsRows(root, id, k, rows)
  {
    hide Says, ParseU32;
    if Collection(root, id) == Some(rows) {
      var k := OnlyHeaded(root, id);
      CountedExactly(root[k].items, id, rows);
      assert HoldsRows(root, id, k, rows);
    }
    if exists k: nat :: HoldsRows(root, id, k, rows) {
      var k: nat :| HoldsRows(root, id, k, rows);
      OneHeaded(root, id, k);
      CountedExactly(root[k].items, id, rows);
    }
  }

  lemma CountedExactly(items: seq<Value>, id: string, rows: seq<Value>)
    requires items != [] && items[0] == Atom(id)
    ensures Counts(items) && items[2..] == rows <==>
            exists count :: List(items) == List([Atom(id), Atom(count)] + rows) && Says(count, |rows|)
  {
    hide Says, ParseU32;
    if |items| >= 2 && items[1].Atom? {
      NumberExactly(items[1].text, |items| - 2);
      assert items == [Atom(id), Atom(items[1].text)] + items[2..];
    }
  }

  lemma {:induction false} OneHeaded(root: seq<Value>, id: string, k: nat)
    requires k < |root| && forall i :: 0 <= i < |root| ==> (HeadedBy(root[i], id) <==> i == k)
    ensures root[k].List? && Headed(root, id) == [root[k].items]
    decreases |root|
  {
    var rest := root[1..];
    assert HeadedBy(root[0], id) <==> 0 == k;
    if k == 0 {
      forall i | 0 <= i < |rest|
        ensures !HeadedBy(rest[i], id)
      {
        assert rest[i] == root[i + 1];
      }
      NoneHeaded(rest, id);
    } else {
      forall i | 0 <= i < |rest|
        ensures HeadedBy(rest[i], id) <==> i == k - 1
      {
        assert rest[i] == root[i + 1];
      }
      OneHeaded(rest, id, k - 1);
    }
  }

  lemma {:induction false} NoneHeaded(root: seq<Value>, id: string)
    ensures Headed(root, id) == [] <==> forall i :: 0 <= i < |root| ==> !HeadedBy(root[i], id)
    decreases |root|
  {
    if root != [] {
      NoneHeaded(root[1..], id);
      assert forall i :: 1 <= i < |root| ==> root[i] == root[1..][i - 1];
    }
  }

  lemma {:induction false} OnlyHeaded(root: seq<Value>, id: string) returns (k: nat)
    requires |Headed(root, id)| == 1
    ensures k < |root| && root[k].List? && Headed(root, id) == [root[k].items]
    ensures forall i :: 0 <= i < |root| ==> (HeadedBy(root[i], id) <==> i == k)
    decreases |root|
  {
    if HeadedBy(root[0], id) {
      k := 0;
      NoneHeaded(root[1..], id);
      assert forall i :: 1 <= i < |root| ==> root[i] == root[1..][i - 1];
    } else {
      var j := OnlyHeaded(root[1..], id);
      k := j + 1;
      assert forall i :: 1 <= i < |root| ==> root[i] == root[1..][i - 1];
    }
  }

  /** The attributes of a section are the rows of its own collection. */
  lemma SectionRowsExactly(section: Section, rows: seq<Value>)
    ensures SectionRows(section) == Some(rows)
       <==> exists k: nat :: HoldsRows(section.content, "5d24a9d1-098e-11d6-b9b8-0050bae0a95d", k, rows)
  {
    CollectionExactly(section.content, "5d24a9d1-098e-11d6-b9b8-0050bae0a95d", rows);
  }
}
