/**
 * The tabular sections of an old data processor: checked whole, and then written one
 * by one together with their own attributes.
 */
module StagedSections {
  import opened Outcomes
  import opened ValueTree
  import opened Scalars
  import opened StagedDescriptors

  const SECTION_FIELDS := "5d24a9d1-098e-11d6-b9b8-0050bae0a95d"

  /** A checked section row says the whole row, where its collection of attributes stands. */
  type Section = Checked<seq<Value>>

  function SectionRow(v: Value): (r: Option<Section>)
  {
    if !(IsList(v, 3) && AtomIs(v.items[1], "1") && IsList(v.items[0], 2) && AtomIs(v.items[0].items[0], "0")
         && IsList(v.items[0].items[1], 9))
    then None
    else
      var body := v.items[0].items[1].items;
      if !(AtomIs(body[0], "11") && (forall k :: 1 <= k < 5 ==> GuidOf(body[k]).Some?)
           && IsList(body[5], 2) && AtomIs(body[5].items[0], "0"))
      then None
      else
        var id := Identity(body[5].items[1]);
        if id.Some? then Some(Checked(id.value, v.items)) else None
  }

  // ---- what sections leave ----

  /** The attributes of a section row. */
  function SectionRows(section: Section): (rows: Option<seq<Value>>) {
    Collection(section.content, SECTION_FIELDS)
  }

  /** The list of fields a section gets by itself. */
  ghost function FieldsOf<D(!new), F>(
      ds: seq<Descriptor<D, F>>, section: Section, read: RowReader<Declaration<D>>, readers: Readers<D, F>)
    : (fields: Option<seq<Guid>>)
    requires ReadsBodies(read)
  {
    Attributes(ds, SectionRows(section), read, readers).0
  }

  function SetFields<D, F>(
      ds: seq<Descriptor<D, F>>, id: Guid, fields: Option<seq<Guid>>): (after: seq<Descriptor<D, F>>)
    ensures |after| == |ds| && Guids(after) == Guids(ds)
    ensures forall k :: 0 <= k < |ds| ==>
              after[k] == if ds[k].objectGuid == id then ds[k].(sectionAttributes := fields) else ds[k]
  {
    seq(|ds|, k requires 0 <= k < |ds| => if ds[k].objectGuid == id then ds[k].(sectionAttributes := fields) else ds[k])
  }

  /** The descriptors after one section: its declarations, then the list of its fields. */
  ghost function CommitSection<D(!new), F>(
      ds: seq<Descriptor<D, F>>, section: Section, read: RowReader<Declaration<D>>, readers: Readers<D, F>)
    : (after: seq<Descriptor<D, F>>)
    requires ReadsBodies(read)
    ensures Guids(after) == Guids(ds) && |after| == |ds|
  {
    var (fields, written) := Attributes(ds, SectionRows(section), read, readers);
    assert |Guids(written)| == |written|;
    SetFields(written, section.id, fields)
  }

  /** The descriptors after the first `n` sections. */
  ghost function CommitSections<D(!new), F>(
      ds: seq<Descriptor<D, F>>, sections: seq<Section>, n: nat, read: RowReader<Declaration<D>>,
      readers: Readers<D, F>)
    : (after: seq<Descriptor<D, F>>)
    requires ReadsBodies(read) && n <= |sections|
    ensures Guids(after) == Guids(ds) && |after| == |ds|
  {
    if n == 0 then ds
    else CommitSection(CommitSections(ds, sections, n - 1, read, readers), sections[n - 1], read, readers)
  }

  ghost function Sections<D(!new), F>(
      ds: seq<Descriptor<D, F>>, rows: Option<seq<Value>>, read: RowReader<Declaration<D>>, readers: Readers<D, F>)
    : (r: (Option<seq<Guid>>, seq<Descriptor<D, F>>))
    requires ReadsBodies(read)
    ensures Guids(r.1) == Guids(ds)
  {
    if rows.None? then (None, ds)
    else
      var sections := Staged(rows.value, |rows.value|, SectionRow, Guids(ds));
      if sections.None? then (None, ds)
      else (Some(Ids(sections.value)), CommitSections(ds, sections.value, |sections.value|, read, readers))
  }

  // ---- what one section does to one descriptor ----

  /** What a collection of attributes gives depends on the identifiers of the descriptors alone. */
  lemma AttributesByGuids<D(!new), F>(
      a: seq<Descriptor<D, F>>, b: seq<Descriptor<D, F>>, rows: Option<seq<Value>>, read: RowReader<Declaration<D>>,
      readers: Readers<D, F>)
    requires ReadsBodies(read) && Guids(a) == Guids(b)
    ensures Attributes(a, rows, read, readers).0 == Attributes(b, rows, read, readers).0
  {
    hide Staged, Commit;
  }

  /** A section names a descriptor among its fields, by the row at an index. */
  ghost predicate Declares<D(!new), F>(
      ds: seq<Descriptor<D, F>>, section: Section, read: RowReader<Declaration<D>>, readers: Readers<D, F>, id: Guid,
      i: nat)
    requires ReadsBodies(read)
  {
    var fields, rows := FieldsOf(ds, section, read, readers), SectionRows(section);
    && fields.Some? && rows.Some? && i < |fields.value| == |rows.value|
    && fields.value[i] == id && read(rows.value[i]).Some?
  }

  ghost predicate DeclaresAny<D(!new), F>(
      ds: seq<Descriptor<D, F>>, section: Section, read: RowReader<Declaration<D>>, readers: Readers<D, F>, id: Guid)
    requires ReadsBodies(read)
  {
    exists i: nat :: Declares(ds, section, read, readers, id, i)
  }

  /** The declarations of a descriptor are those a row of the section gives. */
  ghost predicate DeclaredBy<D(!new), F>(
      w: Descriptor<D, F>, section: Section, read: RowReader<Declaration<D>>, readers: Readers<D, F>, i: nat)
    requires ReadsBodies(read)
  {
    var rows := SectionRows(section);
    && rows.Some? && i < |rows.value| && read(rows.value[i]).Some?
    && w == Written(w, read(rows.value[i]).value, readers)
  }

  ghost predicate SameDeclarations<D, F>(a: Descriptor<D, F>, b: Descriptor<D, F>) {
    && a.declaredTypes == b.declaredTypes && a.fillFromFillingValue == b.fillFromFillingValue
    && a.fillingValue == b.fillingValue
  }

  /** The attributes of one section write the descriptors its rows name and nothing else. */
  lemma OneSection<D(!new), F>(
      ds: seq<Descriptor<D, F>>, section: Section, read: RowReader<Declaration<D>>, readers: Readers<D, F>, k: nat)
    requires ReadsBodies(read) && k < |ds|
    ensures |Attributes(ds, SectionRows(section), read, readers).1| == |ds|
    ensures var after := Attributes(ds, SectionRows(section), read, readers).1[k];
            && OnlyDeclarations(ds[k], after)
            && (!DeclaresAny(ds, section, read, readers, ds[k].objectGuid) ==> after == ds[k])
            && (forall i: nat :: Declares(ds, section, read, readers, ds[k].objectGuid, i) ==>
                  DeclaredBy(after, section, read, readers, i))
  {
    hide Attributes, ReadsBodies, Admissible, AllRead;
    var rows := SectionRows(section);
    if rows.None? {
      NoCollection(ds, read, readers);
    } else {
      AllOrNothing(ds, rows.value, read, readers);
      var (ids, after) := Attributes(ds, rows, read, readers);
      if ids.Some? && ds[k].objectGuid in ids.value {
        var i: nat :| i < |ids.value| && ids.value[i] == ds[k].objectGuid;
        assert Declares(ds, section, read, readers, ds[k].objectGuid, i);
      }
    }
  }

  lemma NoCollection<D(!new), F>(ds: seq<Descriptor<D, F>>, read: RowReader<Declaration<D>>, readers: Readers<D, F>)
    requires ReadsBodies(read)
    ensures Attributes(ds, None, read, readers) == (None, ds)
  {
  }

  // ---- all sections ----

  /** The section at j declares a descriptor by its row i, and no later one of the first n declares it. */
  ghost predicate LastToDeclare<D(!new), F>(
      ds: seq<Descriptor<D, F>>, sections: seq<Section>, n: nat, read: RowReader<Declaration<D>>,
      readers: Readers<D, F>,
      id: Guid, j: int, i: nat)
    requires ReadsBodies(read) && n <= |sections|
  {
    && 0 <= j < n && Declares(ds, sections[j], read, readers, id, i)
    && (forall later :: j < later < n ==> !DeclaresAny(ds, sections[later], read, readers, id))
  }

  /** What the first `n` sections leave of one descriptor. */
  ghost predicate SectionsLeave<D(!new), F>(
      ds: seq<Descriptor<D, F>>, w: Descriptor<D, F>, sections: seq<Section>, n: nat,
      read: RowReader<Declaration<D>>, readers: Readers<D, F>, k: nat)
    requires ReadsBodies(read) && k < |ds| && n <= |sections|
  {
    var id := ds[k].objectGuid;
    && OnlyDeclarations(ds[k].(sectionAttributes := w.sectionAttributes), w)
    && (forall i :: 0 <= i < n && sections[i].id == id ==>
          w.sectionAttributes == FieldsOf(ds, sections[i], read, readers))
    && ((forall i :: 0 <= i < n ==> sections[i].id != id) ==> w.sectionAttributes == ds[k].sectionAttributes)
    && ((forall i :: 0 <= i < n ==> !DeclaresAny(ds, sections[i], read, readers, id)) ==> SameDeclarations(w, ds[k]))
    && (forall j, i: nat :: LastToDeclare(ds, sections, n, read, readers, id, j, i) ==>
          DeclaredBy(w, sections[j], read, readers, i))
  }

  /** What a section declares depends on the identifiers of the descriptors alone. */
  lemma DeclaresByGuids<D(!new), F>(
      a: seq<Descriptor<D, F>>, b: seq<Descriptor<D, F>>, section: Section, read: RowReader<Declaration<D>>,
      readers: Readers<D, F>, id: Guid)
    requires ReadsBodies(read) && Guids(a) == Guids(b)
    ensures FieldsOf(a, section, read, readers) == FieldsOf(b, section, read, readers)
    ensures forall i: nat :: Declares(a, section, read, readers, id, i) == Declares(b, section, read, readers, id, i)
    ensures DeclaresAny(a, section, read, readers, id) == DeclaresAny(b, section, read, readers, id)
  {
    hide Attributes, ReadsBodies;
    AttributesByGuids(a, b, SectionRows(section), read, readers);
    forall i: nat
      ensures Declares(a, section, read, readers, id, i) == Declares(b, section, read, readers, id, i)
    {
    }
  }

  /**
   * Every section ends with the fields its collection gives by itself, and the last section to
   * declare a descriptor wins.
   */
  lemma {:induction false} EachSectionGetsItsFields<D(!new), F>(
      ds: seq<Descriptor<D, F>>, sections: seq<Section>, n: nat, read: RowReader<Declaration<D>>,
      readers: Readers<D, F>, k: nat)
    requires ReadsBodies(read) && n <= |sections| && k < |ds|
    requires forall i, j :: 0 <= i < j < |sections| ==> sections[i].id != sections[j].id
    ensures SectionsLeave(ds, CommitSections(ds, sections, n, read, readers)[k], sections, n, read, readers, k)
  {
    hide Attributes, ReadsBodies, FieldsOf, Declares, DeclaresAny, DeclaredBy, SectionsLeave;
    if n == 0 {
      NoSections(ds, sections, read, readers, k);
    } else {
      EachSectionGetsItsFields(ds, sections, n - 1, read, readers, k);
      var before, section := CommitSections(ds, sections, n - 1, read, readers), sections[n - 1];
      assert Guids(before)[k] == Guids(ds)[k];
      OneSection(before, section, read, readers, k);
      DeclaresByGuids(before, ds, section, read, readers, ds[k].objectGuid);
      var (fields, written) := Attributes(before, SectionRows(section), read, readers);
      FieldsAre(before, section, read, readers);
      var w := SetFields(written, section.id, fields)[k];
      OneMoreSection(ds, before[k], written[k], w, sections, n, read, readers, k, section, ds[k].objectGuid);
    }
  }

  lemma FieldsAre<D(!new), F>(
      ds: seq<Descriptor<D, F>>, section: Section, read: RowReader<Declaration<D>>, readers: Readers<D, F>)
    requires ReadsBodies(read)
    ensures FieldsOf(ds, section, read, readers) == Attributes(ds, SectionRows(section), read, readers).0
  {
  }

  lemma NoSections<D(!new), F>(
      ds: seq<Descriptor<D, F>>, sections: seq<Section>, read: RowReader<Declaration<D>>, readers: Readers<D, F>,
      k: nat)
    requires ReadsBodies(read) && k < |ds|
    ensures SectionsLeave(ds, ds[k], sections, 0, read, readers, k)
  {
    hide FieldsOf, DeclaresAny, Declares, DeclaredBy;
  }

  /** The step of one descriptor: the declarations of the section, then its list of fields. */
  lemma OneMoreSection<D(!new), F>(
      ds: seq<Descriptor<D, F>>, v: Descriptor<D, F>, u: Descriptor<D, F>, w: Descriptor<D, F>, sections: seq<Section>,
      n: nat,
      read: RowReader<Declaration<D>>, readers: Readers<D, F>, k: nat, last: Section, id: Guid)
    requires ReadsBodies(read) && 0 < n <= |sections| && k < |ds| && last == sections[n - 1] && id == ds[k].objectGuid
    requires forall i, j :: 0 <= i < j < |sections| ==> sections[i].id != sections[j].id
    requires SectionsLeave(ds, v, sections, n - 1, read, readers, k)
    requires OnlyDeclarations(v, u)
    requires !DeclaresAny(ds, last, read, readers, id) ==> u == v
    requires forall i: nat :: Declares(ds, last, read, readers, id, i) ==> DeclaredBy(u, last, read, readers, i)
    requires w == if u.objectGuid == last.id then u.(sectionAttributes := FieldsOf(ds, last, read, readers)) else u
    ensures SectionsLeave(ds, w, sections, n, read, readers, k)
  {
    hide FieldsOf, DeclaresAny, Declares;
    assert u.objectGuid == id && SameDeclarations(w, u);
    if forall i :: 0 <= i < n ==> !DeclaresAny(ds, sections[i], read, readers, id) {
      assert SameDeclarations(v, ds[k]);
    }
    forall j, i: nat | LastToDeclare(ds, sections, n, read, readers, id, j, i)
      ensures DeclaredBy(w, sections[j], read, readers, i)
    {
      if j < n - 1 {
        assert u == v && LastToDeclare(ds, sections, n - 1, read, readers, id, j, i);
        assert DeclaredBy(v, sections[j], read, readers, i);
      } else {
        assert DeclaredBy(u, last, read, readers, i);
      }
    }
  }

  // ---- all or nothing ----

  /**
   * What a sound list of section rows leaves: every section its own fields, and declarations by
   * the rows of sections alone.
   */
  ghost predicate SectionsLeft<D(!new), F>(
      before: seq<Descriptor<D, F>>, after: seq<Descriptor<D, F>>, rows: seq<Value>, sections: seq<Section>,
      read: RowReader<Declaration<D>>, readers: Readers<D, F>)
    requires ReadsBodies(read)
  {
    && |after| == |before| && Guids(after) == Guids(before)
    && AllRead(rows, SectionRow, Guids(before), sections)
    && (forall k :: 0 <= k < |before| ==> SectionsLeave(before, after[k], sections, |sections|, read, readers, k))
  }

  /** Sections are written whole when all their rows are sound, and otherwise not at all. */
  lemma SectionsAllOrNothing<D(!new), F>(
      ds: seq<Descriptor<D, F>>, rows: seq<Value>, read: RowReader<Declaration<D>>, readers: Readers<D, F>)
    requires ReadsBodies(read)
    ensures var (ids, after) := Sections(ds, Some(rows), read, readers);
            && (ids.Some? <==> exists sections :: AllRead(rows, SectionRow, Guids(ds), sections))
            && (ids.None? ==> after == ds)
            && (ids.Some? ==> exists sections ::
                  Ids(sections) == ids.value && SectionsLeft(ds, after, rows, sections, read, readers))
  {
    hide Staged, Attributes, ReadsBodies, NamesOne, CommitSections, SectionsLeave, SectionRow;
    assert rows[..|rows|] == rows;
    var staged := Staged(rows, |rows|, SectionRow, Guids(ds));
    if staged.Some? {
      var sections := staged.value;
      StagedExactly(rows, |rows|, SectionRow, Guids(ds), sections);
      DifferentSections(rows, Guids(ds), sections);
      var after := CommitSections(ds, sections, |sections|, read, readers);
      forall k | 0 <= k < |ds|
        ensures SectionsLeave(ds, after[k], sections, |sections|, read, readers, k)
      {
        EachSectionGetsItsFields(ds, sections, |sections|, read, readers, k);
      }
      assert SectionsLeft(ds, after, rows, sections, read, readers);
    } else if exists sections :: AllRead(rows, SectionRow, Guids(ds), sections) {
      var sections :| AllRead(rows, SectionRow, Guids(ds), sections);
      StagedExactly(rows, |rows|, SectionRow, Guids(ds), sections);
      assert false;
    }
  }

  lemma DifferentSections(rows: seq<Value>, guids: seq<Guid>, sections: seq<Section>)
    requires AllRead(rows, SectionRow, guids, sections)
    ensures forall i, j :: 0 <= i < j < |sections| ==> sections[i].id != sections[j].id
  {
    hide NamesOne;
    assert forall i, j :: 0 <= i < j < |sections| ==> Ids(sections)[i] != Ids(sections)[j];
  }

  // ---- the loops ----

  /** Reads the sections of a form: nothing is written unless every section row is sound. */
  method ReadSections<D(!new), F>(
      rows: Option<seq<Value>>, read: RowReader<Declaration<D>>, readers: Readers<D, F>, ds: array<Descriptor<D, F>>)
    returns (ids: Option<seq<Guid>>)
    requires ReadsBodies(read)
    modifies ds
    ensures (ids, ds[..]) == Sections(old(ds[..]), rows, read, readers)
  {
    hide Staged, ReadsBodies, NamesOne, CommitSection, SectionRow;
    if rows.None? {
      return None;
    }
    ghost var before := ds[..];
    var staged := Stage(rows.value, SectionRow, ds);
    if staged.None? {
      return None;
    }
    var sections := staged.value;
    StagedExactly(rows.value, |rows.value|, SectionRow, Guids(before), sections);
    for i := 0 to |sections|
      invariant ds[..] == CommitSections(before, sections, i, read, readers)
    {
      assert NamesOne(Guids(before), Ids(sections)[i]);
      WriteSection(sections[i], read, readers, ds);
    }
    return Some(Ids(sections));
  }

  /** Writes one checked section; its descriptor is there, and there is only one. */
  method WriteSection<D(!new), F>(
      section: Section, read: RowReader<Declaration<D>>, readers: Readers<D, F>, ds: array<Descriptor<D, F>>)
    requires ReadsBodies(read) && NamesOne(Guids(ds[..]), section.id)
    modifies ds
    ensures ds[..] == CommitSection(old(ds[..]), section, read, readers)
  {
    hide ReadsBodies, Attributes;
    var fields := ReadAttributes(SectionRows(section), read, readers, ds);
    ghost var written := ds[..];
    SetOne(written, section.id, fields);
    var k := FindNamed(ds, section.id);
    assert k.Some?;
    ds[k.value] := ds[k.value].(sectionAttributes := fields);
  }

  lemma SetOne<D, F>(ds: seq<Descriptor<D, F>>, id: Guid, fields: Option<seq<Guid>>)
    requires NamesOne(Guids(ds), id)
    ensures exists k :: 0 <= k < |ds| && ds[k].objectGuid == id
    ensures forall k :: 0 <= k < |ds| && ds[k].objectGuid == id ==>
              SetFields(ds, id, fields) == ds[k := ds[k].(sectionAttributes := fields)]
  {
    var k :| 0 <= k < |ds| && NamesOneAt(Guids(ds), id, k);
    assert ds[k].objectGuid == id;
    forall j | 0 <= j < |ds| && ds[j].objectGuid == id
      ensures SetFields(ds, id, fields) == ds[j := ds[j].(sectionAttributes := fields)]
    {
      assert Guids(ds)[j] == id;
    }
  }

  // ---- the whole form ----

  const PROCESSOR_ATTRIBUTES := "ec6bb5e5-b7a8-4d75-bec9-658107a699cf"
  const PROCESSOR_SECTIONS := "2bcef0d1-0981-11d6-b9b8-0050bae0a95d"

  /** The class list of an old data processor that describes the resource. */
  predicate DescribesProcessor(value: Value, resource: Guid) {
    && value.List? && |value.items| > 1 && IsList(value.items[1], 12)
    && var class_ := value.items[1].items;
       && AtomIs(class_[0], "16") && IsList(class_[3], 2) && AtomIs(class_[3].items[0], "0")
       && Identity(class_[3].items[1]) == Some(resource)
       && forall i :: i in [1, 2, 4, 7, 8, 9] ==> GuidOf(class_[i]).Some?
  }

  function NotNil(id: Option<Guid>): (r: Option<Guid>) {
    if id == Some(NIL) then None else id
  }

  /** The first descriptor of an identifier with its processor data; the others as they are. */
  function SetProcessor<D, F>(
      ds: seq<Descriptor<D, F>>, resource: Guid, fields: Option<seq<Guid>>, sections: Option<seq<Guid>>,
      objectType: Option<Guid>)
    : (after: seq<Descriptor<D, F>>)
    ensures |after| == |ds|
  {
    if ds == [] then []
    else if ds[0].objectGuid == resource then
      [ds[0].(processorAttributes := fields, processorSections := sections, objectType := objectType)] + ds[1..]
    else [ds[0]] + SetProcessor(ds[1..], resource, fields, sections, objectType)
  }

  /** What the form leaves of the descriptors. */
  ghost function Projected<D(!new), F>(
      ds: seq<Descriptor<D, F>>, value: Value, resource: Guid, readers: Readers<D, F>)
    : (after: seq<Descriptor<D, F>>)
  {
    if !DescribesProcessor(value, resource) then ds
    else
      FormsReadBodies(readers);
      var read, root := ProcessorReader(readers), value.items;
      var (fields, first) := Attributes(ds, Collection(root, PROCESSOR_ATTRIBUTES), read, readers);
      var (sections, second) := Sections(first, Collection(root, PROCESSOR_SECTIONS), read, readers);
      SetProcessor(second, resource, fields, sections, NotNil(GuidOf(root[1].items[1])))
  }

  lemma {:induction false} SetProcessorAt<D, F>(
      ds: seq<Descriptor<D, F>>, k: nat, resource: Guid, fields: Option<seq<Guid>>, sections: Option<seq<Guid>>,
      objectType: Option<Guid>)
    requires k < |ds| && ds[k].objectGuid == resource && (forall j :: 0 <= j < k ==> ds[j].objectGuid != resource)
    ensures SetProcessor(ds, resource, fields, sections, objectType)
         == ds[k := ds[k].(processorAttributes := fields, processorSections := sections, objectType := objectType)]
  {
    if k > 0 {
      SetProcessorAt(ds[1..], k - 1, resource, fields, sections, objectType);
    }
  }

  lemma {:induction false} SetProcessorNowhere<D, F>(
      ds: seq<Descriptor<D, F>>, resource: Guid, fields: Option<seq<Guid>>, sections: Option<seq<Guid>>,
      objectType: Option<Guid>)
    requires forall j :: 0 <= j < |ds| ==> ds[j].objectGuid != resource
    ensures SetProcessor(ds, resource, fields, sections, objectType) == ds
  {
    if ds != [] {
      SetProcessorNowhere(ds[1..], resource, fields, sections, objectType);
    }
  }

  /** What a form says of the processor itself is as it was. */
  ghost predicate KeepsProcessor<D, F>(d: Descriptor<D, F>, w: Descriptor<D, F>) {
    && w.objectGuid == d.objectGuid && w.name == d.name
    && w.processorAttributes == d.processorAttributes && w.processorSections == d.processorSections
    && w.objectType == d.objectType
  }

  predicate FirstOf<D, F>(ds: seq<Descriptor<D, F>>, k: nat, id: Guid)
    requires k < |ds|
  {
    ds[k].objectGuid == id && forall j :: 0 <= j < k ==> ds[j].objectGuid != id
  }

  lemma {:induction false} SetProcessorElsewhere<D, F>(
      ds: seq<Descriptor<D, F>>, k: nat, resource: Guid, fields: Option<seq<Guid>>, sections: Option<seq<Guid>>,
      objectType: Option<Guid>)
    requires k < |ds| && !FirstOf(ds, k, resource)
    ensures SetProcessor(ds, resource, fields, sections, objectType)[k] == ds[k]
  {
    if ds[0].objectGuid != resource && k > 0 {
      assert ds[1..][k - 1] == ds[k];
      if forall j :: 0 <= j < k - 1 ==> ds[1..][j].objectGuid != resource {
        assert forall j :: 0 < j < k ==> ds[j] == ds[1..][j - 1];
      }
      SetProcessorElsewhere(ds[1..], k - 1, resource, fields, sections, objectType);
    }
  }

  lemma AttributesKeepProcessor<D(!new), F>(
      ds: seq<Descriptor<D, F>>, rows: Option<seq<Value>>, read: RowReader<Declaration<D>>, readers: Readers<D, F>,
      k: nat)
    requires ReadsBodies(read) && k < |ds|
    ensures var after := Attributes(ds, rows, read, readers).1;
            |after| == |ds| && KeepsProcessor(ds[k], after[k])
  {
    hide Staged, ReadsBodies;
  }

  lemma SectionsKeepProcessor<D(!new), F>(
      ds: seq<Descriptor<D, F>>, rows: Option<seq<Value>>, read: RowReader<Declaration<D>>, readers: Readers<D, F>,
      k: nat)
    requires ReadsBodies(read) && k < |ds|
    ensures var after := Sections(ds, rows, read, readers).1;
            |after| == |ds| && KeepsProcessor(ds[k], after[k])
  {
    hide Staged, ReadsBodies, CommitSections, AllRead;
    if rows.Some? {
      SectionsAllOrNothing(ds, rows.value, read, readers);
      var (ids, after) := Sections(ds, rows, read, readers);
      if ids.Some? {
        var sections :| Ids(sections) == ids.value && SectionsLeft(ds, after, rows.value, sections, read, readers);
        assert SectionsLeave(ds, after[k], sections, |sections|, read, readers, k);
      }
    }
  }

  lemma SectionsByGuids<D(!new), F>(
      a: seq<Descriptor<D, F>>, b: seq<Descriptor<D, F>>, rows: Option<seq<Value>>, read: RowReader<Declaration<D>>,
      readers: Readers<D, F>)
    requires ReadsBodies(read) && Guids(a) == Guids(b)
    ensures Sections(a, rows, read, readers).0 == Sections(b, rows, read, readers).0
  {
    hide Staged, CommitSections;
  }

  /**
   * What a form that describes the resource leaves of one descriptor: the first descriptor of the
   * resource has the attribute list, the section list (which the attributes written before it do
   * not affect) and the object type of the form; of any other the processor data are as they were.
   */
  ghost predicate FormLeaves<D(!new), F>(
      ds: seq<Descriptor<D, F>>, w: Descriptor<D, F>, value: Value, resource: Guid, readers: Readers<D, F>, k: nat)
    requires DescribesProcessor(value, resource) && k < |ds|
  {
    FormsReadBodies(readers);
    var root, read := value.items, ProcessorReader(readers);
    && w.objectGuid == ds[k].objectGuid && w.name == ds[k].name
    && (FirstOf(ds, k, resource) ==>
          && w.processorAttributes
             == Attributes(ds, Collection(root, "ec6bb5e5-b7a8-4d75-bec9-658107a699cf"), read, readers).0
          && w.processorSections
             == Sections(ds, Collection(root, "2bcef0d1-0981-11d6-b9b8-0050bae0a95d"), read, readers).0
          && w.objectType == NotNil(GuidOf(root[1].items[1])))
    && (!FirstOf(ds, k, resource) ==> KeepsProcessor(ds[k], w))
  }

  lemma WholeForm<D(!new), F>(
      ds: seq<Descriptor<D, F>>, value: Value, resource: Guid, readers: Readers<D, F>, k: nat)
    requires DescribesProcessor(value, resource) && k < |ds|
    ensures |Projected(ds, value, resource, readers)| == |ds|
    ensures FormLeaves(ds, Projected(ds, value, resource, readers)[k], value, resource, readers, k)
  {
    hide ReadsBodies, Attributes, Sections, SetProcessor;
    FormsReadBodies(readers);
    var root, read := value.items, ProcessorReader(readers);
    var rows := Collection(root, PROCESSOR_SECTIONS);
    var (fields, first) := Attributes(ds, Collection(root, PROCESSOR_ATTRIBUTES), read, readers);
    AttributesKeepProcessor(ds, Collection(root, PROCESSOR_ATTRIBUTES), read, readers, k);
    SectionsByGuids(ds, first, rows, read, readers);
    var (sections, second) := Sections(first, rows, read, readers);
    SectionsKeepProcessor(first, rows, read, readers, k);
    FirstByGuids(ds, second, k, resource);
    var objectType := NotNil(GuidOf(root[1].items[1]));
    if FirstOf(ds, k, resource) {
      SetProcessorAt(second, k, resource, fields, sections, objectType);
    } else {
      SetProcessorElsewhere(second, k, resource, fields, sections, objectType);
    }
  }

  lemma FirstByGuids<D, F>(a: seq<Descriptor<D, F>>, b: seq<Descriptor<D, F>>, k: nat, id: Guid)
    requires k < |a| == |b| && Guids(a) == Guids(b)
    ensures FirstOf(a, k, id) == FirstOf(b, k, id)
  {
    assert forall j :: 0 <= j < |a| ==> a[j].objectGuid == Guids(a)[j] == Guids(b)[j] == b[j].objectGuid;
  }

  /** Reads an old data processor: its attributes, its sections and the data of its own descriptor. */
  method ProjectProcessor<D(!new), F>(value: Value, resource: Guid, readers: Readers<D, F>, ds: array<Descriptor<D, F>>)
    modifies ds
    ensures ds[..] == Projected(old(ds[..]), value, resource, readers)
  {
    hide ReadsBodies, Attributes, Sections, SetProcessor;
    if !DescribesProcessor(value, resource) {
      return;
    }
    FormsReadBodies(readers);
    var root := value.items;
    var fields := ReadAttributes(Collection(root, PROCESSOR_ATTRIBUTES), ProcessorReader(readers), readers, ds);
    var sections := ReadSections(Collection(root, PROCESSOR_SECTIONS), ProcessorReader(readers), readers, ds);
    var objectType := NotNil(GuidOf(root[1].items[1]));
    ghost var second := ds[..];
    var k := FindNamed(ds, resource);
    if k.Some? {
      SetProcessorAt(second, k.value, resource, fields, sections, objectType);
      ds[k.value] := ds[k.value].(processorAttributes := fields, processorSections := sections,
                                  objectType := objectType);
    } else {
      SetProcessorNowhere(second, resource, fields, sections, objectType);
    }
  }
}
