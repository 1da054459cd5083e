/**
 * Declarations of old metadata forms, written into the descriptors only after the whole
 * collection has been checked.
 */
module StagedDescriptors {
  import opened Outcomes
  import opened ValueTree
  import opened Scalars

  datatype Descriptor<D, F> = Descriptor(
    objectGuid: Guid, name: string, declaredTypes: Option<seq<D>>, fillFromFillingValue: Option<bool>,
    fillingValue: Option<F>, sectionAttributes: Option<seq<Guid>>,
    processorAttributes: Option<seq<Guid>>, processorSections: Option<seq<Guid>>, objectType: Option<Guid>)

  /** A checked row: the descriptor it names and what it says. */
  datatype Checked<P> = Checked(id: Guid, content: P)

  /** What an attribute row says: its types and its body. */
  datatype Declaration<D> = Declaration(types: seq<D>, body: seq<Value>)

  type Parsed<D> = Checked<Declaration<D>>

  /** The readers of other files: declared types and filling values. */
  datatype Readers<D, F> = Readers(declaration: Value -> Option<seq<D>>, filling: Value -> Option<F>)

  const NIL := "00000000-0000-0000-0000-000000000000"

  // ---- reading rows ----

  predicate AtomIs(v: Value, text: string) {
    v.AsAtom() == Some(text)
  }

  function GuidOf(v: Value): (r: Option<Guid>) {
    if v.AsAtom().Some? then ParseGuid(v.AsAtom().value) else None
  }

  function Flag(v: Value): (r: Option<bool>) {
    if AtomIs(v, "0") then Some(false) else if AtomIs(v, "1") then Some(true) else None
  }

  predicate NonEmptyString(v: Value) {
    v.AsString().Some? && v.AsString().value != ""
  }

  predicate IsList(v: Value, length: nat) {
    v.List? && |v.items| == length
  }

  /** The lists of a row of values that are headed by an identifier. */
  function Headed(root: seq<Value>, id: string): (lists: seq<seq<Value>>)
  {
    if root == [] then []
    else
      (if root[0].List? && root[0].items != [] && AtomIs(root[0].items[0], id) then [root[0].items] else [])
      + Headed(root[1..], id)
  }

  /** The rows of the only collection of an identifier, which counts them. */
  function Collection(root: seq<Value>, id: string): (rows: Option<seq<Value>>)
  {
    var lists := Headed(root, id);
    if |lists| == 1 && Counts(lists[0]) then Some(lists[0][2..]) else None
  }

  /** The second value counts those behind it. */
  predicate Counts(values: seq<Value>) {
    |values| >= 2 && values[1].AsAtom().Some? && ParseU32(values[1].AsAtom().value) == Some(|values| - 2)
  }

  /** An identity of seven values: a self-reference, a name, one Russian synonym and an empty comment. */
  function Identity(v: Value): (r: Option<Guid>)
  {
    if !IsList(v, 7) then None
    else
      var i := v.items;
      if !(AtomIs(i[0], "1") && NonEmptyString(i[2]) && i[4].AsString() == Some("")
           && AtomIs(i[5], "0") && AtomIs(i[6], "0") && IsList(i[1], 3) && IsList(i[3], 3))
      then None
      else
        var reference, synonyms := i[1].items, i[3].items;
        if !(AtomIs(reference[0], "0") && AtomIs(reference[1], "0")
             && AtomIs(synonyms[0], "1") && synonyms[1].AsString() == Some("ru") && NonEmptyString(synonyms[2]))
        then None
        else if GuidOf(reference[2]) == Some(NIL) then None else GuidOf(reference[2])
  }

  /** The body of an attribute: its identity and types. */
  function AttributeBody<D, F>(v: Value, readers: Readers<D, F>): (r: Option<Parsed<D>>)
  {
    if !(IsList(v, 23) && AtomIs(v.items[0], "27") && IsList(v.items[1], 3) && AtomIs(v.items[1].items[0], "2"))
    then None
    else
      var typed := v.items[1].items;
      var id, types := Identity(typed[1]), readers.declaration(typed[2]);
      if id.Some? && types.Some? then Some(Checked(id.value, Declaration(types.value, v.items))) else None
  }

  /** A row of the old data processor form. */
  function ProcessorRow<D, F>(v: Value, readers: Readers<D, F>): (r: Option<Parsed<D>>)
  {
    if !(IsList(v, 2) && AtomIs(v.items[1], "0") && IsList(v.items[0], 2) && AtomIs(v.items[0].items[0], "0")) then None
    else
      var parsed := AttributeBody(v.items[0].items[1], readers);
      if parsed.Some? && parsed.value.content.types == [] then None else parsed
  }

  /** A row of the old characteristic form, whose types may be none. */
  function CharacteristicRow<D, F>(v: Value, readers: Readers<D, F>): (r: Option<Parsed<D>>)
  {
    if !(IsList(v, 2) && AtomIs(v.items[1], "0") && IsList(v.items[0], 5)) then None
    else
      var w := v.items[0].items;
      if AtomIs(w[0], "1") && AtomIs(w[2], "0") && AtomIs(w[3], "0") && AtomIs(w[4], "1")
      then AttributeBody(w[1], readers) else None
  }

  // ---- checking a collection ----

  function Guids<D, F>(ds: seq<Descriptor<D, F>>): (g: seq<Guid>)
    ensures |g| == |ds| && forall i :: 0 <= i < |g| ==> g[i] == ds[i].objectGuid
  {
    seq(|ds|, i requires 0 <= i < |ds| => ds[i].objectGuid)
  }

  /** Exactly one descriptor has the identifier. */
  ghost predicate NamesOne(guids: seq<Guid>, id: Guid) {
    exists k :: 0 <= k < |guids| && NamesOneAt(guids, id, k)
  }

  predicate NamesOneAt(guids: seq<Guid>, id: Guid, k: nat) {
    k < |guids| && guids[k] == id && forall j :: 0 <= j < |guids| && j != k ==> guids[j] != id
  }

  /** Identifiers of a collection: all different, each naming exactly one descriptor. */
  ghost predicate Admissible(ids: seq<Guid>, guids: seq<Guid>) {
    && (forall i, j :: 0 <= i < j < |ids| ==> ids[i] != ids[j])
    && (forall i :: 0 <= i < |ids| ==> NamesOne(guids, ids[i]))
  }

  type RowReader<!P> = Value -> Option<Checked<P>>

  /** Every row reads, and the rows name different descriptors. */
  ghost predicate AllRead<P(!new)>(rows: seq<Value>, read: RowReader<P>, guids: seq<Guid>, parsed: seq<Checked<P>>) {
    && |parsed| == |rows| && (forall i :: 0 <= i < |rows| ==> read(rows[i]) == Some(parsed[i]))
    && Admissible(Ids(parsed), guids)
  }

  function Ids<P>(parsed: seq<Checked<P>>): (ids: seq<Guid>)
    ensures |ids| == |parsed| && forall i :: 0 <= i < |ids| ==> ids[i] == parsed[i].id
  {
    seq(|parsed|, i requires 0 <= i < |parsed| => parsed[i].id)
  }

  /** The first `n` rows, checked one after another. */
  ghost function Staged<P>(rows: seq<Value>, n: nat, read: RowReader<P>, guids: seq<Guid>): (r: Option<seq<Checked<P>>>)
    requires n <= |rows|
  {
    if n == 0 then Some([])
    else
      var before, row := Staged(rows, n - 1, read, guids), read(rows[n - 1]);
      if before.None? || row.None? || row.value.id in Ids(before.value) || !NamesOne(guids, row.value.id) then None
      else Some(before.value + [row.value])
  }

  /** The checks accept exactly the collections whose rows all read and name different single descriptors. */
  lemma {:induction false} StagedExactly<P(!new)>(
      rows: seq<Value>, n: nat, read: RowReader<P>, guids: seq<Guid>, parsed: seq<Checked<P>>)
    requires n <= |rows|
    ensures Staged(rows, n, read, guids) == Some(parsed) <==> AllRead(rows[..n], read, guids, parsed)
  {
    hide NamesOne;
    if n > 0 {
      var shorter := rows[..n - 1];
      assert rows[..n] == shorter + [rows[n - 1]];
      if Staged(rows, n, read, guids) == Some(parsed) {
        var q := Staged(rows, n - 1, read, guids).value;
        StagedExactly(rows, n - 1, read, guids, q);
        OneMoreRead(shorter, rows[n - 1], read, guids, q, read(rows[n - 1]).value);
      }
      if AllRead(rows[..n], read, guids, parsed) {
        FewerRead(rows[..n], read, guids, parsed);
        StagedExactly(rows, n - 1, read, guids, parsed[..n - 1]);
        assert parsed == parsed[..n - 1] + [parsed[n - 1]];
      }
    }
  }

  lemma OneMoreRead<P(!new)>(
      rows: seq<Value>, row: Value, read: RowReader<P>, guids: seq<Guid>, parsed: seq<Checked<P>>, p: Checked<P>)
    requires AllRead(rows, read, guids, parsed) && read(row) == Some(p)
    requires p.id !in Ids(parsed) && NamesOne(guids, p.id)
    ensures AllRead(rows + [row], read, guids, parsed + [p])
  {
    hide NamesOne;
    var ids := Ids(parsed + [p]);
    assert ids == Ids(parsed) + [p.id];
    forall i, j | 0 <= i < j < |ids|
      ensures ids[i] != ids[j]
    {
      assert ids[i] in Ids(parsed);
    }
  }

  lemma FewerRead<P(!new)>(rows: seq<Value>, read: RowReader<P>, guids: seq<Guid>, parsed: seq<Checked<P>>)
    requires AllRead(rows, read, guids, parsed) && rows != []
    ensures var n := |rows| - 1;
            && AllRead(rows[..n], read, guids, parsed[..n]) && read(rows[n]) == Some(parsed[n])
            && parsed[n].id !in Ids(parsed[..n]) && NamesOne(guids, parsed[n].id)
  {
    hide NamesOne;
    var n := |rows| - 1;
    var ids := Ids(parsed);
    assert Ids(parsed[..n]) == ids[..n];
    assert ids[n] == parsed[n].id;
  }

  // ---- committing ----

  /** Rows of the attribute forms have a body of 23 values. */
  ghost predicate ReadsBodies<D(!new)>(read: RowReader<Declaration<D>>) {
    forall v :: read(v).Some? ==> |read(v).value.content.body| == 23
  }

  predicate WholeBodies<D>(parsed: seq<Parsed<D>>) {
    forall i :: 0 <= i < |parsed| ==> |parsed[i].content.body| == 23
  }

  function Written<D, F>(d: Descriptor<D, F>, p: Parsed<D>, readers: Readers<D, F>): (w: Descriptor<D, F>)
    requires |p.content.body| == 23
  {
    d.(declaredTypes := Some(p.content.types),
       fillFromFillingValue := Flag(p.content.body[20]),
       fillingValue := readers.filling(p.content.body[19]))
  }

  /** Nothing but the declarations of a descriptor has changed. */
  ghost predicate OnlyDeclarations<D, F>(d: Descriptor<D, F>, w: Descriptor<D, F>) {
    w == d.(declaredTypes := w.declaredTypes,
            fillFromFillingValue := w.fillFromFillingValue,
            fillingValue := w.fillingValue)
  }

  /** A descriptor after a collection: written if a row names it, otherwise as it was. */
  function AfterRows<D, F>(d: Descriptor<D, F>, parsed: seq<Parsed<D>>, readers: Readers<D, F>): (w: Descriptor<D, F>)
    requires WholeBodies(parsed)
    ensures OnlyDeclarations(d, w)
    ensures d.objectGuid !in Ids(parsed) ==> w == d
  {
    if parsed == [] then d
    else
      var n := |parsed| - 1;
      assert Ids(parsed)[n] == parsed[n].id && Ids(parsed[..n]) == Ids(parsed)[..n];
      if d.objectGuid == parsed[n].id then Written(AfterRows(d, parsed[..n], readers), parsed[n], readers)
      else AfterRows(d, parsed[..n], readers)
  }

  function Commit<D, F>(
      ds: seq<Descriptor<D, F>>, parsed: seq<Parsed<D>>, readers: Readers<D, F>): (after: seq<Descriptor<D, F>>)
    requires WholeBodies(parsed)
    ensures |after| == |ds| && forall k :: 0 <= k < |ds| ==> after[k] == AfterRows(ds[k], parsed, readers)
    ensures Guids(after) == Guids(ds)
  {
    seq(|ds|, k requires 0 <= k < |ds| => AfterRows(ds[k], parsed, readers))
  }

  /** Rows that name different descriptors each leave exactly what they say. */
  lemma {:induction false} EachRowIsWritten<D, F>(
      d: Descriptor<D, F>, parsed: seq<Parsed<D>>, readers: Readers<D, F>, i: nat)
    requires WholeBodies(parsed) && i < |parsed| && d.objectGuid == parsed[i].id
    requires forall a, b :: 0 <= a < b < |parsed| ==> parsed[a].id != parsed[b].id
    ensures AfterRows(d, parsed, readers) == Written(d, parsed[i], readers)
    decreases |parsed|
  {
    hide Flag;
    var n := |parsed| - 1;
    if i < n {
      EachRowIsWritten(d, parsed[..n], readers, i);
    }
  }

  /** What reading a collection of attributes gives and what it leaves. */
  ghost function Attributes<D(!new), F>(
      ds: seq<Descriptor<D, F>>, rows: Option<seq<Value>>, read: RowReader<Declaration<D>>, readers: Readers<D, F>)
    : (r: (Option<seq<Guid>>, seq<Descriptor<D, F>>))
    requires ReadsBodies(read)
    ensures Guids(r.1) == Guids(ds)
  {
    if rows.None? then (None, ds)
    else
      var parsed := Staged(rows.value, |rows.value|, read, Guids(ds));
      if parsed.None? then (None, ds)
      else
        StagedWhole(rows.value, |rows.value|, read, Guids(ds));
        (Some(Ids(parsed.value)), Commit(ds, parsed.value, readers))
  }

  lemma {:induction false} StagedWhole<D(!new)>(
      rows: seq<Value>, n: nat, read: RowReader<Declaration<D>>, guids: seq<Guid>)
    requires ReadsBodies(read) && n <= |rows|
    ensures Staged(rows, n, read, guids).Some? ==> WholeBodies(Staged(rows, n, read, guids).value)
  {
    if n > 0 {
      StagedWhole(rows, n - 1, read, guids);
    }
  }

  /** The declarations a list of rows leaves: exactly those of the rows, on the descriptors they name. */
  ghost predicate LeftBy<D(!new), F>(
      before: seq<Descriptor<D, F>>, after: seq<Descriptor<D, F>>, rows: seq<Value>, read: RowReader<Declaration<D>>,
      readers: Readers<D, F>,
      ids: seq<Guid>)
  {
    && |ids| == |rows| && |after| == |before| && Admissible(ids, Guids(before))
    && (forall i :: 0 <= i < |rows| ==>
          read(rows[i]).Some? && |read(rows[i]).value.content.body| == 23 && read(rows[i]).value.id == ids[i])
    && (forall k :: 0 <= k < |before| && before[k].objectGuid !in ids ==> after[k] == before[k])
    && (forall k, i :: 0 <= k < |before| && 0 <= i < |rows| && before[k].objectGuid == ids[i] ==>
          after[k] == Written(before[k], read(rows[i]).value, readers))
  }

  /** A collection is written whole when all its rows are sound, and otherwise not at all. */
  lemma AllOrNothing<D(!new), F>(
      ds: seq<Descriptor<D, F>>, rows: seq<Value>, read: RowReader<Declaration<D>>, readers: Readers<D, F>)
    requires ReadsBodies(read)
    ensures var (ids, after) := Attributes(ds, Some(rows), read, readers);
            && (ids.Some? <==> exists parsed :: AllRead(rows, read, Guids(ds), parsed))
            && (ids.None? ==> after == ds)
            && (ids.Some? ==> LeftBy(ds, after, rows, read, readers, ids.value))
  {
    hide Staged, NamesOne, AfterRows, Written;
    assert rows[..|rows|] == rows;
    var staged := Staged(rows, |rows|, read, Guids(ds));
    if staged.Some? {
      var parsed := staged.value;
      StagedExactly(rows, |rows|, read, Guids(ds), parsed);
      StagedWhole(rows, |rows|, read, Guids(ds));
      forall k, i | 0 <= k < |ds| && 0 <= i < |rows| && ds[k].objectGuid == parsed[i].id
        ensures AfterRows(ds[k], parsed, readers) == Written(ds[k], parsed[i], readers)
      {
        assert forall a, b :: 0 <= a < b < |parsed| ==> Ids(parsed)[a] != Ids(parsed)[b];
        EachRowIsWritten(ds[k], parsed, readers, i);
      }
    } else if exists parsed :: AllRead(rows, read, Guids(ds), parsed) {
      var parsed :| AllRead(rows, read, Guids(ds), parsed);
      StagedExactly(rows, |rows|, read, Guids(ds), parsed);
      assert false;
    }
  }

  /** How many descriptors have an identifier. */
  method CountNamed<D, F>(ds: array<Descriptor<D, F>>, id: Guid) returns (n: nat)
    ensures n == 1 <==> NamesOne(Guids(ds[..]), id)
  {
    n := 0;
    ghost var last := 0;
    for k := 0 to ds.Length
      invariant n == 0 <==> forall j :: 0 <= j < k ==> ds[j].objectGuid != id
      invariant n == 1 ==> 0 <= last < k && ds[last].objectGuid == id
      invariant n == 1 ==> forall j :: 0 <= j < k && j != last ==> ds[j].objectGuid != id
      invariant n > 1 ==> exists i, j :: 0 <= i < j < k && ds[i].objectGuid == id && ds[j].objectGuid == id
    {
      if ds[k].objectGuid == id {
        n := n + 1;
        if n == 1 {
          last := k;
        }
      }
    }
    if n == 1 {
      assert NamesOneAt(Guids(ds[..]), id, last);
    }
  }

  method FindNamed<D, F>(ds: array<Descriptor<D, F>>, id: Guid) returns (k: Option<nat>)
    ensures match k
            case None => forall j :: 0 <= j < ds.Length ==> ds[j].objectGuid != id
            case Some(i) => i < ds.Length && ds[i].objectGuid == id && forall j :: 0 <= j < i ==> ds[j].objectGuid != id
  {
    for i := 0 to ds.Length
      invariant forall j :: 0 <= j < i ==> ds[j].objectGuid != id
    {
      if ds[i].objectGuid == id {
        return Some(i);
      }
    }
    return None;
  }

  /** Checks all rows before anything is written. */
  method Stage<P(!new), D, F>(rows: seq<Value>, read: RowReader<P>, ds: array<Descriptor<D, F>>)
    returns (parsed: Option<seq<Checked<P>>>)
    ensures parsed == Staged(rows, |rows|, read, Guids(ds[..]))
  {
    hide NamesOne, Guids;
    var found: seq<Checked<P>> := [];
    for i := 0 to |rows|
      invariant Staged(rows, i, read, Guids(ds[..])) == Some(found)
    {
      var row := read(rows[i]);
      if row.None? {
        StagedFails(rows, i + 1, read, Guids(ds[..]));
        return None;
      }
      var count := CountNamed(ds, row.value.id);
      if row.value.id in Ids(found) || count != 1 {
        StagedFails(rows, i + 1, read, Guids(ds[..]));
        return None;
      }
      found := found + [row.value];
    }
    return Some(found);
  }

  /** A fault in an earlier row refuses the collection. */
  lemma {:induction false} StagedFails<P(!new)>(rows: seq<Value>, n: nat, read: RowReader<P>, guids: seq<Guid>)
    requires n <= |rows| && Staged(rows, n, read, guids).None?
    ensures Staged(rows, |rows|, read, guids).None?
    decreases |rows| - n
  {
    if n < |rows| {
      StagedFails(rows, n + 1, read, guids);
    }
  }

  /** Reads the declarations of a collection into the descriptors its rows name, all of them or none. */
  method ReadAttributes<D(!new), F>(
      rows: Option<seq<Value>>, read: RowReader<Declaration<D>>, readers: Readers<D, F>, ds: array<Descriptor<D, F>>)
    returns (ids: Option<seq<Guid>>)
    requires ReadsBodies(read)
    modifies ds
    ensures (ids, ds[..]) == Attributes(old(ds[..]), rows, read, readers)
  {
    hide Staged, ReadsBodies, NamesOne, Flag;
    if rows.None? {
      return None;
    }
    ghost var before := ds[..];
    var staged := Stage(rows.value, read, ds);
    if staged.None? {
      return None;
    }
    var parsed := staged.value;
    StagedWhole(rows.value, |rows.value|, read, Guids(before));
    StagedExactly(rows.value, |rows.value|, read, Guids(before), parsed);
    for i := 0 to |parsed|
      invariant ds[..] == Commit(before, parsed[..i], readers)
    {
      CommitKeepsNames(before, parsed, i, readers);
      var k := FindNamed(ds, parsed[i].id);
      assert k.Some?;
      CommitOne(before, parsed, i, readers, k.value);
      ds[k.value] := Written(ds[k.value], parsed[i], readers);
    }
    assert parsed[..|parsed|] == parsed;
    return Some(Ids(parsed));
  }

  /** The descriptor a checked row names is there when its turn comes. */
  lemma CommitKeepsNames<D, F>(before: seq<Descriptor<D, F>>, parsed: seq<Parsed<D>>, i: nat, readers: Readers<D, F>)
    requires WholeBodies(parsed) && i < |parsed| && Admissible(Ids(parsed), Guids(before))
    ensures exists k :: 0 <= k < |before| && Commit(before, parsed[..i], readers)[k].objectGuid == parsed[i].id
  {
    assert NamesOne(Guids(before), Ids(parsed)[i]);
    var k :| 0 <= k < |before| && NamesOneAt(Guids(before), parsed[i].id, k);
    assert Commit(before, parsed[..i], readers)[k].objectGuid == Guids(before)[k];
  }

  lemma CommitOne<D, F>(before: seq<Descriptor<D, F>>, parsed: seq<Parsed<D>>, i: nat, readers: Readers<D, F>, k: nat)
    requires WholeBodies(parsed) && i < |parsed| && Admissible(Ids(parsed), Guids(before))
    requires k < |before| && before[k].objectGuid == parsed[i].id
    ensures var now := Commit(before, parsed[..i], readers);
            Commit(before, parsed[..i + 1], readers) == now[k := Written(now[k], parsed[i], readers)]
  {
    hide Flag;
    var now, next := Commit(before, parsed[..i], readers), Commit(before, parsed[..i + 1], readers);
    assert parsed[..i + 1][..i] == parsed[..i];
    assert NamesOne(Guids(before), Ids(parsed)[i]);
    forall j | 0 <= j < |before|
      ensures next[j] == now[k := Written(now[k], parsed[i], readers)][j]
    {
      assert Guids(before)[j] == before[j].objectGuid && Guids(before)[k] == before[k].objectGuid;
    }
  }

  // ---- the two forms ----

  const CHARACTERISTIC_ATTRIBUTES := "31182525-9346-4595-81f8-6f91a72ebe06"

  function ProcessorReader<D, F>(readers: Readers<D, F>): (read: RowReader<Declaration<D>>) {
    (v: Value) => ProcessorRow(v, readers)
  }

  function CharacteristicReader<D, F>(readers: Readers<D, F>): (read: RowReader<Declaration<D>>) {
    (v: Value) => CharacteristicRow(v, readers)
  }

  lemma FormsReadBodies<D(!new), F>(readers: Readers<D, F>)
    ensures ReadsBodies(ProcessorReader(readers)) && ReadsBodies(CharacteristicReader(readers))
  {
    hide Identity;
  }

  method CharacteristicAttributes<D(!new), F>(root: seq<Value>, readers: Readers<D, F>, ds: array<Descriptor<D, F>>)
    returns (fields: Option<seq<Guid>>)
    modifies ds
    ensures var read := CharacteristicReader(readers);
            ReadsBodies(read)
            && (fields, ds[..])
               == Attributes(old(ds[..]), Collection(root, "31182525-9346-4595-81f8-6f91a72ebe06"), read, readers)
  {
    hide ReadsBodies, Attributes;
    FormsReadBodies(readers);
    var collection := Collection(root, CHARACTERISTIC_ATTRIBUTES);
    fields := ReadAttributes(collection, CharacteristicReader(readers), readers, ds);
  }
}
