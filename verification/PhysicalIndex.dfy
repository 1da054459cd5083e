/** An index over the tables of a schema that stands for a scan with a three-way condition. */
module PhysicalIndex {
  import opened Outcomes
  import opened Scalars
  import opened Names

  datatype Table = Table(name: string, number: nat, owner: Option<string>, inlineName: Option<string>) {
    function PhysicalName(): string {
      "_" + name
    }
  }

  /** A service kind has no table of its own name; every other kind has one by prefix and number. */
  datatype Kind = Plain(prefix: string) | Service | ExtraDimension

  // ---- the scan ----

  predicate IsExtraDimension(t: Table, lower: LowerTable) {
    t.inlineName.Some? && NamesEqual(t.inlineName.value, "ExtDim" + Decimal(t.number), lower)
  }

  predicate Matches(t: Table, entry: Entry, kind: Kind, lower: LowerTable) {
    || NamesEqual(t.name, entry.alias, lower)
    || NamesEqual(t.name, entry.alias + Decimal(entry.number), lower)
    || (kind.ExtraDimension? && t.number == entry.number && t.inlineName.Some?
        && NamesEqual(t.inlineName.value, "ExtDim" + Decimal(entry.number), lower))
  }

  /** The first table from row `i` on that matches in any of the three ways. */
  function Scan(ts: seq<Table>, i: nat, entry: Entry, kind: Kind, lower: LowerTable): (r: Option<string>)
    requires i <= |ts|
    decreases |ts| - i
  {
    if i == |ts| then None
    else if Matches(ts[i], entry, kind, lower) then Some(ts[i].PhysicalName())
    else Scan(ts, i + 1, entry, kind, lower)
  }

  function PlainTableForEntry(ts: seq<Table>, entry: Entry, kind: Kind, lower: LowerTable): (r: Option<string>)
  {
    if kind.Plain? then Some(kind.prefix + Decimal(entry.number)) else Scan(ts, 0, entry, kind, lower)
  }

  // ---- the index ----

  /** The row an index gives for a key: the first one that has it. */
  ghost predicate FirstRow(ts: seq<Table>, has: Table -> bool, row: Option<nat>) {
    match row
    case None => forall i :: 0 <= i < |ts| ==> !has(ts[i])
    case Some(k) => k < |ts| && has(ts[k]) && forall i :: 0 <= i < k ==> !has(ts[i])
  }

  function Lookup<K(==)>(m: map<K, nat>, key: K): (r: Option<nat>)
  {
    if key in m then Some(m[key]) else None
  }

  function HasKey(key: string, lower: LowerTable): Table -> bool {
    (t: Table) => FoldedName(t.name, lower) == key
  }

  function IsExtra(number: nat, lower: LowerTable): Table -> bool {
    (t: Table) => t.number == number && IsExtraDimension(t, lower)
  }

  datatype PhysicalTableIndex =
    PhysicalTableIndex(physicalNames: seq<string>, byName: map<string, nat>, extraDimensions: map<nat, nat>)
  {
    /** The index of these tables: every key leads to its first row. */
    ghost predicate Of(ts: seq<Table>, lower: LowerTable) {
      && |physicalNames| == |ts| && (forall i :: 0 <= i < |ts| ==> physicalNames[i] == ts[i].PhysicalName())
      && (forall key :: FirstRow(ts, HasKey(key, lower), Lookup(byName, key)))
      && (forall number :: FirstRow(ts, IsExtra(number, lower), Lookup(extraDimensions, number)))
    }
  }

  /** Keeps the row a key already has. */
  function InsertFirst<K(!new)>(m: map<K, nat>, key: K, row: nat): (r: map<K, nat>)
    ensures forall k :: Lookup(r, k) == if k == key && key !in m then Some(row) else Lookup(m, k)
  {
    if key in m then m else m[key := row]
  }

  method BuildIndex(ts: seq<Table>, lower: LowerTable) returns (index: PhysicalTableIndex)
    ensures index.Of(ts, lower)
  {
    hide FoldedName, IsExtraDimension;
    index := PhysicalTableIndex([], map[], map[]);
    for row := 0 to |ts|
      invariant index.Of(ts[..row], lower)
    {
      var t := ts[row];
      ghost var before := index;
      assert ts[..row + 1] == ts[..row] + [t];
      index := index.(
        physicalNames := index.physicalNames + [t.PhysicalName()],
        byName := InsertFirst(index.byName, FoldedName(t.name, lower), row));
      if IsExtraDimension(t, lower) {
        index := index.(extraDimensions := InsertFirst(index.extraDimensions, t.number, row));
      }
      RowAdded(ts[..row], t, before, index, lower);
    }
    assert ts[..|ts|] == ts;
  }

  lemma FirstRowAdded(ts: seq<Table>, t: Table, has: Table -> bool, row: Option<nat>)
    requires FirstRow(ts, has, row)
    ensures FirstRow(ts + [t], has, if row.None? && has(t) then Some(|ts|) else row)
  {
  }

  lemma RowAdded(ts: seq<Table>, t: Table, before: PhysicalTableIndex, after: PhysicalTableIndex, lower: LowerTable)
    requires before.Of(ts, lower)
    requires after.physicalNames == before.physicalNames + [t.PhysicalName()]
    requires after.byName == InsertFirst(before.byName, FoldedName(t.name, lower), |ts|)
    requires after.extraDimensions
          == if IsExtraDimension(t, lower) then InsertFirst(before.extraDimensions, t.number, |ts|)
             else before.extraDimensions
    ensures after.Of(ts + [t], lower)
  {
    hide FoldedName, IsExtraDimension, FirstRow;
    forall key
      ensures FirstRow(ts + [t], HasKey(key, lower), Lookup(after.byName, key))
    {
      assert FirstRow(ts, HasKey(key, lower), Lookup(before.byName, key));
      FirstRowAdded(ts, t, HasKey(key, lower), Lookup(before.byName, key));
    }
    forall number
      ensures FirstRow(ts + [t], IsExtra(number, lower), Lookup(after.extraDimensions, number))
    {
      assert FirstRow(ts, IsExtra(number, lower), Lookup(before.extraDimensions, number));
      FirstRowAdded(ts, t, IsExtra(number, lower), Lookup(before.extraDimensions, number));
    }
  }

  function Earlier(a: Option<nat>, b: Option<nat>): (r: Option<nat>)
  {
    if a.None? then b else if b.None? then a else if a.value <= b.value then a else b
  }

  /** The first of three first rows is the first row that has any of the three properties. */
  lemma EarliestOfThree(
      ts: seq<Table>, p: Table -> bool, q: Table -> bool, r: Table -> bool, any: Table -> bool,
      a: Option<nat>, b: Option<nat>, c: Option<nat>)
    requires FirstRow(ts, p, a) && FirstRow(ts, q, b) && FirstRow(ts, r, c)
    requires forall t :: any(t) <==> p(t) || q(t) || r(t)
    ensures FirstRow(ts, any, Earlier(Earlier(a, b), c))
  {
  }

  lemma {:induction false} ScanIsFirst(
      ts: seq<Table>, i: nat, entry: Entry, kind: Kind, lower: LowerTable, row: Option<nat>)
    requires i <= |ts| && FirstRow(ts, (t: Table) => Matches(t, entry, kind, lower), row)
    requires row.Some? ==> i <= row.value
    ensures Scan(ts, i, entry, kind, lower) == if row.Some? then Some(ts[row.value].PhysicalName()) else None
    decreases |ts| - i
  {
    hide Matches;
    if i < |ts| && !Matches(ts[i], entry, kind, lower) {
      ScanIsFirst(ts, i + 1, entry, kind, lower, row);
    }
  }

  /** The indexed lookup gives what the scan gives. */
  method TableForEntry(index: PhysicalTableIndex, entry: Entry, kind: Kind, lower: LowerTable, ghost ts: seq<Table>)
    returns (r: Option<string>)
    requires AgreesOnAscii(lower) && index.Of(ts, lower)
    ensures r == PlainTableForEntry(ts, entry, kind, lower)
  {
    hide Scan, FoldedName, FirstRow, Matches, AgreesOnAscii;
    if kind.Plain? {
      return Some(kind.prefix + Decimal(entry.number));
    }
    var aliasKey, numberedKey := FoldedName(entry.alias, lower), FoldedName(entry.alias + Decimal(entry.number), lower);
    var alias := Lookup(index.byName, aliasKey);
    var numbered := Lookup(index.byName, numberedKey);
    var extra := if kind.ExtraDimension? then Lookup(index.extraDimensions, entry.number) else None;
    var row := Earlier(Earlier(alias, numbered), extra);
    assert FirstRow(ts, HasKey(aliasKey, lower), alias) && FirstRow(ts, HasKey(numberedKey, lower), numbered);
    ghost var isExtra := ExtraOf(entry, kind, lower);
    ExtraRow(index, entry, kind, lower, ts);
    forall t
      ensures Matches(t, entry, kind, lower)
         <==> HasKey(aliasKey, lower)(t) || HasKey(numberedKey, lower)(t) || isExtra(t)
    {
      MatchesByKey(t, entry, kind, lower);
    }
    ghost var any := (t: Table) => Matches(t, entry, kind, lower);
    EarliestOfThree(ts, HasKey(aliasKey, lower), HasKey(numberedKey, lower), isExtra, any, alias, numbered, extra);
    ScanIsFirst(ts, 0, entry, kind, lower, row);
    RowExists(ts, any, row);
    if row.None? {
      return None;
    }
    return Some(index.physicalNames[row.value]);
  }

  ghost function ExtraOf(entry: Entry, kind: Kind, lower: LowerTable): Table -> bool {
    (t: Table) => kind.ExtraDimension? && t.number == entry.number && IsExtraDimension(t, lower)
  }

  lemma ExtraRow(index: PhysicalTableIndex, entry: Entry, kind: Kind, lower: LowerTable, ts: seq<Table>)
    requires index.Of(ts, lower)
    ensures FirstRow(ts, ExtraOf(entry, kind, lower),
                     if kind.ExtraDimension? then Lookup(index.extraDimensions, entry.number) else None)
  {
    hide IsExtraDimension;
    assert FirstRow(ts, IsExtra(entry.number, lower), Lookup(index.extraDimensions, entry.number));
    assert forall t :: IsExtra(entry.number, lower)(t) <==> t.number == entry.number && IsExtraDimension(t, lower);
  }

  lemma RowExists(ts: seq<Table>, has: Table -> bool, row: Option<nat>)
    requires FirstRow(ts, has, row)
    ensures row.Some? ==> row.value < |ts|
  {
  }

  lemma MatchesByKey(t: Table, entry: Entry, kind: Kind, lower: LowerTable)
    requires AgreesOnAscii(lower)
    ensures Matches(t, entry, kind, lower)
       <==> (|| HasKey(FoldedName(entry.alias, lower), lower)(t)
             || HasKey(FoldedName(entry.alias + Decimal(entry.number), lower), lower)(t)
             || ExtraOf(entry, kind, lower)(t))
  {
    hide NamesEqual, FoldedName;
    KeyStandsForEquality(t.name, entry.alias, lower);
    KeyStandsForEquality(t.name, entry.alias + Decimal(entry.number), lower);
    assert HasKey(FoldedName(entry.alias, lower), lower)(t) <==> NamesEqual(t.name, entry.alias, lower);
    assert ExtraOf(entry, kind, lower)(t)
      <==> kind.ExtraDimension? && t.number == entry.number && IsExtraDimension(t, lower);
  }

  // ---- the row of a physical name ----

  function RowScan(ts: seq<Table>, i: nat, name: string, lower: LowerTable): (r: Option<nat>)
    requires i <= |ts|
    decreases |ts| - i
  {
    if i == |ts| then None else if NamesEqual(ts[i].name, name, lower) then Some(i) else RowScan(ts, i + 1, name, lower)
  }

  lemma {:induction false} RowScanIsFirst(ts: seq<Table>, i: nat, name: string, lower: LowerTable, row: Option<nat>)
    requires AgreesOnAscii(lower) && i <= |ts|
    requires FirstRow(ts, HasKey(FoldedName(name, lower), lower), row) && (row.Some? ==> i <= row.value)
    ensures RowScan(ts, i, name, lower) == row
    decreases |ts| - i
  {
    hide NamesEqual, FoldedName, AgreesOnAscii;
    if i < |ts| {
      KeyStandsForEquality(ts[i].name, name, lower);
      if !NamesEqual(ts[i].name, name, lower) {
        RowScanIsFirst(ts, i + 1, name, lower, row);
      }
    }
  }

  /** The row of a table by its physical name, with or without its underscore. */
  method SchemaRow(index: PhysicalTableIndex, physicalName: string, lower: LowerTable, ghost ts: seq<Table>)
    returns (row: Option<nat>)
    requires AgreesOnAscii(lower) && index.Of(ts, lower)
    ensures row == RowScan(ts, 0, StripUnderscore(physicalName), lower)
  {
    hide FoldedName, RowScan, AgreesOnAscii;
    var key := FoldedName(StripUnderscore(physicalName), lower);
    row := Lookup(index.byName, key);
    assert FirstRow(ts, HasKey(key, lower), row);
    RowScanIsFirst(ts, 0, StripUnderscore(physicalName), lower, row);
  }
}
