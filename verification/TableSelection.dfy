/** Which tables a selection of objects keeps, over the base schema and the extensions'. */
module TableSelection {
  import opened Outcomes
  import opened Scalars
  import opened Names
  import opened PhysicalIndex

  /** A table is known by its name without underscore, in ASCII lower case. */
  function Key(name: string): (k: string) {
    AsciiLowerAll(StripUnderscore(name))
  }

  // ---- the base of an extension table ----

  predicate IsX(c: char) {
    c == 'X' || c == 'x'
  }

  function LastX(s: string): (p: Option<nat>)
    ensures p.Some? ==> p.value < |s| && IsX(s[p.value]) && forall i :: p.value < i < |s| ==> !IsX(s[i])
    ensures p.None? ==> forall i :: 0 <= i < |s| ==> !IsX(s[i])
  {
    if s == [] then None else if IsX(s[|s| - 1]) then Some(|s| - 1) else LastX(s[..|s| - 1])
  }

  function ExtensionBase(name: string): (base: Option<string>)
  {
    match LastX(name)
    case None => None
    case Some(p) =>
      var number := name[p + 1..];
      if p > 0 && IsDigit(name[p - 1]) && number != [] && AllDigits(number) then Some(name[..p]) else None
  }

  predicate AllDigits(s: string) {
    forall i :: 0 <= i < |s| ==> IsDigit(s[i])
  }

  predicate IsExtensionOf(name: string, base: string) {
    && base != [] && IsDigit(base[|base| - 1]) && |base| + 1 < |name| && base <= name && IsX(name[|base|])
    && forall i :: |base| < i < |name| ==> IsDigit(name[i])
  }

  /** An extension table is named by its base, an X and a number; that reads back in one way only. */
  lemma ExtensionBaseExact(name: string, base: string)
    ensures ExtensionBase(name) == Some(base) <==> IsExtensionOf(name, base)
  {
    if IsExtensionOf(name, base) {
      assert IsX(name[|base|]) && (forall i :: |base| < i < |name| ==> !IsX(name[i]));
      assert LastX(name) == Some(|base|);
      assert AllDigits(name[|base| + 1..]);
      assert name[..|base|] == base;
    }
    if ExtensionBase(name) == Some(base) {
      var p := LastX(name).value;
      forall i | p < i < |name|
        ensures IsDigit(name[i])
      {
        assert name[i] == name[p + 1..][i - p - 1];
      }
    }
  }

  // ---- the closure ----

  /** A table comes along with its owner and with the table it extends. */
  predicate Follows(t: Table, selected: set<string>) {
    || (t.owner.Some? && Key(t.owner.value) in selected)
    || (ExtensionBase(t.name).Some? && Key(ExtensionBase(t.name).value) in selected)
  }

  ghost predicate Closed(sources: seq<seq<Table>>, selected: set<string>) {
    forall s, t :: s in sources && t in s && Follows(t, selected) ==> Key(t.name) in selected
  }

  /** Every closed set that holds the seeds holds this one. */
  ghost predicate BelowClosed(sources: seq<seq<Table>>, seeds: set<string>, selected: set<string>) {
    forall other: set<string> :: seeds <= other && Closed(sources, other) ==> selected <= other
  }

  /** The least set that holds the seeds and is closed. */
  ghost predicate IsSelection(sources: seq<seq<Table>>, seeds: set<string>, selected: set<string>) {
    seeds <= selected && Closed(sources, selected) && BelowClosed(sources, seeds, selected)
  }

  predicate Declares(sources: seq<seq<Table>>, t: Table) {
    exists s :: s in sources && t in s
  }

  /** The selection depends on the tables alone, not on their order or on how schemas share them. */
  lemma SelectionIsUnique(
      first: seq<seq<Table>>, second: seq<seq<Table>>, seeds: set<string>, a: set<string>, b: set<string>)
    requires IsSelection(first, seeds, a) && IsSelection(second, seeds, b)
    requires forall t :: Declares(first, t) <==> Declares(second, t)
    ensures a == b
  {
    hide Follows;
    assert Closed(first, b) by {
      forall s, t | s in first && t in s && Follows(t, b)
        ensures Key(t.name) in b
      {
        assert Declares(first, t) && Declares(second, t);
      }
    }
    assert Closed(second, a) by {
      forall s, t | s in second && t in s && Follows(t, a)
        ensures Key(t.name) in a
      {
        assert Declares(second, t) && Declares(first, t);
      }
    }
  }

  function TableKeys(sources: seq<seq<Table>>): set<string> {
    set s, t | s in sources && t in s :: Key(t.name)
  }

  /** One pass over the tables: what follows the set at its start is in the set at its end. */
  method AddFollowing(
      sources: seq<seq<Table>>, ghost seeds: set<string>, before: set<string>) returns (selected: set<string>)
    requires BelowClosed(sources, seeds, before)
    ensures before <= selected <= before + TableKeys(sources) && BelowClosed(sources, seeds, selected)
    ensures forall s, t :: s in sources && t in s && Follows(t, before) ==> Key(t.name) in selected
  {
    hide Follows, Key;
    selected := before;
    for i := 0 to |sources|
      invariant before <= selected <= before + TableKeys(sources) && BelowClosed(sources, seeds, selected)
      invariant forall s, t :: s in sources[..i] && t in s && Follows(t, before) ==> Key(t.name) in selected
    {
      var declarations := sources[i];
      assert sources[..i + 1] == sources[..i] + [declarations] && declarations in sources;
      for j := 0 to |declarations|
        invariant before <= selected <= before + TableKeys(sources) && BelowClosed(sources, seeds, selected)
        invariant forall s, t :: s in sources[..i] && t in s && Follows(t, before) ==> Key(t.name) in selected
        invariant forall t :: t in declarations[..j] && Follows(t, before) ==> Key(t.name) in selected
      {
        var t := declarations[j];
        assert declarations[..j + 1] == declarations[..j] + [t] && t in declarations;
        assert Follows(t, before) ==> Follows(t, selected) by {
          FollowsIfMore(t, before, selected);
        }
        if Follows(t, selected) {
          FollowerIsBelow(sources, seeds, selected, declarations, t);
          selected := selected + {Key(t.name)};
        }
      }
      assert declarations[..|declarations|] == declarations;
    }
    assert sources[..|sources|] == sources;
  }

  lemma FollowsIfMore(t: Table, a: set<string>, b: set<string>)
    requires a <= b
    ensures Follows(t, a) ==> Follows(t, b)
  {
  }

  lemma FollowerIsBelow(sources: seq<seq<Table>>, seeds: set<string>, selected: set<string>, s: seq<Table>, t: Table)
    requires BelowClosed(sources, seeds, selected) && s in sources && t in s && Follows(t, selected)
    ensures BelowClosed(sources, seeds, selected + {Key(t.name)})
  {
    hide Follows, Key;
    forall other: set<string> | seeds <= other && Closed(sources, other)
      ensures selected + {Key(t.name)} <= other
    {
      FollowsIfMore(t, selected, other);
    }
  }

  lemma SameSize(a: set<string>, b: set<string>)
    requires a <= b
    ensures |a| == |b| ==> a == b
    ensures |a| != |b| ==> a < b
    decreases b
  {
    var more := b - a;
    assert b == a + more && |b| == |a| + |more|;
  }

  /** Repeats the pass until nothing is added. */
  method Close(sources: seq<seq<Table>>, seeds: set<string>) returns (selected: set<string>)
    ensures IsSelection(sources, seeds, selected)
    ensures selected <= seeds + TableKeys(sources)
  {
    hide Follows, TableKeys;
    selected := seeds;
    while true
      invariant seeds <= selected <= seeds + TableKeys(sources) && BelowClosed(sources, seeds, selected)
      decreases seeds + TableKeys(sources) - selected
    {
      var before := |selected|;
      ghost var was := selected;
      selected := AddFollowing(sources, seeds, selected);
      SameSize(was, selected);
      if |selected| == before {
        break;
      }
      assert seeds + TableKeys(sources) - selected < seeds + TableKeys(sources) - was;
    }
  }

  // ---- the seeds ----

  datatype Source = Source(entries: seq<(Entry, Kind)>, tables: seq<Table>)

  function Schemas(sources: seq<Source>): (r: seq<seq<Table>>)
    ensures |r| == |sources| && forall i :: 0 <= i < |r| ==> r[i] == sources[i].tables
  {
    seq(|sources|, i requires 0 <= i < |sources| => sources[i].tables)
  }

  /** The table of an object: by its own schema, or else by the base schema. */
  function TableOf(sources: seq<Source>, i: nat, entry: Entry, kind: Kind, lower: LowerTable): (r: Option<string>)
    requires i < |sources|
  {
    var own := PlainTableForEntry(sources[i].tables, entry, kind, lower);
    if own.Some? then own else PlainTableForEntry(sources[0].tables, entry, kind, lower)
  }

  /** A key some selected object of the sources before `upTo` leads to. */
  ghost predicate IsSeed(
      sources: seq<Source>, upTo: nat, guids: set<Guid>, lower: LowerTable, key: string)
    requires upTo <= |sources|
  {
    exists i, j ::
      && 0 <= i < upTo && 0 <= j < |sources[i].entries| && SeedAt(sources, i, j, guids, lower, key)
  }

  predicate SeedAt(sources: seq<Source>, i: nat, j: nat, guids: set<Guid>, lower: LowerTable, key: string)
    requires i < |sources| && j < |sources[i].entries|
  {
    var (entry, kind) := sources[i].entries[j];
    && entry.guid in guids && TableOf(sources, i, entry, kind, lower).Some?
    && Key(TableOf(sources, i, entry, kind, lower).value) == key
  }

  method ObjectTables(sources: seq<Source>, guids: set<Guid>, lower: LowerTable) returns (seeds: set<string>)
    requires sources != [] && AgreesOnAscii(lower)
    ensures forall key :: key in seeds <==> IsSeed(sources, |sources|, guids, lower, key)
  {
    hide PlainTableForEntry, Key, AgreesOnAscii;
    var indexes: seq<PhysicalTableIndex> := [];
    for i := 0 to |sources|
      invariant |indexes| == i && forall k :: 0 <= k < i ==> indexes[k].Of(sources[k].tables, lower)
    {
      var index := BuildIndex(sources[i].tables, lower);
      indexes := indexes + [index];
    }
    seeds := {};
    for i := 0 to |sources|
      invariant forall key :: key in seeds <==> IsSeed(sources, i, guids, lower, key)
    {
      var found := SourceTables(sources, i, indexes, guids, lower);
      OneMoreSource(sources, i, guids, lower, seeds, found);
      seeds := seeds + found;
    }
  }

  method SourceTables(
      sources: seq<Source>, i: nat, indexes: seq<PhysicalTableIndex>, guids: set<Guid>, lower: LowerTable)
    returns (found: set<string>)
    requires i < |sources| == |indexes| && AgreesOnAscii(lower)
    requires forall k :: 0 <= k < |sources| ==> indexes[k].Of(sources[k].tables, lower)
    ensures forall key :: key in found <==>
              exists j :: 0 <= j < |sources[i].entries| && SeedAt(sources, i, j, guids, lower, key)
  {
    hide PlainTableForEntry, Key, AgreesOnAscii, PhysicalTableIndex.Of;
    found := {};
    var entries := sources[i].entries;
    for j := 0 to |entries|
      invariant forall key :: key in found <==> exists k :: 0 <= k < j && SeedAt(sources, i, k, guids, lower, key)
    {
      ghost var was := found;
      var (entry, kind) := entries[j];
      if entry.guid in guids {
        var table := TableForEntry(indexes[i], entry, kind, lower, sources[i].tables);
        if table.None? {
          table := TableForEntry(indexes[0], entry, kind, lower, sources[0].tables);
        }
        if table.Some? {
          found := found + {Key(table.value)};
        }
      }
      assert forall key :: key in found <==> key in was || SeedAt(sources, i, j, guids, lower, key);
    }
  }

  lemma OneMoreSource(
      sources: seq<Source>, i: nat, guids: set<Guid>, lower: LowerTable, seeds: set<string>, found: set<string>)
    requires i < |sources|
    requires forall key :: key in seeds <==> IsSeed(sources, i, guids, lower, key)
    requires forall key :: key in found <==>
               exists j :: 0 <= j < |sources[i].entries| && SeedAt(sources, i, j, guids, lower, key)
    ensures forall key :: key in seeds + found <==> IsSeed(sources, i + 1, guids, lower, key)
  {
    hide SeedAt;
  }

  /** The settings storages that exist, by the live catalogue or a schema. */
  function StorageKeys(
      storages: seq<string>, live: seq<string>, sources: seq<Source>, lower: LowerTable): (r: set<string>)
  {
    set name | name in storages && StorageExists(name, live, sources, lower) :: Key(name)
  }

  predicate StorageExists(name: string, live: seq<string>, sources: seq<Source>, lower: LowerTable) {
    || (exists t :: t in live && NamesEqual(t, name, lower))
    || (exists s :: s in sources && RowScan(s.tables, 0, StripUnderscore(name), lower).Some?)
  }

  /** The selection of the tables that live storages and selected objects seed. */
  ghost predicate SelectedFrom(
      sources: seq<Source>, guids: set<Guid>, storages: seq<string>, live: seq<string>, lower: LowerTable,
      seeds: set<string>, selected: set<string>)
  {
    && IsSelection(Schemas(sources), seeds, selected)
    && (forall key :: key in seeds <==>
          key in StorageKeys(storages, live, sources, lower) || IsSeed(sources, |sources|, guids, lower, key))
  }

  /** The selected tables of a base schema and its extensions. */
  method SelectTables(
      sources: seq<Source>, guids: set<Guid>, storages: seq<string>, live: seq<string>, lower: LowerTable)
    returns (selected: set<string>)
    requires sources != [] && AgreesOnAscii(lower)
    ensures exists seeds :: SelectedFrom(sources, guids, storages, live, lower, seeds, selected)
  {
    hide IsSelection, IsSeed, StorageKeys, AgreesOnAscii;
    var objects := ObjectTables(sources, guids, lower);
    var seeds := StorageKeys(storages, live, sources, lower) + objects;
    selected := Close(Schemas(sources), seeds);
    assert SelectedFrom(sources, guids, storages, live, lower, seeds, selected);
  }

  // ---- the projection ----

  predicate SelectedTable(name: string, selected: set<string>) {
    || Key(name) in selected
    || (ExtensionBase(name).Some? && Key(ExtensionBase(name).value) in selected)
  }

  method ProjectTables(ts: seq<Table>, selected: set<string>) returns (kept: seq<Table>)
    ensures kept == Kept(ts, selected)
  {
    kept := [];
    for i := 0 to |ts|
      invariant kept == Kept(ts[..i], selected)
    {
      assert ts[..i + 1][..i] == ts[..i];
      if SelectedTable(ts[i].name, selected) {
        kept := kept + [ts[i]];
      }
    }
    assert ts[..|ts|] == ts;
  }

  function Kept(ts: seq<Table>, selected: set<string>): (r: seq<Table>)
  {
    if ts == [] then []
    else
      var t := ts[|ts| - 1];
      Kept(ts[..|ts| - 1], selected) + (if SelectedTable(t.name, selected) then [t] else [])
  }

  /** For a closed selection, a declared table is kept exactly when its own name is selected. */
  lemma {:induction false} KeptExactly(
      sources: seq<seq<Table>>, all: seq<Table>, ts: seq<Table>, selected: set<string>, t: Table)
    requires Closed(sources, selected) && all in sources && (forall u :: u in ts ==> u in all)
    ensures t in Kept(ts, selected) <==> t in ts && Key(t.name) in selected
  {
    hide Key, ExtensionBase;
    if ts != [] {
      var last := ts[|ts| - 1];
      assert ts == ts[..|ts| - 1] + [last];
      KeptExactly(sources, all, ts[..|ts| - 1], selected, t);
      assert last in all;
      assert SelectedTable(last.name, selected) <==> Key(last.name) in selected;
    }
  }

  function Projected(sources: seq<seq<Table>>, selected: set<string>): (r: seq<seq<Table>>)
    ensures |r| == |sources| && forall i :: 0 <= i < |r| ==> r[i] == Kept(sources[i], selected)
  {
    seq(|sources|, i requires 0 <= i < |sources| => Kept(sources[i], selected))
  }

  /** Selecting again from what was kept selects the same tables. */
  lemma SelectingAgain(sources: seq<seq<Table>>, seeds: set<string>, selected: set<string>, again: set<string>)
    requires IsSelection(sources, seeds, selected) && IsSelection(Projected(sources, selected), seeds, again)
    ensures again == selected
  {
    hide Follows, Kept, Key;
    var kept := Projected(sources, selected);
    assert Closed(kept, selected) by {
      forall s, t | s in kept && t in s && Follows(t, selected)
        ensures Key(t.name) in selected
      {
        var i :| 0 <= i < |kept| && kept[i] == s;
        KeptExactly(sources, sources[i], sources[i], selected, t);
      }
    }
    assert again <= selected;
    assert Closed(sources, again) by {
      forall s, t | s in sources && t in s && Follows(t, again)
        ensures Key(t.name) in again
      {
        var i :| 0 <= i < |sources| && sources[i] == s;
        FollowsIfMore(t, again, selected);
        KeptExactly(sources, s, s, selected, t);
        assert t in kept[i] && kept[i] in kept;
      }
    }
  }
}
