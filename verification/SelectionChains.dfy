/**
 * The selection of tables, step by step: a table is selected exactly when a finite chain of
 * owners and extension bases leads from a seed to it.
 */
module SelectionChains {
  import opened Names
  import opened Outcomes
  import opened PhysicalIndex
  import opened Scalars
  import opened ScalarText
  import opened TableSelection

  // ---- keys ----

  /** The key of a name: one leading underscore dropped, ASCII capitals made small, the rest as it is. */
  predicate KeyIs(name: string, key: string) {
    if name != "" && name[0] == '_' then LowersTo(name[1..], key) else LowersTo(name, key)
  }

  lemma KeyExactly(name: string, key: string)
    ensures Key(name) == key <==> KeyIs(name, key)
  {
    hide AsciiLowerAll, LowersTo;
    AsciiLowerExactly(StripUnderscore(name), key);
  }

  // ---- steps ----

  /** From the owner of a table to the table. */
  predicate OwnerStep(t: Table, from: string, to: string) {
    t.owner.Some? && KeyIs(t.owner.value, from) && KeyIs(t.name, to)
  }

  /** A name made of n characters that end in a digit, an X, and a number. */
  predicate Extends(name: string, n: nat) {
    && 0 < n && n + 1 < |name| && '0' <= name[n - 1] <= '9' && (name[n] == 'X' || name[n] == 'x')
    && forall i :: n < i < |name| ==> '0' <= name[i] <= '9'
  }

  /** From the table an extension table extends to that one. */
  predicate BaseStep(t: Table, from: string, to: string) {
    exists n: nat :: n < |t.name| && Extends(t.name, n) && KeyIs(t.name[..n], from) && KeyIs(t.name, to)
  }

  ghost predicate Step(sources: seq<seq<Table>>, from: string, to: string) {
    exists s, t :: s in sources && t in s && (OwnerStep(t, from, to) || BaseStep(t, from, to))
  }

  /** Keys that lead from a seed, each to the next by a declared table. */
  ghost predicate Chain(sources: seq<seq<Table>>, seeds: set<string>, path: seq<string>) {
    path != [] && path[0] in seeds && forall i :: 0 <= i < |path| - 1 ==> Step(sources, path[i], path[i + 1])
  }

  ghost predicate Reached(sources: seq<seq<Table>>, seeds: set<string>, key: string) {
    exists path :: Chain(sources, seeds, path) && path[|path| - 1] == key
  }

  lemma ExtensionStep(t: Table, from: string)
    ensures (ExtensionBase(t.name).Some? && Key(ExtensionBase(t.name).value) == from)
       <==> BaseStep(t, from, Key(t.name))
  {
    hide Key, KeyIs, ExtensionBase;
    KeyExactly(t.name, Key(t.name));
    if ExtensionBase(t.name).Some? {
      var base := ExtensionBase(t.name).value;
      ExtensionBaseExact(t.name, base);
      assert t.name[..|base|] == base;
      assert Extends(t.name, |base|) by { Digits(t.name, base); }
      KeyExactly(base, from);
    }
    if BaseStep(t, from, Key(t.name)) {
      var n: nat :| n < |t.name| && Extends(t.name, n) && KeyIs(t.name[..n], from) && KeyIs(t.name, Key(t.name));
      ExtensionBaseExact(t.name, t.name[..n]);
      KeyExactly(t.name[..n], from);
    }
  }

  lemma Digits(name: string, base: string)
    requires IsExtensionOf(name, base)
    ensures Extends(name, |base|)
  {
    assert name[|base| - 1] == base[|base| - 1];
  }

  /** A table follows a set exactly when a step leads to it from a key of the set. */
  lemma FollowsByStep(t: Table, selected: set<string>)
    ensures Follows(t, selected)
       <==> exists from :: from in selected && (OwnerStep(t, from, Key(t.name)) || BaseStep(t, from, Key(t.name)))
  {
    hide Key, KeyIs, ExtensionBase, BaseStep;
    KeyExactly(t.name, Key(t.name));
    if t.owner.Some? {
      KeyExactly(t.owner.value, Key(t.owner.value));
    }
    if ExtensionBase(t.name).Some? {
      ExtensionStep(t, Key(ExtensionBase(t.name).value));
    }
    if exists from :: from in selected && (OwnerStep(t, from, Key(t.name)) || BaseStep(t, from, Key(t.name))) {
      var from :| from in selected && (OwnerStep(t, from, Key(t.name)) || BaseStep(t, from, Key(t.name)));
      if t.owner.Some? {
        KeyExactly(t.owner.value, from);
      }
      ExtensionStep(t, from);
    }
  }

  // ---- the selection ----

  /** A closed set with the seeds holds every key a chain reaches. */
  lemma {:induction false} ChainStays(
      sources: seq<seq<Table>>, seeds: set<string>, selected: set<string>, path: seq<string>)
    requires seeds <= selected && Closed(sources, selected) && Chain(sources, seeds, path)
    ensures path[|path| - 1] in selected
    decreases |path|
  {
    hide OwnerStep, BaseStep, Follows, Key;
    if |path| > 1 {
      var front := path[..|path| - 1];
      ChainStays(sources, seeds, selected, front);
      var from, to := front[|front| - 1], path[|path| - 1];
      assert Step(sources, path[|path| - 2], path[|path| - 2 + 1]);
      var s, t :| s in sources && t in s && (OwnerStep(t, from, to) || BaseStep(t, from, to));
      StepTo(t, from, to);
      FollowsByStep(t, selected);
    }
  }

  lemma StepTo(t: Table, from: string, to: string)
    requires OwnerStep(t, from, to) || BaseStep(t, from, to)
    ensures to == Key(t.name)
  {
    hide Key, KeyIs;
    KeyExactly(t.name, to);
  }

  lemma ChainGrows(sources: seq<seq<Table>>, seeds: set<string>, from: string, to: string)
    requires Reached(sources, seeds, from) && Step(sources, from, to)
    ensures Reached(sources, seeds, to)
  {
    hide Step;
    var path :| Chain(sources, seeds, path) && path[|path| - 1] == from;
    var longer := path + [to];
    assert Chain(sources, seeds, longer) && longer[|longer| - 1] == to;
  }

  lemma SeedIsReached(sources: seq<seq<Table>>, seeds: set<string>, key: string)
    requires key in seeds
    ensures Reached(sources, seeds, key)
  {
    assert Chain(sources, seeds, [key]);
  }

  /** The tables selected are exactly those that chains of owners and bases reach from the seeds. */
  lemma SelectionExactly(sources: seq<seq<Table>>, seeds: set<string>, selected: set<string>)
    requires IsSelection(sources, seeds, selected)
    ensures forall key :: key in selected <==> Reached(sources, seeds, key)
  {
    hide Reached, Follows, Key, OwnerStep, BaseStep;
    ghost var reached := set key | key in selected && Reached(sources, seeds, key);
    forall key | key in seeds
      ensures key in reached
    {
      SeedIsReached(sources, seeds, key);
    }
    forall s, t | s in sources && t in s && Follows(t, reached)
      ensures Key(t.name) in reached
    {
      FollowsByStep(t, reached);
      var from :| from in reached && (OwnerStep(t, from, Key(t.name)) || BaseStep(t, from, Key(t.name)));
      ChainGrows(sources, seeds, from, Key(t.name));
      FollowsIfMore(t, reached, selected);
    }
    assert Closed(sources, reached);
    forall key | Reached(sources, seeds, key)
      ensures key in selected
    {
      ReachedIsSelected(sources, seeds, selected, key);
    }
  }

  lemma ReachedIsSelected(sources: seq<seq<Table>>, seeds: set<string>, selected: set<string>, key: string)
    requires seeds <= selected && Closed(sources, selected) && Reached(sources, seeds, key)
    ensures key in selected
  {
    hide Closed, Step;
    var path :| Chain(sources, seeds, path) && path[|path| - 1] == key;
    ChainStays(sources, seeds, selected, path);
  }

  /** The owned tables and the extension tables of a selected table are selected. */
  lemma StepsStay(sources: seq<seq<Table>>, seeds: set<string>, selected: set<string>, from: string, to: string)
    requires IsSelection(sources, seeds, selected) && from in selected && Step(sources, from, to)
    ensures to in selected
  {
    hide Reached, IsSelection, Step;
    SelectionExactly(sources, seeds, selected);
    ChainGrows(sources, seeds, from, to);
  }

  // ---- equal names ----

  predicate AllAscii(s: string) {
    forall i :: 0 <= i < |s| ==> s[i] as int < 0x80
  }

  /** Two ASCII names are the same in small letters; any others are when the table lowers them alike. */
  predicate SameName(a: string, b: string, lower: LowerTable) {
    if AllAscii(a) && AllAscii(b)
    then |a| == |b| && forall i :: 0 <= i < |a| ==> a[i] == b[i] || Lowers(a[i], b[i]) || Lowers(b[i], a[i])
    else LowerAll(a, lower) == LowerAll(b, lower)
  }

  lemma SameNameExactly(a: string, b: string, lower: LowerTable)
    ensures NamesEqual(a, b, lower) <==> SameName(a, b, lower)
  {
    hide AsciiLower, Lowers;
    if |a| == |b| {
      forall i | 0 <= i < |a|
        ensures AsciiLower(a[i]) == AsciiLower(b[i]) <==> a[i] == b[i] || Lowers(a[i], b[i]) || Lowers(b[i], a[i])
      {
        SameLetter(a[i], b[i]);
      }
    }
  }

  lemma SameLetter(c: char, d: char)
    ensures AsciiLower(c) == AsciiLower(d) <==> c == d || Lowers(c, d) || Lowers(d, c)
  {
  }

  // ---- the table of an object ----

  /** A table answers to an alias, to the alias with the number, or as the extra dimension of the number. */
  predicate Answers(t: Table, entry: Entry, kind: Kind, lower: LowerTable) {
    || SameName(t.name, entry.alias, lower)
    || SameName(t.name, entry.alias + Decimal(entry.number), lower)
    || (kind == ExtraDimension && t.number == entry.number && t.inlineName.Some?
        && SameName(t.inlineName.value, "ExtDim" + Decimal(entry.number), lower))
  }

  /** The table of an object: prefix and number, or the first table that answers, with an underscore before its name. */
  predicate IsTableOf(ts: seq<Table>, entry: Entry, kind: Kind, lower: LowerTable, name: string) {
    if kind.Plain? then name == kind.prefix + Decimal(entry.number)
    else
      exists k :: 0 <= k < |ts| && Answers(ts[k], entry, kind, lower) && name == ['_'] + ts[k].name
                  && forall i :: 0 <= i < k ==> !Answers(ts[i], entry, kind, lower)
  }

  lemma AnswersExactly(t: Table, entry: Entry, kind: Kind, lower: LowerTable)
    ensures Matches(t, entry, kind, lower) <==> Answers(t, entry, kind, lower)
  {
    hide NamesEqual, SameName;
    SameNameExactly(t.name, entry.alias, lower);
    SameNameExactly(t.name, entry.alias + Decimal(entry.number), lower);
    if t.inlineName.Some? {
      SameNameExactly(t.inlineName.value, "ExtDim" + Decimal(entry.number), lower);
    }
  }

  lemma {:induction false} ScanFinds(ts: seq<Table>, i: nat, entry: Entry, kind: Kind, lower: LowerTable)
    returns (k: nat)
    requires i <= |ts|
    ensures i <= k <= |ts| && forall j :: i <= j < k ==> !Answers(ts[j], entry, kind, lower)
    ensures if k == |ts| then Scan(ts, i, entry, kind, lower) == None
            else Answers(ts[k], entry, kind, lower) && Scan(ts, i, entry, kind, lower) == Some("_" + ts[k].name)
    decreases |ts| - i
  {
    hide Matches, Answers;
    k := i;
    if i < |ts| {
      AnswersExactly(ts[i], entry, kind, lower);
      if !Answers(ts[i], entry, kind, lower) {
        k := ScanFinds(ts, i + 1, entry, kind, lower);
      }
    }
  }

  lemma TableExactly(ts: seq<Table>, entry: Entry, kind: Kind, lower: LowerTable, name: string)
    ensures PlainTableForEntry(ts, entry, kind, lower) == Some(name) <==> IsTableOf(ts, entry, kind, lower, name)
  {
    hide Scan, Answers;
    if !kind.Plain? {
      var k := ScanFinds(ts, 0, entry, kind, lower);
    }
  }

  // ---- the seeds ----

  /** The live catalogue or a schema knows the storage; a schema knows it without the leading underscore. */
  predicate Exists(name: string, live: seq<string>, sources: seq<Source>, lower: LowerTable) {
    || (exists t :: t in live && SameName(t, name, lower))
    || (exists s, t :: s in sources && t in s.tables && SameName(t.name, Bare(name), lower))
  }

  /** A name without the underscore before it. */
  function Bare(name: string): (bare: string) {
    if name != "" && name[0] == '_' then name[1..] else name
  }

  lemma {:induction false} RowScanFinds(ts: seq<Table>, i: nat, name: string, lower: LowerTable)
    requires i <= |ts|
    ensures RowScan(ts, i, name, lower).Some? <==> exists k :: i <= k < |ts| && SameName(ts[k].name, name, lower)
    decreases |ts| - i
  {
    hide NamesEqual, SameName;
    if i < |ts| {
      SameNameExactly(ts[i].name, name, lower);
      RowScanFinds(ts, i + 1, name, lower);
    }
  }

  lemma ExistsExactly(name: string, live: seq<string>, sources: seq<Source>, lower: LowerTable)
    ensures StorageExists(name, live, sources, lower) <==> Exists(name, live, sources, lower)
  {
    hide NamesEqual, SameName, RowScan;
    forall t
      ensures NamesEqual(t, name, lower) <==> SameName(t, name, lower)
    {
      SameNameExactly(t, name, lower);
    }
    forall s: Source
      ensures RowScan(s.tables, 0, StripUnderscore(name), lower).Some?
         <==> exists t :: t in s.tables && SameName(t.name, Bare(name), lower)
    {
      RowScanFinds(s.tables, 0, Bare(name), lower);
    }
  }

  /** A seed: the key of a storage that exists, or of the table of a selected object, by its own schema or the first. */
  ghost predicate Seeds(
      sources: seq<Source>, guids: set<Guid>, storages: seq<string>, live: seq<string>, lower: LowerTable, key: string)
    requires sources != []
  {
    || (exists name :: name in storages && Exists(name, live, sources, lower) && KeyIs(name, key))
    || (exists i, j ::
          && 0 <= i < |sources| && 0 <= j < |sources[i].entries| && ObjectSeed(sources, i, j, guids, lower, key))
  }

  ghost predicate ObjectSeed(sources: seq<Source>, i: nat, j: nat, guids: set<Guid>, lower: LowerTable, key: string)
    requires i < |sources| && j < |sources[i].entries|
  {
    var (entry, kind) := sources[i].entries[j];
    && entry.guid in guids
    && exists name :: KeyIs(name, key)
         && (|| IsTableOf(sources[i].tables, entry, kind, lower, name)
             || ((forall other :: !IsTableOf(sources[i].tables, entry, kind, lower, other))
                 && IsTableOf(sources[0].tables, entry, kind, lower, name)))
  }

  lemma SeedExactly(sources: seq<Source>, i: nat, j: nat, guids: set<Guid>, lower: LowerTable, key: string)
    requires i < |sources| && j < |sources[i].entries|
    ensures SeedAt(sources, i, j, guids, lower, key) <==> ObjectSeed(sources, i, j, guids, lower, key)
  {
    hide PlainTableForEntry, IsTableOf, Key, KeyIs;
    var (entry, kind) := sources[i].entries[j];
    forall name
      ensures PlainTableForEntry(sources[i].tables, entry, kind, lower) == Some(name)
         <==> IsTableOf(sources[i].tables, entry, kind, lower, name)
      ensures PlainTableForEntry(sources[0].tables, entry, kind, lower) == Some(name)
         <==> IsTableOf(sources[0].tables, entry, kind, lower, name)
      ensures Key(name) == key <==> KeyIs(name, key)
    {
      TableExactly(sources[i].tables, entry, kind, lower, name);
      TableExactly(sources[0].tables, entry, kind, lower, name);
      KeyExactly(name, key);
    }
    var own := PlainTableForEntry(sources[i].tables, entry, kind, lower);
    var first := PlainTableForEntry(sources[0].tables, entry, kind, lower);
    assert own.Some? ==> IsTableOf(sources[i].tables, entry, kind, lower, own.value);
    assert first.Some? ==> IsTableOf(sources[0].tables, entry, kind, lower, first.value);
  }

  lemma SeedsExactly(
      sources: seq<Source>, guids: set<Guid>, storages: seq<string>, live: seq<string>, lower: LowerTable, key: string)
    requires sources != []
    ensures key in StorageKeys(storages, live, sources, lower) || IsSeed(sources, |sources|, guids, lower, key)
       <==> Seeds(sources, guids, storages, live, lower, key)
  {
    hide SeedAt, ObjectSeed, StorageExists, Exists, Key, KeyIs;
    forall name
      ensures StorageExists(name, live, sources, lower) && Key(name) == key
         <==> Exists(name, live, sources, lower) && KeyIs(name, key)
    {
      ExistsExactly(name, live, sources, lower);
      KeyExactly(name, key);
    }
    forall i, j | 0 <= i < |sources| && 0 <= j < |sources[i].entries|
      ensures SeedAt(sources, i, j, guids, lower, key) <==> ObjectSeed(sources, i, j, guids, lower, key)
    {
      SeedExactly(sources, i, j, guids, lower, key);
    }
  }

  // ---- the whole selection ----

  /** The seeds are the keys of storages and objects, and what is selected is what chains reach from them. */
  ghost predicate Selects(
      sources: seq<Source>, guids: set<Guid>, storages: seq<string>, live: seq<string>, lower: LowerTable,
      seeds: set<string>, selected: set<string>)
    requires sources != []
  {
    && (forall key :: key in seeds <==> Seeds(sources, guids, storages, live, lower, key))
    && (forall key :: key in selected <==> Reached(Schemas(sources), seeds, key))
  }

  /** The tables selected are exactly those that chains reach from the keys of storages and objects. */
  method SelectByChains(
      sources: seq<Source>, guids: set<Guid>, storages: seq<string>, live: seq<string>, lower: LowerTable)
    returns (selected: set<string>)
    requires sources != [] && AgreesOnAscii(lower)
    ensures exists seeds :: Selects(sources, guids, storages, live, lower, seeds, selected)
  {
    hide IsSelection, IsSeed, StorageKeys, AgreesOnAscii, Seeds, Reached;
    selected := SelectTables(sources, guids, storages, live, lower);
    ghost var seeds :| SelectedFrom(sources, guids, storages, live, lower, seeds, selected);
    forall key
      ensures key in seeds <==> Seeds(sources, guids, storages, live, lower, key)
    {
      SeedsExactly(sources, guids, storages, live, lower, key);
    }
    SelectionExactly(Schemas(sources), seeds, selected);
    assert Selects(sources, guids, storages, live, lower, seeds, selected);
  }

  // ---- the projection ----

  /** A table is kept by the key of its own name or of the table it extends. */
  ghost predicate KeptBy(t: Table, selected: set<string>) {
    exists key :: key in selected && (KeyIs(t.name, key) || BaseKeyIs(t.name, key))
  }

  /** The key of the table an extension table extends. */
  ghost predicate BaseKeyIs(name: string, key: string) {
    exists n: nat :: n < |name| && Extends(name, n) && KeyIs(name[..n], key)
  }

  lemma BaseKeyExactly(t: Table, key: string)
    ensures ExtensionBase(t.name).Some? && Key(ExtensionBase(t.name).value) == key <==> BaseKeyIs(t.name, key)
  {
    hide Key, KeyIs, Extends, ExtensionBase;
    ExtensionStep(t, key);
    KeyExactly(t.name, Key(t.name));
  }

  lemma KeptByExactly(t: Table, selected: set<string>)
    ensures SelectedTable(t.name, selected) <==> KeptBy(t, selected)
  {
    hide Key, KeyIs, BaseKeyIs, ExtensionBase;
    KeyExactly(t.name, Key(t.name));
    if ExtensionBase(t.name).Some? {
      BaseKeyExactly(t, Key(ExtensionBase(t.name).value));
    }
    if KeptBy(t, selected) {
      var key :| key in selected && (KeyIs(t.name, key) || BaseKeyIs(t.name, key));
      KeyExactly(t.name, key);
      BaseKeyExactly(t, key);
    }
  }

  /** What is kept of some tables: those, in order, whose key or base's key is selected. */
  lemma {:induction false} ProjectionExactly(a: seq<Table>, t: Table, b: seq<Table>, selected: set<string>)
    ensures Kept(a + [t] + b, selected)
         == Kept(a, selected) + (if KeptBy(t, selected) then [t] else []) + Kept(b, selected)
    decreases |b|
  {
    hide SelectedTable, KeptBy;
    var all := a + [t] + b;
    if b == [] {
      KeptByExactly(t, selected);
      assert all[..|all| - 1] == a;
    } else {
      var front := b[..|b| - 1];
      assert all[..|all| - 1] == a + [t] + front;
      ProjectionExactly(a, t, front, selected);
    }
  }
}
