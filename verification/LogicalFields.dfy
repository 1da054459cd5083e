/** The logical fields of a table: its columns grouped by their names without compound suffixes. */
module LogicalFields {
  import Recasing

  const SUFFIXES: seq<string> := [
    "_RRRef", "_RTRef", "_TYPE", "_RRef", "_TRef", "_L", "_N", "_T", "_S", "_R", "RRRef", "RTRef", "RRef", "TRef"]

  predicate EndsWith(s: string, suffix: string) {
    |suffix| <= |s| && s[|s| - |suffix|..] == suffix
  }

  /** The name before the first suffix of the list it ends with. */
  function WithoutSuffix(column: string, suffixes: seq<string>): (base: string)
  {
    if suffixes == [] then column
    else if EndsWith(column, suffixes[0]) then column[..|column| - |suffixes[0]|]
    else WithoutSuffix(column, suffixes[1..])
  }

  /** The logical name of a canonical column; a bare type member belongs to the field of that name. */
  function LogicalName(canonical: string): (name: string)
    ensures name != ""
  {
    var base := WithoutSuffix(canonical, SUFFIXES);
    var trimmed := if base != "" && base[0] == '_' then base[1..] else base;
    if trimmed == "" then "Type" else trimmed
  }

  datatype LogicalField = LogicalField(name: string, columns: seq<string>)

  // ---- grouping ----

  /** The columns of a logical name, in order. */
  function Members(columns: seq<string>, name: string): (m: seq<string>)
    ensures forall c :: c in m ==> c in columns && LogicalName(c) == name
  {
    if columns == [] then []
    else
      var last := columns[|columns| - 1];
      Members(columns[..|columns| - 1], name) + (if LogicalName(last) == name then [last] else [])
  }

  /** The logical names in the order they first appear. */
  function Names(columns: seq<string>): (names: seq<string>)
    ensures forall n :: n in names <==> exists i :: 0 <= i < |columns| && LogicalName(columns[i]) == n
  {
    if columns == [] then []
    else
      var before, name := Names(columns[..|columns| - 1]), LogicalName(columns[|columns| - 1]);
      assert columns == columns[..|columns| - 1] + [columns[|columns| - 1]];
      if name in before then before else before + [name]
  }

  function Fields(columns: seq<string>): (fields: seq<LogicalField>)
    ensures |fields| == |Names(columns)|
  {
    var names := Names(columns);
    seq(|names|, i requires 0 <= i < |names| => LogicalField(names[i], Members(columns, names[i])))
  }

  function Recased(columns: seq<string>): (r: seq<string>)
    ensures |r| == |columns| && forall i :: 0 <= i < |r| ==> r[i] == Recasing.Canonical(columns[i])
  {
    seq(|columns|, i requires 0 <= i < |columns| => Recasing.Canonical(columns[i]))
  }

  // ---- what the grouping is ----

  lemma {:induction false} NamesAreDistinct(columns: seq<string>)
    ensures forall i, j :: 0 <= i < j < |Names(columns)| ==> Names(columns)[i] != Names(columns)[j]
  {
    hide LogicalName;
    if columns != [] {
      NamesAreDistinct(columns[..|columns| - 1]);
    }
  }

  /** The place a logical name first appears at. */
  function FirstPlace(columns: seq<string>, name: string): (i: nat)
    ensures i <= |columns| && (i < |columns| ==> LogicalName(columns[i]) == name)
    ensures forall j :: 0 <= j < i ==> LogicalName(columns[j]) != name
  {
    if columns == [] then 0
    else
      var before := FirstPlace(columns[..|columns| - 1], name);
      if before < |columns| - 1 || LogicalName(columns[|columns| - 1]) == name then before else |columns|
  }

  lemma {:induction false} FirstPlaceKept(columns: seq<string>, name: string)
    requires columns != [] && FirstPlace(columns[..|columns| - 1], name) < |columns| - 1
    ensures FirstPlace(columns, name) == FirstPlace(columns[..|columns| - 1], name)
  {
  }

  lemma NamePlaced(columns: seq<string>, name: string)
    requires name in Names(columns)
    ensures FirstPlace(columns, name) < |columns|
  {
  }

  /** Names stand in the order of their first columns. */
  lemma {:induction false} NamesInFirstOrder(columns: seq<string>, i: nat, j: nat)
    requires i < j < |Names(columns)|
    ensures FirstPlace(columns, Names(columns)[i]) < FirstPlace(columns, Names(columns)[j]) < |columns|
    decreases |columns|
  {
    hide LogicalName;
    var n := |columns| - 1;
    var before, names := Names(columns[..n]), Names(columns);
    NamesAreDistinct(columns);
    NamePlaced(columns, names[i]);
    NamePlaced(columns, names[j]);
    assert names[i] == before[i] && before[i] in before;
    NamePlaced(columns[..n], names[i]);
    FirstPlaceKept(columns, names[i]);
    if j < |before| {
      NamePlaced(columns[..n], before[j]);
      FirstPlaceKept(columns, before[j]);
      NamesInFirstOrder(columns[..n], i, j);
    }
  }

  /** How many of the columns are the given one. */
  function Occurrences(columns: seq<string>, column: string): (n: nat)
  {
    if columns == [] then 0
    else Occurrences(columns[..|columns| - 1], column) + (if columns[|columns| - 1] == column then 1 else 0)
  }

  lemma OneMoreOccurrence(columns: seq<string>, last: string, column: string)
    ensures Occurrences(columns + [last], column) == Occurrences(columns, column) + (if last == column then 1 else 0)
  {
    assert (columns + [last])[..|columns|] == columns;
  }

  lemma NoOccurrences(name: string, column: string)
    ensures Members([], name) == [] && Occurrences([], column) == 0
  {
  }

  /** Every column stands in the group of its name as often as among the columns, and in no other group. */
  lemma {:induction false} MembersArePartition(columns: seq<string>, name: string, column: string)
    ensures Occurrences(Members(columns, name), column)
         == if LogicalName(column) == name then Occurrences(columns, column) else 0
    decreases |columns|
  {
    hide LogicalName, Members, Occurrences;
    if columns == [] {
      NoOccurrences(name, column);
    } else {
      var n := |columns| - 1;
      var rest, last := columns[..n], columns[n];
      assert columns == rest + [last];
      MembersArePartition(rest, name, column);
      OneMoreMember(rest, last, name);
      OneMoreOccurrence(rest, last, column);
      OneMoreOccurrence(Members(rest, name), last, column);
      assert Members(rest, name) + [] == Members(rest, name);
    }
  }

  lemma {:induction false} GroupsAreNotEmpty(columns: seq<string>, name: string)
    ensures Members(columns, name) != [] <==> name in Names(columns)
  {
    hide LogicalName;
    if columns != [] {
      GroupsAreNotEmpty(columns[..|columns| - 1], name);
    }
  }

  /** Distinct names in the order of first appearance, each with its columns in order and at least one. */
  ghost predicate Partitions(fields: seq<LogicalField>, columns: seq<string>) {
    && (forall i, j :: 0 <= i < j < |fields| ==> fields[i].name != fields[j].name)
    && (forall i, j :: 0 <= i < j < |fields| ==>
          FirstPlace(columns, fields[i].name) < FirstPlace(columns, fields[j].name))
    && (forall i :: 0 <= i < |fields| ==> fields[i].columns == Members(columns, fields[i].name) != [])
    && (forall c :: c in columns ==> InField(fields, c))
  }

  predicate InField(fields: seq<LogicalField>, c: string) {
    exists i :: 0 <= i < |fields| && fields[i].name == LogicalName(c) && c in fields[i].columns
  }

  lemma ColumnInField(columns: seq<string>, c: string)
    requires c in columns
    ensures InField(Fields(columns), c)
  {
    hide LogicalName, Members;
    var names := Names(columns);
    assert LogicalName(c) in names;
    var i :| 0 <= i < |names| && names[i] == LogicalName(c);
    MemberOfOwn(columns, c);
    assert Fields(columns)[i].name == LogicalName(c);
  }

  /** The fields are a stable partition of the columns. */
  lemma FieldsPartition(columns: seq<string>)
    ensures Partitions(Fields(columns), columns)
  {
    hide LogicalName, FirstPlace, Members, Names, InField;
    var fields, names := Fields(columns), Names(columns);
    NamesAreDistinct(columns);
    forall i, j | 0 <= i < j < |fields|
      ensures FirstPlace(columns, fields[i].name) < FirstPlace(columns, fields[j].name)
    {
      NamesInFirstOrder(columns, i, j);
    }
    forall i | 0 <= i < |fields|
      ensures fields[i].columns != []
    {
      assert names[i] in names;
      GroupsAreNotEmpty(columns, names[i]);
    }
    forall c | c in columns
      ensures InField(fields, c)
    {
      ColumnInField(columns, c);
    }
  }

  lemma {:induction false} MemberOfOwn(columns: seq<string>, c: string)
    requires c in columns
    ensures c in Members(columns, LogicalName(c))
  {
    hide LogicalName;
    var n := |columns| - 1;
    if columns[n] != c {
      assert c in columns[..n];
      MemberOfOwn(columns[..n], c);
    }
  }

  // ---- the loop ----

  /** The names seen and the group of each. */
  ghost predicate Grouped(columns: seq<string>, order: seq<string>, groups: map<string, seq<string>>) {
    && order == Names(columns)
    && (forall name :: name in groups <==> name in order)
    && (forall name :: name in groups ==> groups[name] == Members(columns, name))
  }

  lemma OneMoreMember(columns: seq<string>, c: string, name: string)
    ensures Members(columns + [c], name) == Members(columns, name) + (if LogicalName(c) == name then [c] else [])
  {
    hide LogicalName;
    assert (columns + [c])[..|columns|] == columns;
  }

  lemma OneMoreName(columns: seq<string>, c: string)
    ensures Names(columns + [c]) == Names(columns) + (if LogicalName(c) in Names(columns) then [] else [LogicalName(c)])
  {
    hide LogicalName;
    assert (columns + [c])[..|columns|] == columns;
  }

  lemma OneMoreGrouped(columns: seq<string>, c: string, order: seq<string>, groups: map<string, seq<string>>)
    requires Grouped(columns, order, groups)
    ensures var name := LogicalName(c);
            var members := if name in groups then groups[name] else [];
            Grouped(columns + [c], if name in groups then order else order + [name], groups[name := members + [c]])
  {
    hide LogicalName, Members, Names;
    OneMoreName(columns, c);
    GroupsAreNotEmpty(columns, LogicalName(c));
    forall name
      ensures Members(columns + [c], name) == Members(columns, name) + (if LogicalName(c) == name then [c] else [])
    {
      OneMoreMember(columns, c, name);
    }
  }

  lemma NothingGrouped()
    ensures Grouped([], [], map[])
  {
  }

  /** Groups the columns in one pass, with the names in the order they came. */
  method GroupColumns(columns: seq<string>) returns (order: seq<string>, groups: map<string, seq<string>>)
    ensures Grouped(Recased(columns), order, groups)
  {
    hide LogicalName, Grouped;
    order, groups := [], map[];
    ghost var recased := Recased(columns);
    assert recased[..0] == [];
    NothingGrouped();
    for i := 0 to |columns|
      invariant Grouped(recased[..i], order, groups)
    {
      var canonical := Recasing.RecaseIdentifier(columns[i]);
      var logical := LogicalName(canonical);
      assert recased[..i + 1] == recased[..i] + [canonical];
      OneMoreGrouped(recased[..i], canonical, order, groups);
      if logical !in groups {
        order := order + [logical];
      }
      var members := if logical in groups then groups[logical] else [];
      groups := groups[logical := members + [canonical]];
    }
    assert recased[..|columns|] == recased;
  }

  /** The fields of the columns, each group taken out of the map in the order of the names. */
  method CollapseLogicalFields(columns: seq<string>) returns (fields: seq<LogicalField>)
    ensures fields == Fields(Recased(columns))
    ensures Partitions(fields, Recased(columns))
  {
    hide LogicalName, Members, Names, Partitions, Grouped, Fields;
    ghost var recased := Recased(columns);
    FieldsPartition(recased);
    var order, groups := GroupColumns(columns);
    GroupsInOrder(recased, order, groups);
    fields := [];
    for i := 0 to |order|
      invariant |fields| == i
      invariant forall j :: 0 <= j < i ==> fields[j] == LogicalField(order[j], Members(recased, order[j]))
      invariant forall j :: i <= j < |order| ==> order[j] in groups && groups[order[j]] == Members(recased, order[j])
    {
      var members := if order[i] in groups then groups[order[i]] else [];
      groups := groups - {order[i]};
      fields := fields + [LogicalField(order[i], members)];
    }
    FieldsInOrder(recased, fields);
  }

  lemma GroupsInOrder(columns: seq<string>, order: seq<string>, groups: map<string, seq<string>>)
    requires Grouped(columns, order, groups)
    ensures order == Names(columns) && (forall i, j :: 0 <= i < j < |order| ==> order[i] != order[j])
    ensures forall j :: 0 <= j < |order| ==> order[j] in groups && groups[order[j]] == Members(columns, order[j])
  {
    hide Names, Members;
    NamesAreDistinct(columns);
  }

  lemma FieldsInOrder(columns: seq<string>, fields: seq<LogicalField>)
    requires |fields| == |Names(columns)|
    requires forall j :: 0 <= j < |fields| ==>
               fields[j] == LogicalField(Names(columns)[j], Members(columns, Names(columns)[j]))
    ensures fields == Fields(columns)
  {
    hide Names, Members;
  }
}
