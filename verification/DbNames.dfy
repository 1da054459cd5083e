/**
 * The streaming DBNames parser of src/metadata/db_names.rs: one pass over the text that
 * keeps only the entries, against the pre-order walk of the parsed tree.
 */
module DbNames {
  import opened Outcomes
  import opened BraceText
  import opened ValueTree
  import opened Scalars

  // ---- the walk of the tree ----

  /** The entry a list of three values stands for. */
  function EntryOf(values: seq<Value>): (r: Option<Entry>)
    ensures r.Some? ==> |values| == 3 && (forall i :: 0 <= i < 3 ==> !values[i].List?)
  {
    if |values| != 3 then None
    else
      var guid, alias, number := values[0].AsStr(), values[1].AsString(), values[2].AsAtom();
      if guid.None? || alias.None? || number.None? then None
      else MakeEntry(guid.value, alias.value, number.value)
  }

  function MakeEntry(guid: string, alias: string, number: string): (r: Option<Entry>)
  {
    var n, g := ParseU32(number), ParseGuid(guid);
    if n.Some? && n.value > 0 && g.Some? then Some(Entry(g.value, alias, n.value)) else None
  }

  /** Every entry of a tree, a list's own entry before those inside it. */
  function Walk(v: Value): (entries: seq<Entry>)
    decreases v, 1
  {
    if v.List? then OptionToSeq(EntryOf(v.items)) + WalkAll(v.items) else []
  }

  function WalkAll(values: seq<Value>): (entries: seq<Entry>)
    decreases values, 0
  {
    if values == [] then [] else Walk(values[0]) + WalkAll(values[1..])
  }

  lemma {:induction false} WalkAllSnoc(values: seq<Value>, v: Value)
    ensures WalkAll(values + [v]) == WalkAll(values) + Walk(v)
  {
    if values == [] {
      assert [v][1..] == [];
    } else {
      assert (values + [v])[1..] == values[1..] + [v];
      WalkAllSnoc(values[1..], v);
    }
  }

  /** A list that is an entry has no lists in it, so pre-order and post-order agree. */
  lemma EntryListsAreFlat(values: seq<Value>)
    requires EntryOf(values).Some?
    ensures WalkAll(values) == []
  {
    assert values == [values[0], values[1], values[2]];
    WalkAllSnoc([values[0], values[1]], values[2]);
    WalkAllSnoc([values[0]], values[1]);
    WalkAllSnoc([], values[0]);
  }

  // ---- the streaming parser ----

  /** What the parser keeps of a value it has read. */
  datatype Candidate = CAtom(text: string) | CString(text: string) | COther

  function Kept(v: Value): (c: Candidate) {
    match v
    case Atom(text) => CAtom(text)
    case Str(text) => CString(text)
    case _ => COther
  }

  /** The slot of a value: omitted values leave it empty. */
  function SlotOf(values: seq<Value>, i: nat): (c: Option<Candidate>) {
    if i < |values| && values[i] != Null then Some(Kept(values[i])) else None
  }

  /** The entry of three filled slots. */
  function EntryOfSlots(slots: seq<Option<Candidate>>): (r: Option<Entry>)
    requires |slots| == 3
  {
    if slots[0].None? || slots[1].None? || slots[2].None? then None
    else if slots[0].value.COther? || !slots[1].value.CString? || !slots[2].value.CAtom? then None
    else MakeEntry(slots[0].value.text, slots[1].value.text, slots[2].value.text)
  }

  /** What the parser holds after some values of a list: three slots, and the entries inside the values. */
  ghost predicate Holds(values: seq<Value>, slots: seq<Option<Candidate>>, items: seq<Entry>, before: seq<Entry>) {
    && |slots| == 3 && (forall i :: 0 <= i < 3 ==> slots[i] == SlotOf(values, i))
    && items == before + WalkAll(values)
  }

  lemma HoldsNothing(before: seq<Entry>)
    ensures Holds([], [None, None, None], before, before)
  {
    assert before + WalkAll([]) == before;
  }

  lemma HoldsNull(values: seq<Value>, slots: seq<Option<Candidate>>, items: seq<Entry>, before: seq<Entry>)
    requires Holds(values, slots, items, before)
    ensures Holds(values + [Null], slots, items, before)
  {
    WalkAllSnoc(values, Null);
  }

  lemma HoldsValue(values: seq<Value>, v: Value, slots: seq<Option<Candidate>>, items: seq<Entry>, before: seq<Entry>)
    requires Holds(values, slots, items, before) && v != Null
    ensures var next := if |values| < 3 then slots[|values| := Some(Kept(v))] else slots;
            Holds(values + [v], next, items + Walk(v), before)
  {
    hide Walk, WalkAll, Kept;
    WalkAllSnoc(values, v);
    assert before + WalkAll(values) + Walk(v) == before + (WalkAll(values) + Walk(v));
  }

  lemma HoldsAll(values: seq<Value>, slots: seq<Option<Candidate>>, items: seq<Entry>, before: seq<Entry>)
    requires Holds(values, slots, items, before)
    ensures |slots| == 3
    ensures var own := if |values| == 3 then OptionToSeq(EntryOfSlots(slots)) else [];
            items + own == before + Walk(List(values))
  {
    if |values| == 3 {
      assert EntryOfSlots(slots) == EntryOf(values);
    }
    if EntryOf(values).Some? {
      EntryListsAreFlat(values);
    }
  }

  class EntryVector {
    var items: seq<Entry>

    constructor ()
      ensures items == []
    {
      items := [];
    }
  }

  class DbNamesParser {
    const cursor: TextCursor
    const entries: EntryVector

    constructor (input: string)
      ensures fresh(cursor) && fresh(entries) && cursor.Valid()
      ensures cursor.input == input && cursor.offset == 0 && entries.items == []
    {
      cursor := new TextCursor(input);
      entries := new EntryVector();
    }

    method ParseOne(depth: nat) returns (r: Result<Candidate, ParseError>)
      requires cursor.Valid()
      modifies cursor, entries
      ensures cursor.Valid()
      ensures match ParseValue(cursor.input, old(cursor.offset), depth)
              case Ok((v, p)) => r == Ok(Kept(v)) && cursor.offset == p && entries.items == old(entries.items) + Walk(v)
              case Err(e) => r == Err(e)
      decreases |cursor.input| - cursor.offset, 1
    {
      var current := cursor.Current();
      if current == None {
        return Fault(cursor.offset, UnexpectedEnd);
      } else if current.value == '{' {
        r := ParseBraces(depth);
      } else if current.value == '"' {
        var s :- cursor.ReadString();
        return Ok(CString(s));
      } else if current.value == ',' || current.value == '}' {
        return Ok(COther);
      } else {
        var s :- cursor.ReadAtom();
        return Ok(CAtom(s));
      }
    }

    method ParseBraces(depth: nat) returns (r: Result<Candidate, ParseError>)
      requires cursor.Valid() && cursor.offset < |cursor.input|
      modifies cursor, entries
      ensures cursor.Valid()
      ensures match ParseList(cursor.input, old(cursor.offset), depth)
              case Ok((values, p)) => r == Ok(COther) && cursor.offset == p
                                   && entries.items == old(entries.items) + Walk(List(values))
              case Err(e) => r == Err(e)
      decreases |cursor.input| - cursor.offset, 0
    {
      hide Holds, ParseValue, Walk, WalkAll, EntryOfSlots, Kept, SkipSpaces, Skippable, StringTail, AtomText;
      if depth >= NESTING_LIMIT {
        return Fault(cursor.offset, NestingTooDeep);
      }
      cursor.offset := cursor.offset + 1;
      cursor.SkipWhitespace();
      var slots: seq<Option<Candidate>> := [None, None, None];
      var valueCount := 0;
      var expecting := true;
      ghost var start, before, values := cursor.offset, entries.items, [];
      HoldsNothing(before);
      while true
        invariant cursor.Valid() && start <= cursor.offset && valueCount == |values|
        invariant |slots| == 3 && Holds(values, slots, entries.items, before)
        invariant ParseItems(cursor.input, cursor.offset, depth, values, expecting)
               == ParseItems(cursor.input, start, depth, [], true)
        decreases |cursor.input| - cursor.offset
      {
        cursor.SkipWhitespace();
        var current := cursor.Current();
        if current == None {
          return Fault(cursor.offset, UnterminatedList);
        } else if current.value == '}' {
          if expecting && valueCount != 0 {
            HoldsNull(values, slots, entries.items, before);
            values := values + [Null];
            valueCount := valueCount + 1;
          }
          cursor.offset := cursor.offset + 1;
          break;
        } else if current.value == ',' {
          if expecting {
            HoldsNull(values, slots, entries.items, before);
            values := values + [Null];
            valueCount := valueCount + 1;
          }
          cursor.offset := cursor.offset + 1;
          expecting := true;
        } else if expecting {
          ghost var from := cursor.offset;
          ghost var items := entries.items;
          var candidate :- ParseOne(depth + 1);
          ghost var v := ParseValue(cursor.input, from, depth + 1).value.0;
          ParsedNotNull(cursor.input, from, depth + 1);
          HoldsValue(values, v, slots, items, before);
          values := values + [v];
          if valueCount < |slots| {
            slots := slots[valueCount := Some(candidate)];
          }
          valueCount := valueCount + 1;
          expecting := false;
        } else {
          return Fault(cursor.offset, ExpectedSeparator);
        }
      }
      HoldsAll(values, slots, entries.items, before);
      if valueCount == 3 {
        var entry := EntryOfSlots(slots);
        if entry.Some? {
          entries.items := entries.items + [entry.value];
        }
      }
      return Ok(COther);
    }

    /** The whole input: one value with nothing but white space around it. */
    method Parse() returns (r: Result<seq<Entry>, ParseError>)
      requires cursor.Valid() && cursor.offset == 0 && entries.items == []
      modifies cursor, entries
      ensures match ParseSerialized(cursor.input)
              case Ok(v) => r == Ok(Walk(v))
              case Err(e) => r == Err(e)
    {
      cursor.SkipWhitespace();
      if cursor.offset == |cursor.input| {
        return Fault(cursor.offset, EmptyText);
      }
      ghost var from := cursor.offset;
      var _ :- ParseOne(0);
      assert entries.items == Walk(ParseValue(cursor.input, from, 0).value.0);
      cursor.SkipWhitespace();
      if cursor.offset != |cursor.input| {
        return Fault(cursor.offset, TrailingText);
      }
      return Ok(entries.items);
    }
  }

  /** Entries of a text: those of its tree, or the tree parser's diagnostic. */
  method ParseDbNameEntries(text: string) returns (r: Result<seq<Entry>, ParseError>)
    ensures match ParseSerialized(text)
            case Ok(v) => r == Ok(Walk(v))
            case Err(e) => r == Err(e)
  {
    var parser := new DbNamesParser(text);
    r := parser.Parse();
  }

  /** A printed tree gives the entries of its walk. */
  method EntriesOfPrinted(v: Value) returns (r: Result<seq<Entry>, ParseError>)
    requires Printable(v, 0) && v != Null
    ensures r == Ok(Walk(v))
  {
    PrintThenParse(v);
    r := ParseDbNameEntries(Print(v));
  }
}
