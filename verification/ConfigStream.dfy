/**
 * The one-pass Config parser of src/metadata/config.rs: a window of the last values of
 * every open list, descriptors emitted as the window slides, and a repair of those
 * already emitted when a list turns out to declare a purpose.
 */
module ConfigStream {
  import opened Outcomes
  import opened BraceText
  import opened ValueTree
  import opened ConfigTree
  import opened ConfigAgreement

  class ProjectedVector {
    var items: seq<Projected>

    constructor ()
      ensures items == []
    {
      items := [];
    }

    /** Gives the list's purpose to the descriptors that no deeper list has claimed. */
    method RepairAll(purpose: Purpose, depth: nat)
      modifies this
      ensures items == Repair(old(items), purpose, depth)
    {
      for i := 0 to |items|
        invariant |items| == |old(items)|
        invariant forall k :: 0 <= k < i ==> items[k] == RepairOne(old(items)[k], purpose, depth)
        invariant forall k :: i <= k < |items| ==> items[k] == old(items)[k]
      {
        var p := items[i];
        if p.purposeDepth.None? || p.purposeDepth.value < depth {
          var field := if purpose.Field? then Some(purpose.field) else None;
          var descriptor := p.descriptor.(fieldPurpose := field, enumerationValue := purpose == EnumerationValue);
          items := items[i := Projected(descriptor, Some(depth))];
        }
      }
    }

    method Push(p: Option<Projected>)
      modifies this
      ensures items == old(items) + OptionToSeq(p)
    {
      if p.Some? {
        items := items + [p.value];
      }
    }
  }

  // ---- what a list has gathered ----

  /** The number of windows whose comment has been read. */
  function Complete(values: seq<Value>): (n: nat)
    ensures n == 0 || n + 3 == |values|
  {
    if |values| < 4 then 0 else |values| - 3
  }

  function KeptAll(values: seq<Value>): (w: seq<Candidate>)
    ensures |w| == |values|
  {
    seq(|values|, i requires 0 <= i < |values| => KeptOf(values[i]))
  }

  function LastThree(values: seq<Value>): (last: seq<Value>)
    ensures |last| == if |values| < 3 then |values| else 3
  {
    if |values| < 3 then values else values[|values| - 3..]
  }

  /** The last three candidates. */
  function WindowOf(values: seq<Value>): (w: seq<Candidate>)
    ensures |w| == if |values| < 3 then |values| else 3
  {
    KeptAll(LastThree(values))
  }

  /** The state of an open list after some values, as a function of those values. */
  ghost predicate Gathers(values: seq<Value>, inherited: Option<Scope>, depth: nat,
                          simple: Option<seq<Value>>, window: seq<Candidate>, scope: Option<Scope>, found: bool,
                          local: seq<Projected>, descendants: seq<Projected>) {
    && simple == (if AllScalars(values) then Some(values) else None)
    && window == WindowOf(values)
    && scope == ScopeOf(values, inherited, depth)
    && found == Declared(values).Some?
    && local == OwnProjected(values, Complete(values), scope)
    && descendants == StreamWalkAll(values, scope, depth + 1)
  }

  /** Only the first two values can declare a purpose. */
  lemma DeclaredSnoc(values: seq<Value>, v: Value)
    ensures Declared(values + [v])
         == if Declared(values).None? && |values| < 2 then DeclaredBy(v) else Declared(values)
  {
    hide DeclaredBy;
    if |values| == 1 {
      assert (values + [v])[0] == values[0] && (values + [v])[1] == v;
    }
  }

  lemma ScalarsSnoc(values: seq<Value>, v: Value)
    ensures AllScalars(values + [v]) <==> AllScalars(values) && !v.List?
  {
    if AllScalars(values + [v]) {
      forall i | 0 <= i < |values| ensures !values[i].List? {
        assert (values + [v])[i] == values[i];
      }
      assert (values + [v])[|values|] == v;
    }
  }

  lemma WindowSnoc(values: seq<Value>, v: Value)
    ensures var w := WindowOf(values) + [KeptOf(v)];
            WindowOf(values + [v]) == if |values| < 3 then w else w[1..]
  {
    hide KeptAll, LastThree;
    var last := LastThree(values);
    LastThreeSnoc(values, v);
    KeptSnoc(last, v);
    if |values| >= 3 {
      KeptTail(last + [v]);
    }
  }

  lemma LastThreeSnoc(values: seq<Value>, v: Value)
    ensures LastThree(values + [v]) == if |values| < 3 then LastThree(values) + [v] else (LastThree(values) + [v])[1..]
  {
    var l, r := LastThree(values + [v]), LastThree(values) + [v];
    if |values| >= 3 {
      assert r[1..] == [values[|values| - 2], values[|values| - 1], v];
      assert l == [values[|values| - 2], values[|values| - 1], v];
    }
  }

  lemma KeptSnoc(values: seq<Value>, v: Value)
    ensures KeptAll(values + [v]) == KeptAll(values) + [KeptOf(v)]
  {
    hide KeptOf;
  }

  lemma KeptTail(values: seq<Value>)
    requires values != []
    ensures KeptAll(values[1..]) == KeptAll(values)[1..]
  {
    hide KeptOf;
  }

  /** A window complete with its comment does not change any more. */
  lemma {:induction false} OwnStable(values: seq<Value>, v: Value, n: nat, scope: Option<Scope>)
    requires n == 0 || n + 3 <= |values|
    ensures OwnProjected(values + [v], n, scope) == OwnProjected(values, n, scope)
  {
    hide KeptOf, Project;
    if n > 0 {
      OwnStable(values, v, n - 1, scope);
      assert ProjectAt(values + [v], n - 1, scope) == ProjectAt(values, n - 1, scope);
    }
  }

  /** Sliding the window emits the descriptor whose comment has just been read. */
  lemma OwnSnoc(values: seq<Value>, v: Value, before: Option<Scope>, scope: Option<Scope>)
    requires |values| >= 2 ==> before == scope
    ensures var w := WindowOf(values) + [KeptOf(v)];
            OwnProjected(values + [v], Complete(values + [v]), scope)
            == OwnProjected(values, Complete(values), before)
               + (if |values| >= 3 then OptionToSeq(Project(w[0], w[1], Some(w[3]), scope)) else [])
  {
    if |values| >= 3 {
      OwnSlides(values, v, scope);
    }
  }

  lemma OwnSlides(values: seq<Value>, v: Value, scope: Option<Scope>)
    requires |values| >= 3
    ensures var w := WindowOf(values) + [KeptOf(v)];
            OwnProjected(values + [v], Complete(values + [v]), scope)
            == OwnProjected(values, Complete(values), scope) + OptionToSeq(Project(w[0], w[1], Some(w[3]), scope))
  {
    hide KeptOf, Project;
    var k := |values| - 3;
    var w := WindowOf(values) + [KeptOf(v)];
    var more := values + [v];
    assert w[0] == KeptOf(more[k]) && w[1] == KeptOf(more[k + 1]) && w[3] == KeptOf(more[k + 3]);
    OwnStable(values, v, k, scope);
    assert Complete(more) == k + 1;
    if k == 0 {
      assert OwnProjected(values, Complete(values), scope) == [];
    }
  }

  /** The last window of a list has no comment. */
  lemma OwnLast(values: seq<Value>, scope: Option<Scope>)
    ensures var w := WindowOf(values);
            OwnProjected(values, WindowCount(values), scope)
            == OwnProjected(values, Complete(values), scope)
               + (if |w| == 3 then OptionToSeq(Project(w[0], w[1], None, scope)) else [])
  {
    hide KeptOf, Project;
  }

  /** The scope and the descendants after one more value, with the repair it may cause. */
  lemma DescendantsSnoc(values: seq<Value>, v: Value, inherited: Option<Scope>, depth: nat)
    requires Outer(inherited, depth)
    ensures var before := ScopeOf(values, inherited, depth);
            var walked := StreamWalkAll(values, before, depth + 1) + StreamWalk(v, before, depth + 1);
            var after := ScopeOf(values + [v], inherited, depth);
            StreamWalkAll(values + [v], after, depth + 1)
            == if Declared(values).None? && |values| < 2 && DeclaredBy(v).Some?
               then Repair(walked, DeclaredBy(v).value, depth) else walked
  {
    hide StreamWalkAll, Declared, DeclaredBy, Repair;
    var before, after := ScopeOf(values, inherited, depth), ScopeOf(values + [v], inherited, depth);
    DeclaredSnoc(values, v);
    StreamWalkAllSnoc(values, v, after, depth + 1);
    if Declared(values).None? && |values| < 2 && DeclaredBy(v).Some? {
      var purpose := DeclaredBy(v).value;
      RepairAppend(StreamWalkAll(values, before, depth + 1), StreamWalk(v, before, depth + 1), purpose, depth);
      RepairWalkAll(values, inherited, depth + 1, purpose, depth);
      RepairWalk(v, inherited, depth + 1, purpose, depth);
    }
  }

  lemma OmittedWalk(scope: Option<Scope>, depth: nat, before: seq<Projected>)
    ensures before == before + StreamWalk(Null, scope, depth) && KeptOf(Null) == Scalar(Null)
  {
  }

  /** An open list: what it has gathered so far. */
  class ListProgress {
    var simple: Option<seq<Value>>
    var window: seq<Candidate>
    var scope: Option<Scope>
    var found: bool
    const local: ProjectedVector
    const descendants: ProjectedVector

    constructor (inherited: Option<Scope>, depth: nat)
      ensures fresh(local) && fresh(descendants) && local != descendants
      ensures Gathered([], inherited, depth)
    {
      simple := Some([]);
      window := [];
      scope := inherited;
      found := false;
      local := new ProjectedVector();
      descendants := new ProjectedVector();
    }

    ghost predicate Gathered(values: seq<Value>, inherited: Option<Scope>, depth: nat)
      reads this, local, descendants
    {
      && local != descendants
      && Gathers(values, inherited, depth, simple, window, scope, found, local.items, descendants.items)
    }

    lemma ScopeIsOuter(values: seq<Value>, inherited: Option<Scope>, depth: nat)
      requires Gathered(values, inherited, depth) && Outer(inherited, depth)
      ensures Outer(scope, depth + 1)
    {
    }

    /** At the end of the list the last window is emitted without a comment. */
    method Close(ghost values: seq<Value>, ghost inherited: Option<Scope>, ghost depth: nat)
      requires Gathered(values, inherited, depth)
      modifies local
      ensures local.items + descendants.items == StreamWalk(List(values), inherited, depth)
      ensures KeptOf(List(values))
           == if IsPattern(values) then Pattern else if simple.Some? then Flat(simple.value) else Other
      ensures simple == old(simple) && descendants.items == old(descendants.items)
    {
      hide Declared, StreamWalkAll, OwnProjected, Project;
      OwnLast(values, scope);
      if |window| == 3 {
        local.Push(Project(window[0], window[1], None, scope));
      }
    }

    /** Records a value omitted between separators. */
    method RecordOmitted(index: nat, depth: nat, ghost values: seq<Value>, ghost inherited: Option<Scope>)
      requires Gathered(values, inherited, depth) && Outer(inherited, depth) && index == |values|
      modifies this, local, descendants
      ensures Gathered(values + [Null], inherited, depth)
    {
      hide Gathers, StreamWalk;
      OmittedWalk(scope, depth + 1, descendants.items);
      Record(Scalar(Null), index, depth, values, Null, inherited, descendants.items);
    }

    /** Records the next value of the list, whose descendants have already been added. */
    method Record(candidate: Candidate, index: nat, depth: nat,
                  ghost values: seq<Value>, ghost v: Value, ghost inherited: Option<Scope>,
                  ghost before: seq<Projected>)
      requires local != descendants && Outer(inherited, depth) && candidate == KeptOf(v) && index == |values|
      requires Gathers(values, inherited, depth, simple, window, scope, found, local.items, before)
      requires descendants.items == before + StreamWalk(v, scope, depth + 1)
      modifies this, local, descendants
      ensures Gathered(values + [v], inherited, depth)
    {
      hide StreamWalk, StreamWalkAll, OwnProjected, Repair, Declared, FromCollection, Project, WindowOf, AllScalars;
      hide Complete;
      ScalarsSnoc(values, v);
      DeclaredSnoc(values, v);
      WindowSnoc(values, v);
      DescendantsSnoc(values, v, inherited, depth);
      OwnSnoc(values, v, scope, ScopeOf(values + [v], inherited, depth));
      if candidate.Scalar? {
        if simple.Some? {
          simple := Some(simple.value + [candidate.value]);
        }
      } else {
        simple := None;
      }
      if !found && index < 2 && candidate.AsStr().Some? && FromCollection(candidate.AsStr().value).Some? {
        var purpose := FromCollection(candidate.AsStr().value).value;
        scope := Some(Scope(purpose, depth));
        found := true;
        descendants.RepairAll(purpose, depth);
      }
      window := window + [candidate];
      if |window| == 4 {
        local.Push(Project(window[0], window[1], Some(window[3]), scope));
        window := window[1..];
      }
    }
  }

  class ConfigParser {
    const cursor: TextCursor

    constructor (input: string)
      ensures fresh(cursor) && cursor.Valid() && cursor.input == input && cursor.offset == 0
    {
      cursor := new TextCursor(input);
    }

    method ParseOne(
        descriptors: ProjectedVector, inherited: Option<Scope>, depth: nat) returns (r: Result<Candidate, ParseError>)
      requires cursor.Valid() && Outer(inherited, depth)
      modifies cursor, descriptors
      ensures cursor.Valid()
      ensures match ParseValue(cursor.input, old(cursor.offset), depth)
              case Ok((v, p)) => r == Ok(KeptOf(v)) && cursor.offset == p
                              && descriptors.items == old(descriptors.items) + StreamWalk(v, inherited, depth)
              case Err(e) => r == Err(e)
      decreases |cursor.input| - cursor.offset, 1
    {
      hide OwnProjected, StreamWalkAll;
      var current := cursor.Current();
      if current == None {
        return Fault(cursor.offset, UnexpectedEnd);
      } else if current.value == '{' {
        r := ParseBraces(descriptors, inherited, depth);
      } else if current.value == '"' {
        var s :- cursor.ReadString();
        return Ok(Scalar(Str(s)));
      } else if current.value == ',' || current.value == '}' {
        return Ok(Scalar(Null));
      } else {
        var s :- cursor.ReadAtom();
        return Ok(Scalar(Atom(s)));
      }
    }

    /** Reads one value of an open list and records it. */
    method ReadItem(
        progress: ListProgress, index: nat, depth: nat, ghost values: seq<Value>, ghost inherited: Option<Scope>)
      returns (r: Result<Candidate, ParseError>)
      requires cursor.Valid() && progress.Gathered(values, inherited, depth) && Outer(inherited, depth)
      requires index == |values|
      modifies cursor, progress, progress.local, progress.descendants
      ensures cursor.Valid()
      ensures match ParseValue(cursor.input, old(cursor.offset), depth + 1)
              case Ok((v, p)) => r == Ok(KeptOf(v)) && cursor.offset == p
                              && progress.Gathered(values + [v], inherited, depth)
              case Err(e) => r == Err(e)
      decreases |cursor.input| - cursor.offset, 2
    {
      hide Gathers, ParseValue, StreamWalk, KeptOf;
      ghost var from, descendants := cursor.offset, progress.descendants.items;
      progress.ScopeIsOuter(values, inherited, depth);
      var candidate :- ParseOne(progress.descendants, progress.scope, depth + 1);
      ghost var v := ParseValue(cursor.input, from, depth + 1).value.0;
      progress.Record(candidate, index, depth, values, v, inherited, descendants);
      return Ok(candidate);
    }

    /** Reads the values of a list up to its closing brace; true when the list is a type description. */
    method ReadItems(
        progress: ListProgress, depth: nat, ghost inherited: Option<Scope>) returns (r: Result<bool, ParseError>)
      requires cursor.Valid() && progress.Gathered([], inherited, depth) && Outer(inherited, depth)
      modifies cursor, progress, progress.local, progress.descendants
      ensures cursor.Valid()
      ensures match ParseItems(cursor.input, old(cursor.offset), depth, [], true)
              case Ok((values, p)) => r == Ok(IsPattern(values)) && cursor.offset == p
                                   && progress.Gathered(values, inherited, depth)
              case Err(e) => r == Err(e)
      decreases |cursor.input| - cursor.offset, 3
    {
      hide Gathers, ParseValue, StreamWalk, KeptOf, IsPattern, progress.Gathered, SkipSpaces, Outer;
      var pattern := false;
      var valueCount := 0;
      var expecting := true;
      ghost var start, values := cursor.offset, [];
      NoPattern();
      while true
        invariant cursor.Valid() && start <= cursor.offset && valueCount == |values|
        invariant progress.Gathered(values, inherited, depth)
        invariant pattern == IsPattern(values)
        invariant ParseItems(cursor.input, cursor.offset, depth, values, expecting)
               == ParseItems(cursor.input, start, depth, [], true)
        decreases |cursor.input| - cursor.offset
      {
        cursor.SkipWhitespace();
        var current := cursor.Current();
        if current == None {
          return Fault(cursor.offset, UnterminatedList);
        } else if current.value == '}' {
          if expecting && valueCount != 0 {
            progress.RecordOmitted(valueCount, depth, values, inherited);
            PatternSnoc(values, Null);
          }
          cursor.offset := cursor.offset + 1;
          return Ok(pattern);
        } else if current.value == ',' {
          if expecting {
            progress.RecordOmitted(valueCount, depth, values, inherited);
            PatternSnoc(values, Null);
            OmittedIsNoPattern();
            values := values + [Null];
            valueCount := valueCount + 1;
          }
          cursor.offset := cursor.offset + 1;
          expecting := true;
        } else if expecting {
          ghost var from := cursor.offset;
          var candidate :- ReadItem(progress, valueCount, depth, values, inherited);
          ghost var v := ParseValue(cursor.input, from, depth + 1).value.0;
          if valueCount == 0 && candidate.AsString() == Some("Pattern") {
            pattern := true;
          }
          PatternSnoc(values, v);
          values := values + [v];
          valueCount := valueCount + 1;
          expecting := false;
        } else {
          return Fault(cursor.offset, ExpectedSeparator);
        }
      }
    }

    method ParseBraces(
        descriptors: ProjectedVector, inherited: Option<Scope>, depth: nat) returns (r: Result<Candidate, ParseError>)
      requires cursor.Valid() && cursor.offset < |cursor.input| && Outer(inherited, depth)
      modifies cursor, descriptors
      ensures cursor.Valid()
      ensures match ParseList(cursor.input, old(cursor.offset), depth)
              case Ok((values, p)) => r == Ok(KeptOf(List(values))) && cursor.offset == p
                                   && descriptors.items
                                      == old(descriptors.items) + StreamWalk(List(values), inherited, depth)
              case Err(e) => r == Err(e)
      decreases |cursor.input| - cursor.offset, 0
    {
      hide Gathers, ParseItems, StreamWalk, KeptOf, IsPattern;
      if depth >= NESTING_LIMIT {
        return Fault(cursor.offset, NestingTooDeep);
      }
      cursor.offset := cursor.offset + 1;
      cursor.SkipWhitespace();
      var progress := new ListProgress(inherited, depth);
      ghost var step := ParseItems(cursor.input, cursor.offset, depth, [], true);
      var pattern :- ReadItems(progress, depth, inherited);
      ghost var before := descriptors.items;
      progress.Close(step.value.0, inherited, depth);
      descriptors.items := descriptors.items + progress.local.items;
      descriptors.items := descriptors.items + progress.descendants.items;
      assert descriptors.items == before + (progress.local.items + progress.descendants.items);
      return Ok(if pattern then Pattern else if progress.simple.Some? then Flat(progress.simple.value) else Other);
    }

    /** Descriptors of the whole input: one value with nothing but white space around it. */
    method Parse() returns (r: Result<seq<Descriptor>, ParseError>)
      requires cursor.Valid() && cursor.offset == 0
      modifies cursor
      ensures match ParseSerialized(cursor.input)
              case Ok(v) => r == Ok(Erase(StreamWalk(v, None, 0)))
              case Err(e) => r == Err(e)
    {
      hide StreamWalk;
      cursor.SkipWhitespace();
      if cursor.offset == |cursor.input| {
        return Fault(cursor.offset, EmptyText);
      }
      var descriptors := new ProjectedVector();
      ghost var from := cursor.offset;
      var _ :- ParseOne(descriptors, None, 0);
      assert descriptors.items == StreamWalk(ParseValue(cursor.input, from, 0).value.0, None, 0);
      cursor.SkipWhitespace();
      if cursor.offset != |cursor.input| {
        return Fault(cursor.offset, TrailingText);
      }
      return Ok(Erase(descriptors.items));
    }
  }

  /** The type-description mark can only come first. */
  lemma PatternSnoc(values: seq<Value>, v: Value)
    ensures IsPattern(values + [v])
         == if values == [] then KeptOf(v).AsString() == Some("Pattern") else IsPattern(values)
  {
  }

  lemma NoPattern()
    ensures !IsPattern([])
  {
  }

  lemma OmittedIsNoPattern()
    ensures KeptOf(Null).AsString() == None
  {
  }

  /**
   * For every text, the one-pass parser gives the descriptors of the recursive walk of
   * its tree, without those whose self-reference is obscured, or the tree parser's
   * diagnostic; a tree with an obscured self-reference, and only such a tree, gives fewer.
   */
  method ParseConfig(text: string) returns (r: Result<seq<Descriptor>, ParseError>)
    ensures ParseSerialized(text).Err? ==> r == Err(ParseSerialized(text).error)
    ensures ParseSerialized(text).Ok? ==>
      && r.Ok? && r.value == CollectClear(ParseSerialized(text).value, None)
      && |r.value| <= |Collect(ParseSerialized(text).value, None)|
      && (r.value == Collect(ParseSerialized(text).value, None) <==> Plain(ParseSerialized(text).value))
  {
    var parser := new ConfigParser(text);
    r := parser.Parse();
    if r.Ok? {
      WalksAgreeExactly(ParseSerialized(text).value);
      WalkAgrees(ParseSerialized(text).value, None, 0);
    }
  }
}
