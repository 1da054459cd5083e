/** The cursor-moving evaluator and parser of conditional directives. */
module DirectiveRuns {
  import opened Outcomes
  import opened WhiteSpace
  import opened DirectiveTokens
  import opened Tokenizing
  import opened Directives
  import ExprParsing

  method EvaluateCondition(text: string, scope: Scope) returns (r: Outcome<bool>)
    ensures r == EvaluateExpression(text, scope)
  {
    var tokens :- TokenizeExpression(text, scope);
    r := ExprParsing.EvaluateExpressionTokens(tokens, scope);
  }

  // ---- the one-pass evaluator ----

  /** What a run that started with `front` written has to give. */
  ghost predicate Wrote(r: Outcome<()>, cursor: nat, out: string, front: string, step: Outcome<(string, nat)>) {
    match step
    case Ok((text, q)) => r == Ok(()) && cursor == q && out == front + text
    case Err(e) => r == Err(e)
  }

  lemma BeforeTwice(a: string, b: string, step: Outcome<(string, nat)>)
    ensures Before(a, Before(b, step)) == Before(a + b, step)
  {
    if step.Ok? {
      assert a + (b + step.value.0) == a + b + step.value.0;
    }
  }

  class DirectiveEvaluator {
    const pieces: seq<Piece>
    const scope: Scope
    var cursor: nat
    var out: string

    ghost predicate Valid()
      reads this
    {
      cursor <= |pieces|
    }

    constructor (pieces: seq<Piece>, scope: Scope)
      ensures Valid() && this.pieces == pieces && this.scope == scope && cursor == 0 && out == []
    {
      this.pieces := pieces;
      this.scope := scope;
      cursor := 0;
      out := [];
    }

    method ProcessPieces(emit: bool) returns (r: Outcome<()>)
      requires Valid()
      modifies this
      ensures Valid() && Wrote(r, cursor, out, old(out), Process(pieces, old(cursor), scope, emit))
      decreases |pieces| - cursor, 2
    {
      hide ProcessIf, Before;
      ghost var goal := Process(pieces, cursor, scope, emit);
      ghost var text: string := [];
      BeforeNothing(goal, [], 0);
      while cursor < |pieces|
        invariant Valid() && old(cursor) <= cursor && out == old(out) + text
        invariant Before(text, Process(pieces, cursor, scope, emit)) == goal
        decreases |pieces| - cursor
      {
        match pieces[cursor]
        case Text(_, piece) =>
          BeforeTwice(text, if emit then piece else [], Process(pieces, cursor + 1, scope, emit));
          if emit {
            out := out + piece;
            text := text + piece;
          } else {
            assert text + [] == text;
          }
          cursor := cursor + 1;
        case Mark(_, If) =>
          ghost var p, front := cursor, out;
          cursor := cursor + 1;
          var block := ProcessBlock(emit);
          if block.Err? {
            FailedBefore(text, block.error);
            return block;
          }
          ghost var written := ProcessIf(pieces, p + 1, scope, emit, false).value.0;
          BeforeTwice(text, written, Process(pieces, cursor, scope, emit));
          text := text + written;
        case Mark(_, _) =>
          BeforeNothing(Ok(([], cursor)), text, cursor);
          return Ok(());
      }
      BeforeNothing(Ok(([], cursor)), text, cursor);
      return Ok(());
    }

    /** A condition and the directive after it. */
    method ReadCondition(live: bool) returns (r: Outcome<bool>)
      requires Valid()
      modifies this`cursor
      ensures Valid() && (r.Ok? ==> cursor == old(cursor) + 2)
      ensures r == if !TextAt(pieces, old(cursor)) then Fail(MissingCondition)
                   else if !MarkAt(pieces, old(cursor) + 1, Then) then Fail(MissingThen)
                   else Holds(pieces[old(cursor)].text, scope, live)
    {
      if cursor == |pieces| || !pieces[cursor].Text? {
        return Fail(MissingCondition);
      }
      var condition := pieces[cursor].text;
      cursor := cursor + 1;
      if !MarkAt(pieces, cursor, Then) {
        return Fail(MissingThen);
      }
      cursor := cursor + 1;
      if !live {
        return Ok(false);
      }
      r := EvaluateCondition(condition, scope);
    }

    /** The alternative of a block and the end of the block. */
    method ProcessAlternative(live: bool) returns (r: Outcome<()>)
      requires Valid() && MarkAt(pieces, cursor, Else)
      modifies this
      ensures Valid() && (r.Ok? ==> old(cursor) < cursor)
      ensures match Process(pieces, old(cursor) + 1, scope, live)
              case Err(e) => r == Err(e)
              case Ok((last, e)) =>
                Wrote(r, cursor, out, old(out),
                      if MarkAt(pieces, e, EndIf) then Ok((last, e + 1)) else Fail(ElseNotClosed))
      decreases |pieces| - cursor, 0
    {
      hide Process;
      cursor := cursor + 1;
      var _ :- ProcessPieces(live);
      if !MarkAt(pieces, cursor, EndIf) {
        return Fail(ElseNotClosed);
      }
      cursor := cursor + 1;
      return Ok(());
    }

    /** A branch: its condition, and its body, which is kept if the condition holds. */
    method ProcessBranch(live: bool) returns (r: Outcome<bool>)
      requires Valid()
      modifies this
      ensures Valid() && (r.Ok? ==> old(cursor) < cursor)
      ensures if !TextAt(pieces, old(cursor)) then r == Fail(MissingCondition)
              else if !MarkAt(pieces, old(cursor) + 1, Then) then r == Fail(MissingThen)
              else match Holds(pieces[old(cursor)].text, scope, live)
                   case Err(e) => r == Err(e)
                   case Ok(holds) =>
                     match Process(pieces, old(cursor) + 2, scope, holds)
                     case Err(e) => r == Err(e)
                     case Ok((body, q)) => r == Ok(holds) && cursor == q && out == old(out) + body
      decreases |pieces| - cursor, 0
    {
      hide Process, Holds;
      var holds :- ReadCondition(live);
      var _ :- ProcessPieces(holds);
      return Ok(holds);
    }

    /** A block whose opening directive has been read. */
    method ProcessBlock(emit: bool) returns (r: Outcome<()>)
      requires Valid()
      modifies this
      ensures Valid() && Wrote(r, cursor, out, old(out), ProcessIf(pieces, old(cursor), scope, emit, false))
      ensures r.Ok? ==> old(cursor) < cursor
      decreases |pieces| - cursor, 1
    {
      hide Process, ProcessIf, ProcessRest, Holds, Before;
      ghost var goal := ProcessIf(pieces, cursor, scope, emit, false);
      ghost var text: string := [];
      BeforeNothing(goal, [], 0);
      var taken := false;
      while true
        invariant Valid() && old(cursor) <= cursor && out == old(out) + text
        invariant Before(text, ProcessIf(pieces, cursor, scope, emit, taken)) == goal
        decreases |pieces| - cursor
      {
        ghost var p := cursor;
        BranchSteps(text, pieces, p, scope, emit, taken);
        var holds :- ProcessBranch(emit && !taken);
        ghost var written := Process(pieces, p + 2, scope, holds).value.0;
        text := text + written;
        taken := taken || holds;
        RestSteps(text, pieces, cursor, scope, emit, taken);
        if MarkAt(pieces, cursor, ElsIf) {
          cursor := cursor + 1;
        } else if MarkAt(pieces, cursor, Else) {
          r := ProcessAlternative(emit && !taken);
          return;
        } else if MarkAt(pieces, cursor, EndIf) {
          cursor := cursor + 1;
          return Ok(());
        } else {
          return Fail(MissingEndIf);
        }
      }
    }
  }

  /** The ways a branch goes on, after `text` has been written. */
  lemma BranchSteps(text: string, ps: seq<Piece>, p: nat, scope: Scope, emit: bool, taken: bool)
    requires p <= |ps|
    ensures var goal := Before(text, ProcessIf(ps, p, scope, emit, taken));
            if !TextAt(ps, p) then goal == Fail(MissingCondition)
            else if !MarkAt(ps, p + 1, Then) then goal == Fail(MissingThen)
            else match Holds(ps[p].text, scope, emit && !taken)
                 case Err(e) => goal == Err(e)
                 case Ok(holds) =>
                   match Process(ps, p + 2, scope, holds)
                   case Err(e) => goal == Err(e)
                   case Ok((body, q)) => goal == Before(text + body, ProcessRest(ps, q, scope, emit, taken || holds))
  {
    hide Process, ProcessRest, EvaluateExpression, Before;
    if TextAt(ps, p) && MarkAt(ps, p + 1, Then) && Holds(ps[p].text, scope, emit && !taken).Ok? {
      var holds := Holds(ps[p].text, scope, emit && !taken).value;
      var body := Process(ps, p + 2, scope, holds);
      if body.Ok? {
        BeforeTwice(text, body.value.0, ProcessRest(ps, body.value.1, scope, emit, taken || holds));
      } else {
        FailedBefore(text, body.error);
      }
    } else if ProcessIf(ps, p, scope, emit, taken).Err? {
      FailedBefore(text, ProcessIf(ps, p, scope, emit, taken).error);
    }
  }

  lemma RestSteps(text: string, ps: seq<Piece>, q: nat, scope: Scope, emit: bool, taken: bool)
    requires q <= |ps|
    ensures var goal := Before(text, ProcessRest(ps, q, scope, emit, taken));
            if MarkAt(ps, q, ElsIf) then goal == Before(text, ProcessIf(ps, q + 1, scope, emit, taken))
            else if MarkAt(ps, q, Else) then
              match Process(ps, q + 1, scope, emit && !taken)
              case Err(e) => goal == Err(e)
              case Ok((last, e)) => goal == if MarkAt(ps, e, EndIf) then Ok((text + last, e + 1))
                                            else Fail(ElseNotClosed)
            else goal == if MarkAt(ps, q, EndIf) then Ok((text, q + 1)) else Fail(MissingEndIf)
  {
    hide Process, ProcessIf;
    assert text + [] == text;
  }

  lemma FailedBefore(front: string, e: RestrictionError)
    ensures Before(front, Err(e)) == Err(e)
  {
  }

  /** The kept text of the pieces. */
  method Evaluate(pieces: seq<Piece>, scope: Scope) returns (r: Outcome<string>)
    ensures r == EvaluateDirectives(pieces, scope)
  {
    hide Process;
    var run := new DirectiveEvaluator(pieces, scope);
    var _ :- run.ProcessPieces(true);
    if run.cursor < |pieces| {
      return Fail(StrayDirective);
    }
    assert run.out == Process(pieces, 0, scope, true).value.0;
    return Ok(run.out);
  }

  // ---- the tree parser ----

  class TemplateParser {
    const pieces: seq<Piece>
    const end: nat
    var cursor: nat

    ghost predicate Valid()
      reads this
    {
      cursor <= |pieces|
    }

    constructor (pieces: seq<Piece>, end: nat)
      ensures Valid() && this.pieces == pieces && this.end == end && cursor == 0
    {
      this.pieces := pieces;
      this.end := end;
      cursor := 0;
    }

    method Nodes() returns (r: Result<seq<Node>, NodeError>)
      requires Valid()
      modifies this
      ensures Valid()
      ensures match ParseNodes(pieces, old(cursor), end)
              case Ok((nodes, q)) => r == Ok(nodes) && cursor == q
              case Err(e) => r == Err(e)
      decreases |pieces| - cursor, 1
    {
      hide ParseCases;
      ghost var goal := ParseNodes(pieces, cursor, end);
      var nodes: seq<Node> := [];
      PushNone(goal);
      while cursor < |pieces|
        invariant Valid() && old(cursor) <= cursor
        invariant PushAll(nodes, ParseNodes(pieces, cursor, end)) == goal
        decreases |pieces| - cursor
      {
        var piece := pieces[cursor];
        if piece.Text? {
          PushOne(nodes, Kept(piece.at, piece.text), ParseNodes(pieces, cursor + 1, end));
          nodes := nodes + [Kept(piece.at, piece.text)];
          cursor := cursor + 1;
        } else if piece.directive == If {
          cursor := cursor + 1;
          var node :- Block(piece.at);
          PushOne(nodes, node, ParseNodes(pieces, cursor, end));
          nodes := nodes + [node];
        } else {
          assert nodes + [] == nodes;
          return Ok(nodes);
        }
      }
      assert nodes + [] == nodes;
      return Ok(nodes);
    }

    /** A block whose opening directive, at `at`, has been read. */
    method Block(at: nat) returns (r: Result<Node, NodeError>)
      requires Valid()
      modifies this
      ensures Valid()
      ensures match ParseCases(pieces, old(cursor), end, at)
              case Ok(c) => r == Ok(Condition(at, c.branches, c.otherwise)) && cursor == c.next
              case Err(e) => r == Err(e)
      ensures r.Ok? ==> old(cursor) < cursor
      decreases |pieces| - cursor, 0
    {
      hide ParseNodes, ParseCases, ParseRest, PushCases, Trim, OffsetOf;
      ghost var goal := ParseCases(pieces, cursor, end, at);
      var branches: seq<Case> := [];
      var otherwise: seq<Node> := [];
      var branchAt := at;
      PushNoCase(goal);
      while true
        invariant Valid() && old(cursor) <= cursor
        invariant PushCases(branches, ParseCases(pieces, cursor, end, branchAt)) == goal
        decreases |pieces| - cursor
      {
        CaseSteps(branches, pieces, cursor, end, branchAt);
        if cursor == |pieces| || !pieces[cursor].Text? {
          return Missing(MissingCondition, OffsetOf(pieces, cursor, end));
        }
        var condition := pieces[cursor].text;
        cursor := cursor + 1;
        if !MarkAt(pieces, cursor, Then) {
          return Missing(MissingThen, OffsetOf(pieces, cursor, end));
        }
        cursor := cursor + 1;
        var body :- Nodes();
        branches := branches + [Case(branchAt, Trim(condition), body)];
        CaseRestSteps(branches, pieces, cursor, end);
        if MarkAt(pieces, cursor, ElsIf) {
          branchAt := pieces[cursor].at;
          cursor := cursor + 1;
        } else if MarkAt(pieces, cursor, Else) {
          cursor := cursor + 1;
          otherwise :- Nodes();
          if !MarkAt(pieces, cursor, EndIf) {
            return Missing(ElseNotClosed, OffsetOf(pieces, cursor, end));
          }
          cursor := cursor + 1;
          assert goal == Ok(Cases(branches, otherwise, cursor));
          break;
        } else if MarkAt(pieces, cursor, EndIf) {
          cursor := cursor + 1;
          assert goal == Ok(Cases(branches, otherwise, cursor));
          break;
        } else {
          return Missing(MissingEndIf, OffsetOf(pieces, cursor, end));
        }
      }
      return Ok(Condition(at, branches, otherwise));
    }
  }

  function PushAll(nodes: seq<Node>, r: Result<(seq<Node>, nat), NodeError>): (n: Result<(seq<Node>, nat), NodeError>)
  {
    if r.Ok? then Ok((nodes + r.value.0, r.value.1)) else r
  }

  lemma PushNone(r: Result<(seq<Node>, nat), NodeError>)
    ensures PushAll([], r) == r
  {
    if r.Ok? {
      assert [] + r.value.0 == r.value.0;
    }
  }

  lemma PushOne(nodes: seq<Node>, node: Node, r: Result<(seq<Node>, nat), NodeError>)
    ensures PushAll(nodes, Push(node, r)) == PushAll(nodes + [node], r)
  {
    if r.Ok? {
      assert nodes + ([node] + r.value.0) == nodes + [node] + r.value.0;
    }
  }

  function PushCases(branches: seq<Case>, r: Result<Cases, NodeError>): (c: Result<Cases, NodeError>)
  {
    if r.Ok? then Ok(r.value.(branches := branches + r.value.branches)) else r
  }

  lemma PushNoCase(r: Result<Cases, NodeError>)
    ensures PushCases([], r) == r
  {
    if r.Ok? {
      assert [] + r.value.branches == r.value.branches;
    }
  }

  lemma PushOneCase(branches: seq<Case>, branch: Case, r: Result<Cases, NodeError>)
    ensures PushCases(branches, PushCase(branch, r)) == PushCases(branches + [branch], r)
  {
    if r.Ok? {
      assert branches + ([branch] + r.value.branches) == branches + [branch] + r.value.branches;
    }
  }

  /** What the branch at p makes of the branches before it. */
  ghost predicate BranchGives(
      goal: Result<Cases, NodeError>, branches: seq<Case>, ps: seq<Piece>, p: nat, end: nat, at: nat)
    requires p <= |ps|
  {
    if !TextAt(ps, p) then goal == Missing(MissingCondition, OffsetOf(ps, p, end))
    else if !MarkAt(ps, p + 1, Then) then goal == Missing(MissingThen, OffsetOf(ps, p + 1, end))
    else
      match ParseNodes(ps, p + 2, end)
      case Err(e) => goal == Err(e)
      case Ok((body, q)) => goal == PushCases(branches + [Case(at, Trim(ps[p].text), body)], ParseRest(ps, q, end))
  }

  /** What the directive at q, after a branch, makes of the branches. */
  ghost predicate RestGives(
      goal: Result<Cases, NodeError>, branches: seq<Case>, ps: seq<Piece>, q: nat, end: nat)
    requires q <= |ps|
  {
    if MarkAt(ps, q, ElsIf) then goal == PushCases(branches, ParseCases(ps, q + 1, end, ps[q].at))
    else if MarkAt(ps, q, Else) then
      match ParseNodes(ps, q + 1, end)
      case Err(e) => goal == Err(e)
      case Ok((last, e)) =>
        goal == if MarkAt(ps, e, EndIf) then Ok(Cases(branches, last, e + 1))
                else Missing(ElseNotClosed, OffsetOf(ps, e, end))
    else if MarkAt(ps, q, EndIf) then goal == Ok(Cases(branches, [], q + 1))
    else goal == Missing(MissingEndIf, OffsetOf(ps, q, end))
  }

  /** The ways a branch goes on, after some branches have been read. */
  lemma CaseSteps(branches: seq<Case>, ps: seq<Piece>, p: nat, end: nat, at: nat)
    requires p <= |ps|
    ensures BranchGives(PushCases(branches, ParseCases(ps, p, end, at)), branches, ps, p, end, at)
  {
    hide ParseNodes, ParseRest, PushCase, Trim, OffsetOf;
    if TextAt(ps, p) && MarkAt(ps, p + 1, Then) && ParseNodes(ps, p + 2, end).Ok? {
      var (body, q) := ParseNodes(ps, p + 2, end).value;
      PushOneCase(branches, Case(at, Trim(ps[p].text), body), ParseRest(ps, q, end));
    }
  }

  lemma CaseRestSteps(branches: seq<Case>, ps: seq<Piece>, q: nat, end: nat)
    requires q <= |ps|
    ensures RestGives(PushCases(branches, ParseRest(ps, q, end)), branches, ps, q, end)
  {
    hide ParseNodes, ParseCases, OffsetOf;
    assert branches + [] == branches;
  }

  /** The tree of the pieces. */
  method Parse(pieces: seq<Piece>, end: nat) returns (r: Result<seq<Node>, NodeError>)
    ensures r == ParseTemplate(pieces, end)
  {
    hide ParseNodes;
    var parser := new TemplateParser(pieces, end);
    var nodes :- parser.Nodes();
    if parser.cursor < |pieces| {
      return Missing(StrayDirective, pieces[parser.cursor].at);
    }
    return Ok(nodes);
  }
}
