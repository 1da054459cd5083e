/**
 * Conditional directives of a restriction text: a text is split into pieces, which are
 * either evaluated in one pass or parsed into a tree. Here: both as functions, the
 * meaning of a tree, and the agreement of the two.
 */
module Directives {
  import opened Outcomes
  import opened WhiteSpace
  import opened DirectiveTokens
  import opened Tokenizing

  datatype Directive = If | ElsIf | Then | Else | EndIf

  /** A piece of the text with the offset it starts at. */
  datatype Piece =
    | Text(at: nat, text: string)
    | Mark(at: nat, directive: Directive)

  datatype Node =
    | Kept(at: nat, text: string)
    | Condition(at: nat, branches: seq<Case>, otherwise: seq<Node>)

  datatype Case = Case(at: nat, condition: string, body: seq<Node>)

  datatype NodeError = NodeError(fault: SyntaxFault, offset: nat)

  predicate MarkAt(ps: seq<Piece>, p: nat, directive: Directive) {
    p < |ps| && ps[p].Mark? && ps[p].directive == directive
  }

  predicate TextAt(ps: seq<Piece>, p: nat) {
    p < |ps| && ps[p].Text?
  }

  // ---- the one-pass evaluator ----

  function Before(front: string, r: Outcome<(string, nat)>): (b: Outcome<(string, nat)>)
  {
    if r.Ok? then Ok((front + r.value.0, r.value.1)) else r
  }

  /** A condition is evaluated only where its block is emitted and no earlier branch was taken. */
  function Holds(condition: string, scope: Scope, live: bool): (r: Outcome<bool>)
  {
    if live then EvaluateExpression(condition, scope) else Ok(false)
  }

  /** Pieces up to a directive closing the enclosing block, which is left where it is. */
  function Process(ps: seq<Piece>, p: nat, scope: Scope, emit: bool): (r: Outcome<(string, nat)>)
    requires p <= |ps|
    ensures r.Ok? ==> p <= r.value.1 <= |ps|
    ensures r.Ok? && r.value.1 < |ps| ==> ps[r.value.1].Mark? && ps[r.value.1].directive != If
    decreases |ps| - p, 0
  {
    if p == |ps| then Ok(([], p))
    else if ps[p].Text? then Before(if emit then ps[p].text else [], Process(ps, p + 1, scope, emit))
    else if ps[p].directive == If then
      var (block, q) :- ProcessIf(ps, p + 1, scope, emit, false);
      Before(block, Process(ps, q, scope, emit))
    else Ok(([], p))
  }

  /** A block whose opening directive has been read. */
  function ProcessIf(ps: seq<Piece>, p: nat, scope: Scope, emit: bool, taken: bool): (r: Outcome<(string, nat)>)
    requires p <= |ps|
    ensures r.Ok? ==> p < r.value.1 <= |ps|
    decreases |ps| - p, 0
  {
    if !TextAt(ps, p) then Fail(MissingCondition)
    else if !MarkAt(ps, p + 1, Then) then Fail(MissingThen)
    else
      var holds :- Holds(ps[p].text, scope, emit && !taken);
      var (body, q) :- Process(ps, p + 2, scope, holds);
      Before(body, ProcessRest(ps, q, scope, emit, taken || holds))
  }

  /** What follows the body of a branch: another branch, an alternative or the end. */
  function ProcessRest(ps: seq<Piece>, q: nat, scope: Scope, emit: bool, taken: bool): (r: Outcome<(string, nat)>)
    requires q <= |ps|
    ensures r.Ok? ==> q < r.value.1 <= |ps|
    decreases |ps| - q, 0
  {
    if MarkAt(ps, q, ElsIf) then ProcessIf(ps, q + 1, scope, emit, taken)
    else if MarkAt(ps, q, Else) then
      var (last, e) :- Process(ps, q + 1, scope, emit && !taken);
      if MarkAt(ps, e, EndIf) then Ok((last, e + 1)) else Fail(ElseNotClosed)
    else if MarkAt(ps, q, EndIf) then Ok(([], q + 1))
    else Fail(MissingEndIf)
  }

  function EvaluateDirectives(ps: seq<Piece>, scope: Scope): (r: Outcome<string>)
  {
    var (text, p) :- Process(ps, 0, scope, true);
    if p < |ps| then Fail(StrayDirective) else Ok(text)
  }

  // ---- the tree parser ----

  /** Where a piece starts, or the end of the text after the last one. */
  function OffsetOf(ps: seq<Piece>, p: nat, end: nat): nat {
    if p < |ps| then ps[p].at else end
  }

  function Missing<T>(fault: SyntaxFault, offset: nat): (r: Result<T, NodeError>)
  {
    Err(NodeError(fault, offset))
  }

  function Push(node: Node, r: Result<(seq<Node>, nat), NodeError>): (n: Result<(seq<Node>, nat), NodeError>)
  {
    if r.Ok? then Ok(([node] + r.value.0, r.value.1)) else r
  }

  datatype Cases = Cases(branches: seq<Case>, otherwise: seq<Node>, next: nat)

  function PushCase(branch: Case, r: Result<Cases, NodeError>): (c: Result<Cases, NodeError>)
  {
    if r.Ok? then Ok(r.value.(branches := [branch] + r.value.branches)) else r
  }

  function ParseNodes(ps: seq<Piece>, p: nat, end: nat): (r: Result<(seq<Node>, nat), NodeError>)
    requires p <= |ps|
    ensures r.Ok? ==> p <= r.value.1 <= |ps|
    ensures r.Ok? && r.value.1 < |ps| ==> ps[r.value.1].Mark? && ps[r.value.1].directive != If
    decreases |ps| - p, 0
  {
    if p == |ps| then Ok(([], p))
    else if ps[p].Text? then Push(Kept(ps[p].at, ps[p].text), ParseNodes(ps, p + 1, end))
    else if ps[p].directive == If then
      var c :- ParseCases(ps, p + 1, end, ps[p].at);
      Push(Condition(ps[p].at, c.branches, c.otherwise), ParseNodes(ps, c.next, end))
    else Ok(([], p))
  }

  /** The branches from a condition on; `at` is where their directive stands. */
  function ParseCases(ps: seq<Piece>, p: nat, end: nat, at: nat): (r: Result<Cases, NodeError>)
    requires p <= |ps|
    ensures r.Ok? ==> p < r.value.next <= |ps|
    decreases |ps| - p, 0
  {
    if !TextAt(ps, p) then Missing(MissingCondition, OffsetOf(ps, p, end))
    else if !MarkAt(ps, p + 1, Then) then Missing(MissingThen, OffsetOf(ps, p + 1, end))
    else
      var (body, q) :- ParseNodes(ps, p + 2, end);
      PushCase(Case(at, Trim(ps[p].text), body), ParseRest(ps, q, end))
  }

  function ParseRest(ps: seq<Piece>, q: nat, end: nat): (r: Result<Cases, NodeError>)
    requires q <= |ps|
    ensures r.Ok? ==> q < r.value.next <= |ps|
    decreases |ps| - q, 0
  {
    if MarkAt(ps, q, ElsIf) then ParseCases(ps, q + 1, end, ps[q].at)
    else if MarkAt(ps, q, Else) then
      var (last, e) :- ParseNodes(ps, q + 1, end);
      if MarkAt(ps, e, EndIf) then Ok(Cases([], last, e + 1)) else Missing(ElseNotClosed, OffsetOf(ps, e, end))
    else if MarkAt(ps, q, EndIf) then Ok(Cases([], [], q + 1))
    else Missing(MissingEndIf, OffsetOf(ps, q, end))
  }

  function ParseTemplate(ps: seq<Piece>, end: nat): (r: Result<seq<Node>, NodeError>)
  {
    var (nodes, p) :- ParseNodes(ps, 0, end);
    if p < |ps| then Missing(StrayDirective, ps[p].at) else Ok(nodes)
  }

  // ---- the meaning of a tree ----

  /** The body of the first branch whose condition holds; later conditions are not evaluated. */
  function Chosen(branches: seq<Case>, otherwise: seq<Node>, scope: Scope): (r: Outcome<seq<Node>>)
    ensures r.Ok? ==> r.value == otherwise || exists i :: 0 <= i < |branches| && r.value == branches[i].body
  {
    if branches == [] then Ok(otherwise)
    else
      var holds :- EvaluateExpression(branches[0].condition, scope);
      if holds then Ok(branches[0].body) else
        var later :- Chosen(branches[1..], otherwise, scope);
        assert later == otherwise || exists i :: 0 <= i < |branches[1..]| && later == branches[1..][i].body;
        Ok(later)
  }

  function EvalNode(node: Node, scope: Scope): (r: Outcome<string>)
    decreases node
  {
    match node
    case Kept(_, text) => Ok(text)
    case Condition(_, branches, otherwise) =>
      var body :- Chosen(branches, otherwise, scope);
      EvalNodes(body, scope)
  }

  function EvalNodes(nodes: seq<Node>, scope: Scope): (r: Outcome<string>)
    decreases nodes
  {
    if nodes == [] then Ok([])
    else
      var first :- EvalNode(nodes[0], scope);
      var rest :- EvalNodes(nodes[1..], scope);
      Ok(first + rest)
  }

  // ---- the agreement ----

  function Reaching(r: Outcome<string>, q: nat): (s: Outcome<(string, nat)>)
  {
    match r
    case Ok(text) => Ok((text, q))
    case Err(e) => Err(e)
  }

  /** What the evaluator gives where the parser gave these nodes. */
  function Expected(nodes: seq<Node>, q: nat, scope: Scope, emit: bool): (r: Outcome<(string, nat)>)
  {
    if emit then Reaching(EvalNodes(nodes, scope), q) else Ok(([], q))
  }

  function ExpectedOfCases(c: Cases, scope: Scope, live: bool): (r: Outcome<(string, nat)>)
  {
    if !live then Ok(([], c.next))
    else match Chosen(c.branches, c.otherwise, scope)
         case Ok(body) => Expected(body, c.next, scope, true)
         case Err(e) => Err(e)
  }

  /** A block that is not emitted fails exactly as the parser does. */
  ghost predicate FailsToo(got: Outcome<(string, nat)>, live: bool, e: NodeError) {
    got.Err? && (!live ==> got == Fail(e.fault))
  }

  /** What the parser made of some pieces and what the evaluator made of them. */
  ghost predicate NodesFit(
      parsed: Result<(seq<Node>, nat), NodeError>, got: Outcome<(string, nat)>, scope: Scope, emit: bool)
  {
    match parsed
    case Ok((nodes, q)) => got == Expected(nodes, q, scope, emit)
    case Err(e) => FailsToo(got, emit, e)
  }

  ghost predicate CasesFit(parsed: Result<Cases, NodeError>, got: Outcome<(string, nat)>, scope: Scope, live: bool) {
    match parsed
    case Ok(c) => got == ExpectedOfCases(c, scope, live)
    case Err(e) => FailsToo(got, live, e)
  }

  lemma PushAgrees(node: Node, rest: seq<Node>, q: nat, scope: Scope, text: Outcome<string>)
    requires text == EvalNode(node, scope)
    ensures Expected([node] + rest, q, scope, true)
         == (match text case Ok(t) => Before(t, Expected(rest, q, scope, true)) case Err(e) => Err(e))
  {
    assert ([node] + rest)[1..] == rest;
  }

  lemma ChosenFirst(branch: Case, c: Cases, scope: Scope)
    ensures Chosen([branch] + c.branches, c.otherwise, scope)
         == (match EvaluateExpression(branch.condition, scope)
             case Ok(holds) => if holds then Ok(branch.body) else Chosen(c.branches, c.otherwise, scope)
             case Err(e) => Err(e))
  {
    assert ([branch] + c.branches)[1..] == c.branches;
  }

  lemma BeforeNothing(r: Outcome<(string, nat)>, front: string, q: nat)
    ensures Before([], r) == r && Before(front, Ok(([], q))) == Ok((front, q))
  {
    if r.Ok? {
      assert [] + r.value.0 == r.value.0;
    }
    assert front + [] == front;
  }

  lemma EmittedUpTo(nodes: seq<Node>, q: nat, scope: Scope, emit: bool)
    ensures Expected(nodes, q, scope, emit).Ok? ==> Expected(nodes, q, scope, emit).value.1 == q
    ensures !emit ==> Expected(nodes, q, scope, emit) == Ok(([], q))
  {
  }

  lemma NothingToEvaluate(scope: Scope)
    ensures EvalNodes([], scope) == Ok([])
  {
  }

  /** One pass over the pieces gives what the tree of those pieces evaluates to. */
  lemma {:induction false} NodesAgree(ps: seq<Piece>, p: nat, end: nat, scope: Scope, emit: bool)
    requires p <= |ps| && ProperTable(scope)
    ensures NodesFit(ParseNodes(ps, p, end), Process(ps, p, scope, emit), scope, emit)
    decreases |ps| - p, 0
  {
    hide Chosen, ProcessIf, ParseCases, EvaluateExpression;
    if p == |ps| || (ps[p].Mark? && ps[p].directive != If) {
      assert ParseNodes(ps, p, end) == Ok(([], p));
    } else if ps[p].Text? {
      NodesAgree(ps, p + 1, end, scope, emit);
      if ParseNodes(ps, p + 1, end).Ok? {
        var (rest, q) := ParseNodes(ps, p + 1, end).value;
        PushAgrees(Kept(ps[p].at, ps[p].text), rest, q, scope, Ok(ps[p].text));
        BeforeNothing(Ok(([], q)), [], q);
      }
    } else {
      BlockAgrees(ps, p, end, scope, emit);
    }
  }

  lemma {:induction false} BlockAgrees(ps: seq<Piece>, p: nat, end: nat, scope: Scope, emit: bool)
    requires MarkAt(ps, p, If) && ProperTable(scope)
    ensures NodesFit(ParseNodes(ps, p, end), Process(ps, p, scope, emit), scope, emit)
    decreases |ps| - p - 1, 1
  {
    hide Chosen, ProcessIf, ParseCases, EvaluateExpression;
    CasesAgree(ps, p + 1, end, ps[p].at, scope, emit, false);
    if ParseCases(ps, p + 1, end, ps[p].at).Ok? {
      var c := ParseCases(ps, p + 1, end, ps[p].at).value;
      NodesAgree(ps, c.next, end, scope, emit);
      if ParseNodes(ps, c.next, end).Ok? {
        var (rest, q) := ParseNodes(ps, c.next, end).value;
        var node := Condition(ps[p].at, c.branches, c.otherwise);
        PushAgrees(node, rest, q, scope, EvalNode(node, scope));
        BeforeNothing(Ok(([], q)), [], q);
      }
    }
  }

  /** A branch before others: the results of the parts put together. */
  function Joined(
      h: Outcome<bool>, body: Outcome<(string, nat)>, rest: Outcome<(string, nat)>): (r: Outcome<(string, nat)>)
  {
    if h.Err? then Err(h.error)
    else if body.Err? then body
    else Before(body.value.0, rest)
  }

  predicate Taken(h: Outcome<bool>) {
    h.Ok? && h.value
  }

  lemma BranchFirst(branch: Case, c: Cases, q: nat, scope: Scope, live: bool, h: Outcome<bool>)
    requires h == Holds(branch.condition, scope, live)
    ensures ExpectedOfCases(c.(branches := [branch] + c.branches), scope, live)
         == Joined(h, Expected(branch.body, q, scope, Taken(h)), ExpectedOfCases(c, scope, live && !Taken(h)))
  {
    hide EvaluateExpression, EvalNodes, Chosen;
    ChosenFirst(branch, c, scope);
    if EvalNodes(branch.body, scope).Ok? {
      BeforeNothing(Ok(([], q)), EvalNodes(branch.body, scope).value, c.next);
    }
    BeforeNothing(ExpectedOfCases(c, scope, live && !Taken(h)), [], q);
  }

  lemma {:induction false} CasesAgree(
      ps: seq<Piece>, p: nat, end: nat, at: nat, scope: Scope, emit: bool, taken: bool)
    requires p <= |ps| && ProperTable(scope)
    ensures CasesFit(ParseCases(ps, p, end, at), ProcessIf(ps, p, scope, emit, taken), scope, emit && !taken)
    decreases |ps| - p, 0
  {
    hide Process, ProcessRest, ParseNodes, ParseRest, EvaluateExpression, Expected, ExpectedOfCases;
    if TextAt(ps, p) && MarkAt(ps, p + 1, Then) {
      var live := emit && !taken;
      var h := Holds(ps[p].text, scope, live);
      NodesAgree(ps, p + 2, end, scope, Taken(h));
      if ParseNodes(ps, p + 2, end).Ok? {
        var (body, q) := ParseNodes(ps, p + 2, end).value;
        TrimKeepsMeaning(ps[p].text, scope);
        RestAgrees(ps, q, end, scope, emit, taken || Taken(h));
        EmittedUpTo(body, q, scope, Taken(h));
        if ParseRest(ps, q, end).Ok? {
          var branch := Case(at, Trim(ps[p].text), body);
          BranchFirst(branch, ParseRest(ps, q, end).value, q, scope, live, h);
        }
      }
    }
  }

  lemma {:induction false} RestAgrees(ps: seq<Piece>, q: nat, end: nat, scope: Scope, emit: bool, taken: bool)
    requires q <= |ps| && ProperTable(scope)
    ensures CasesFit(ParseRest(ps, q, end), ProcessRest(ps, q, scope, emit, taken), scope, emit && !taken)
    decreases |ps| - q, 0
  {
    hide Process, ProcessIf, ParseNodes, ParseCases, EvaluateExpression, EvalNodes;
    if MarkAt(ps, q, ElsIf) {
      CasesAgree(ps, q + 1, end, ps[q].at, scope, emit, taken);
    } else if MarkAt(ps, q, Else) {
      NodesAgree(ps, q + 1, end, scope, emit && !taken);
    } else {
      NothingToEvaluate(scope);
    }
  }

  /** The one-pass evaluator and the tree parser agree. */
  lemma EvaluatorAgreesWithTree(ps: seq<Piece>, end: nat, scope: Scope)
    requires ProperTable(scope)
    ensures ParseTemplate(ps, end).Ok? ==>
              EvaluateDirectives(ps, scope) == EvalNodes(ParseTemplate(ps, end).value, scope)
    ensures ParseTemplate(ps, end).Err? ==> EvaluateDirectives(ps, scope).Err?
  {
    hide Process, ParseNodes, EvalNodes;
    NodesAgree(ps, 0, end, scope, true);
  }

  /** The evaluator gives a text exactly when the pieces form a tree that evaluates to it. */
  lemma EvaluatesExactly(ps: seq<Piece>, end: nat, scope: Scope, text: string)
    requires ProperTable(scope)
    ensures EvaluateDirectives(ps, scope) == Ok(text)
       <==> ParseTemplate(ps, end).Ok? && EvalNodes(ParseTemplate(ps, end).value, scope) == Ok(text)
  {
    hide EvaluateDirectives, ParseTemplate, EvalNodes;
    EvaluatorAgreesWithTree(ps, end, scope);
  }
}
