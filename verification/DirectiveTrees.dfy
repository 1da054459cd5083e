/** Every tree of directives can be written as pieces, and those pieces parse back to it. */
module DirectiveTrees {
  import opened Outcomes
  import opened Slices
  import opened WhiteSpace
  import opened DirectiveTokens
  import opened Tokenizing
  import opened Directives

  /** Trees the parser gives: a block has a branch, starts where it does, and its conditions are trimmed. */
  predicate ProperNode(node: Node)
    decreases node
  {
    node.Condition? ==>
      (&& node.branches != [] && node.branches[0].at == node.at
       && (forall i :: 0 <= i < |node.branches| ==> ProperCase(node.branches[i]))
       && Proper(node.otherwise))
  }

  predicate ProperCase(branch: Case)
    decreases branch
  {
    Trim(branch.condition) == branch.condition && Proper(branch.body)
  }

  predicate Proper(nodes: seq<Node>)
    decreases nodes
  {
    forall i :: 0 <= i < |nodes| ==> ProperNode(nodes[i])
  }

  /** The pieces of a tree; directives the tree keeps no place of stand at 0. */
  function Written(nodes: seq<Node>): (w: seq<Piece>)
    decreases nodes, 0
  {
    if nodes == [] then [] else WrittenNode(nodes[0]) + Written(nodes[1..])
  }

  function WrittenNode(node: Node): (w: seq<Piece>)
    ensures w != []
    decreases node
  {
    match node
    case Kept(at, text) => [Text(at, text)]
    case Condition(at, branches, otherwise) =>
      [Mark(at, If)] + (WrittenCases(branches) + WrittenLast(otherwise))
  }

  function WrittenLast(otherwise: seq<Node>): (w: seq<Piece>)
    ensures w != [] && w[0].Mark? && w[0].directive != If
    decreases otherwise, 1
  {
    if otherwise == [] then [Mark(0, EndIf)] else [Mark(0, Else)] + (Written(otherwise) + [Mark(0, EndIf)])
  }

  function WrittenCase(branch: Case): (w: seq<Piece>)
    ensures |w| >= 2
    decreases branch
  {
    [Text(0, branch.condition), Mark(0, Then)] + Written(branch.body)
  }

  function WrittenCases(branches: seq<Case>): (w: seq<Piece>)
    decreases branches
  {
    if branches == [] then []
    else if |branches| == 1 then WrittenCase(branches[0])
    else WrittenCase(branches[0]) + [Mark(branches[1].at, ElsIf)] + WrittenCases(branches[1..])
  }

  /** The pieces at hand end, or the enclosing block goes on. */
  predicate Closes(ps: seq<Piece>, q: nat) {
    q == |ps| || (q < |ps| && ps[q].Mark? && ps[q].directive != If)
  }

  lemma {:induction false} WrittenIsNodes(ps: seq<Piece>, p: nat, nodes: seq<Node>, end: nat)
    requires Proper(nodes) && StandsAt(ps, p, Written(nodes)) && Closes(ps, p + |Written(nodes)|)
    ensures ParseNodes(ps, p, end) == Ok((nodes, p + |Written(nodes)|))
    decreases nodes, 0
  {
    hide ParseCases, StandsAt, WrittenNode, ProperNode;
    if nodes == [] {
    } else {
      var first := WrittenNode(nodes[0]);
      StandsAtConcat(ps, p, first, Written(nodes[1..]));
      assert Proper(nodes[1..]);
      WrittenIsNodes(ps, p + |first|, nodes[1..], end);
      assert [nodes[0]] + nodes[1..] == nodes;
      WrittenIsNode(ps, p, nodes[0], end);
    }
  }

  /** Reading a written node leaves the parser after it. */
  lemma {:induction false} WrittenIsNode(ps: seq<Piece>, p: nat, node: Node, end: nat)
    requires ProperNode(node) && StandsAt(ps, p, WrittenNode(node))
    ensures p + |WrittenNode(node)| <= |ps|
    ensures ParseNodes(ps, p, end) == Push(node, ParseNodes(ps, p + |WrittenNode(node)|, end))
    decreases node
  {
    hide ParseCases, ParseRest, Written, WrittenCases, WrittenLast, Proper, ProperCase, StandsAt;
    StandsAtHead(ps, p, WrittenNode(node));
    if node.Condition? {
      var cases, last := WrittenCases(node.branches), WrittenLast(node.otherwise);
      var t := p + 1 + |cases|;
      StandsAtConcat(ps, p, [Mark(node.at, If)], cases + last);
      StandsAtConcat(ps, p + 1, cases, last);
      StandsAtHead(ps, t, last);
      StandsAtEnds(ps, t, last);
      WrittenIsLast(ps, t, node.otherwise, end);
      WrittenIsCases(ps, p + 1, node.branches, node.otherwise, t + |last|, end);
    } else {
      StandsAtEnds(ps, p, WrittenNode(node));
    }
  }

  lemma StandsAtEnds(ps: seq<Piece>, p: nat, w: seq<Piece>)
    requires StandsAt(ps, p, w)
    ensures p + |w| <= |ps|
  {
  }

  lemma {:induction false} WrittenIsLast(ps: seq<Piece>, t: nat, otherwise: seq<Node>, end: nat)
    requires Proper(otherwise) && StandsAt(ps, t, WrittenLast(otherwise))
    ensures t < |ps| && ParseRest(ps, t, end) == Ok(Cases([], otherwise, t + |WrittenLast(otherwise)|))
    decreases otherwise, 1
  {
    hide ParseNodes, ParseCases, Written, Proper, StandsAt;
    StandsAtHead(ps, t, WrittenLast(otherwise));
    if otherwise != [] {
      var body := Written(otherwise);
      StandsAtConcat(ps, t, [Mark(0, Else)], body + [Mark(0, EndIf)]);
      StandsAtConcat(ps, t + 1, body, [Mark(0, EndIf)]);
      StandsAtOne(ps, t + 1 + |body|, Mark(0, EndIf));
      WrittenIsNodes(ps, t + 1, otherwise, end);
    }
  }

  lemma AnotherBranch(ps: seq<Piece>, q: nat, at: nat, end: nat)
    requires StandsAt(ps, q, [Mark(at, ElsIf)])
    ensures q < |ps| && Closes(ps, q) && ParseRest(ps, q, end) == ParseCases(ps, q + 1, end, at)
  {
    StandsAtOne(ps, q, Mark(at, ElsIf));
  }

  lemma {:induction false} WrittenIsCases(
      ps: seq<Piece>, p: nat, branches: seq<Case>, otherwise: seq<Node>, next: nat, end: nat)
    requires branches != [] && (forall i :: 0 <= i < |branches| ==> ProperCase(branches[i]))
    requires StandsAt(ps, p, WrittenCases(branches))
    requires Closes(ps, p + |WrittenCases(branches)|)
    requires ParseRest(ps, p + |WrittenCases(branches)|, end) == Ok(Cases([], otherwise, next))
    ensures ParseCases(ps, p, end, branches[0].at) == Ok(Cases(branches, otherwise, next))
    decreases branches
  {
    hide ParseNodes, ParseCases, ParseRest, WrittenCase, ProperCase, Proper, StandsAt;
    var first, rest := WrittenCase(branches[0]), branches[1..];
    assert branches == [branches[0]] + rest;
    if |branches| == 1 {
      WrittenIsCase(ps, p, branches[0], end);
    } else {
      var q := p + |first|;
      StandsAtConcat(ps, p, first + [Mark(branches[1].at, ElsIf)], WrittenCases(rest));
      StandsAtConcat(ps, p, first, [Mark(branches[1].at, ElsIf)]);
      AnotherBranch(ps, q, branches[1].at, end);
      WrittenIsCases(ps, q + 1, rest, otherwise, next, end);
      WrittenIsCase(ps, p, branches[0], end);
    }
  }

  lemma {:induction false} WrittenIsCase(ps: seq<Piece>, p: nat, branch: Case, end: nat)
    requires ProperCase(branch) && StandsAt(ps, p, WrittenCase(branch))
    requires Closes(ps, p + |WrittenCase(branch)|)
    ensures ParseCases(ps, p, end, branch.at) == PushCase(branch, ParseRest(ps, p + |WrittenCase(branch)|, end))
    decreases branch
  {
    hide ParseNodes, ParseRest, Written;
    var opening := [Text(0, branch.condition), Mark(0, Then)];
    StandsAtConcat(ps, p, opening, Written(branch.body));
    assert ps[p..p + 2][0] == ps[p] && ps[p..p + 2][1] == ps[p + 1];
    WrittenIsNodes(ps, p + 2, branch.body, end);
  }

  /** Parsing the pieces of a tree gives the tree. */
  lemma TreeRoundTrip(nodes: seq<Node>, end: nat)
    requires Proper(nodes)
    ensures ParseTemplate(Written(nodes), end) == Ok(nodes)
  {
    hide ParseNodes, Proper, Written;
    var w := Written(nodes);
    assert w[0..|w|] == w;
    WrittenIsNodes(w, 0, nodes, end);
  }

  /** Evaluating the pieces of a tree gives what the tree evaluates to. */
  lemma EvaluatesTheTree(nodes: seq<Node>, scope: Scope)
    requires Proper(nodes) && ProperTable(scope)
    ensures EvaluateDirectives(Written(nodes), scope) == EvalNodes(nodes, scope)
  {
    hide ParseTemplate, EvaluateDirectives, EvalNodes, Written, Proper;
    TreeRoundTrip(nodes, 0);
    EvaluatorAgreesWithTree(Written(nodes), 0, scope);
  }

  // ---- the parser gives proper trees only ----

  lemma {:induction false} ParsedIsProper(ps: seq<Piece>, p: nat, end: nat)
    requires p <= |ps|
    ensures ParseNodes(ps, p, end).Ok? ==> Proper(ParseNodes(ps, p, end).value.0)
    decreases |ps| - p, 0
  {
    hide ParseCases, ProperCase;
    if p < |ps| && ps[p].Text? {
      ParsedIsProper(ps, p + 1, end);
    } else if MarkAt(ps, p, If) {
      CasesAreProper(ps, p + 1, end, ps[p].at);
      if ParseCases(ps, p + 1, end, ps[p].at).Ok? {
        ParsedIsProper(ps, ParseCases(ps, p + 1, end, ps[p].at).value.next, end);
      }
    }
  }

  lemma {:induction false} CasesAreProper(ps: seq<Piece>, p: nat, end: nat, at: nat)
    requires p <= |ps|
    ensures var r := ParseCases(ps, p, end, at);
            r.Ok? ==>
              (&& r.value.branches != [] && r.value.branches[0].at == at
               && (forall i :: 0 <= i < |r.value.branches| ==> ProperCase(r.value.branches[i]))
               && Proper(r.value.otherwise))
    decreases |ps| - p, 0
  {
    hide ParseNodes, Proper, Trim;
    if TextAt(ps, p) && MarkAt(ps, p + 1, Then) {
      ParsedIsProper(ps, p + 2, end);
      TrimTwice(ps[p].text);
      if ParseNodes(ps, p + 2, end).Ok? {
        var (body, q) := ParseNodes(ps, p + 2, end).value;
        if MarkAt(ps, q, ElsIf) {
          CasesAreProper(ps, q + 1, end, ps[q].at);
        } else if MarkAt(ps, q, Else) {
          ParsedIsProper(ps, q + 1, end);
        } else {
          assert Proper([]) by { NoNodesAreProper(); }
        }
      }
    }
  }

  lemma NoNodesAreProper()
    ensures Proper([])
  {
  }
}
