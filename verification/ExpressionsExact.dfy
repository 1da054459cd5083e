/**
 * The evaluator against the trees: on the tokens of a tree it gives the tree's value or
 * error, and whatever it accepts is the tokens of a tree with that value.
 */
module ExpressionsExact {
  import opened Outcomes
  import opened Slices
  import opened DirectiveTokens
  import opened Expressions

  /** The precedence of the operator a token continues an expression with, or -1. */
  function Tight(ts: seq<Token>, at: nat): (n: int)
    ensures n <= 4
  {
    if at >= |ts| then -1
    else
      match ts[at]
      case Plus => 4
      case Equal => 3
      case NotEqual => 3
      case Word(w) => if KindOf(w) == AndWord then 1 else if KindOf(w) == OrWord then 0 else -1
      case _ => -1
  }

  /** A value or an error, and the position a value ends at. */
  function Placed(v: Outcome<Val>, end: nat): (r: Parsed)
  {
    match v
    case Ok(value) => Ok((value, end))
    case Err(x) => Err(x)
  }

  /** The result of a tree that ends at a position. */
  function ResultOf(e: Expr, end: nat, scope: Scope): (r: Parsed)
    requires Spelled(e)
  {
    Placed(Eval(e, scope), end)
  }

  /** A well-written tree stands at a position. */
  predicate Stands(ts: seq<Token>, at: nat, e: Expr) {
    && Spelled(e) && Parenthesised(e)
    && StandsAt(ts, at, Print(e)) && ClosedBut(e, at + |Print(e)| == |ts|)
  }

  // ---- from a tree to its value ----

  /** A printed binary operator is its operands and the operator between them. */
  lemma BinaryStands(ts: seq<Token>, at: nat, left: Expr, operator: Token, right: Expr)
    ensures StandsAt(ts, at, Print(left) + ([operator] + Print(right)))
       <==> StandsAt(ts, at, Print(left)) && TokenAt(ts, at + |Print(left)|, operator)
            && StandsAt(ts, at + |Print(left)| + 1, Print(right))
    ensures |Print(left) + ([operator] + Print(right))| == |Print(left)| + 1 + |Print(right)|
  {
    hide Print, StandsAt;
    StandsAtConcat(ts, at, Print(left), [operator] + Print(right));
    StandsAtConcat(ts, at + |Print(left)|, [operator], Print(right));
    StandsAtOne(ts, at + |Print(left)|, operator);
  }

  lemma OrStands(ts: seq<Token>, at: nat, l: Expr, w: string, r: Expr)
    ensures |Print(Or(l, w, r))| == |Print(l)| + 1 + |Print(r)|
    ensures Stands(ts, at, Or(l, w, r))
       <==> Stands(ts, at, l) && TokenAt(ts, at + |Print(l)|, Word(w)) && KindOf(w) == OrWord
            && Stands(ts, at + |Print(l)| + 1, r) && Level(r) >= 1
  {
    hide StandsAt, KindOf;
    BinaryStands(ts, at, l, Word(w), r);
  }

  lemma AndStands(ts: seq<Token>, at: nat, l: Expr, w: string, r: Expr)
    ensures |Print(And(l, w, r))| == |Print(l)| + 1 + |Print(r)|
    ensures Stands(ts, at, And(l, w, r))
       <==> Stands(ts, at, l) && TokenAt(ts, at + |Print(l)|, Word(w)) && KindOf(w) == AndWord
            && Stands(ts, at + |Print(l)| + 1, r) && Level(l) >= 1 && Level(r) >= 2
  {
    hide StandsAt, KindOf;
    BinaryStands(ts, at, l, Word(w), r);
  }

  lemma CompareStands(ts: seq<Token>, at: nat, l: Expr, equal: bool, r: Expr)
    ensures |Print(Compare(l, equal, r))| == |Print(l)| + 1 + |Print(r)|
    ensures Stands(ts, at, Compare(l, equal, r))
       <==> Stands(ts, at, l) && TokenAt(ts, at + |Print(l)|, if equal then Equal else NotEqual)
            && Stands(ts, at + |Print(l)| + 1, r) && Level(l) >= 4 && Level(r) >= 4
  {
    hide StandsAt, KindOf;
    BinaryStands(ts, at, l, if equal then Equal else NotEqual, r);
  }

  lemma ConcatStands(ts: seq<Token>, at: nat, l: Expr, r: Expr)
    ensures |Print(Concat(l, r))| == |Print(l)| + 1 + |Print(r)|
    ensures Stands(ts, at, Concat(l, r))
       <==> Stands(ts, at, l) && TokenAt(ts, at + |Print(l)|, Plus) && Stands(ts, at + |Print(l)| + 1, r)
            && Level(l) >= 4 && Level(r) >= 5
  {
    hide StandsAt, KindOf;
    BinaryStands(ts, at, l, Plus, r);
  }

  lemma {:induction false} OrPrinted(ts: seq<Token>, at: nat, e: Expr, scope: Scope)
    requires Stands(ts, at, e) && Tight(ts, at + |Print(e)|) <= 0
    ensures ParseOr(ts, at, scope)
         == (match Eval(e, scope) case Ok(v) => OrLoop(ts, v, at + |Print(e)|, scope) case Err(x) => Err(x))
    decreases e, 5
  {
    hide KindOf, Disjunction, StandsAt, ParseAnd, Spelled, Parenthesised, ClosedBut, Print;
    if e.Or? {
      OrStands(ts, at, e.left, e.word, e.right);
      var middle := at + |Print(e.left)|;
      OrPrinted(ts, at, e.left, scope);
      AndPrinted(ts, middle + 1, e.right, scope);
    } else {
      AndPrinted(ts, at, e, scope);
    }
  }

  lemma OrStops(ts: seq<Token>, v: Val, end: nat, scope: Scope)
    requires end <= |ts| && Tight(ts, end) < 0
    ensures OrLoop(ts, v, end, scope) == Ok((v, end))
  {
    hide ParseAnd, KindOf;
  }

  /** A tree with no operator behind it. */
  lemma {:induction false} WholePrinted(ts: seq<Token>, at: nat, e: Expr, scope: Scope)
    requires Stands(ts, at, e) && Tight(ts, at + |Print(e)|) < 0
    ensures ParseOr(ts, at, scope) == ResultOf(e, at + |Print(e)|, scope)
    decreases e, 6
  {
    hide ParseOr, Eval, Tight, Spelled, Parenthesised, Print, ClosedBut;
    OrPrinted(ts, at, e, scope);
    if Eval(e, scope).Ok? {
      OrStops(ts, Eval(e, scope).value, at + |Print(e)|, scope);
    }
  }

  lemma {:induction false} AndPrinted(ts: seq<Token>, at: nat, e: Expr, scope: Scope)
    requires Stands(ts, at, e) && Level(e) >= 1 && Tight(ts, at + |Print(e)|) <= 1
    ensures ParseAnd(ts, at, scope)
         == (match Eval(e, scope) case Ok(v) => AndLoop(ts, v, at + |Print(e)|, scope) case Err(x) => Err(x))
    decreases e, 4
  {
    hide KindOf, Conjunction, StandsAt, ParseNot, Spelled, Parenthesised, ClosedBut, Print;
    if e.And? {
      AndStands(ts, at, e.left, e.word, e.right);
      var middle := at + |Print(e.left)|;
      AndPrinted(ts, at, e.left, scope);
      NotPrinted(ts, middle + 1, e.right, scope);
    } else {
      NotPrinted(ts, at, e, scope);
    }
  }

  lemma {:induction false} NotPrinted(ts: seq<Token>, at: nat, e: Expr, scope: Scope)
    requires Stands(ts, at, e) && Level(e) >= 2 && Tight(ts, at + |Print(e)|) <= 2
    ensures ParseNot(ts, at, scope) == ResultOf(e, at + |Print(e)|, scope)
    decreases e, 3
  {
    hide ParseOr, ParseConcatenation, KindOf;
    StandsAtHead(ts, at, Print(e));
    if e.Not? {
      StandsAtConcat(ts, at, [Word(e.word)], Print(e.operand));
      NotPrinted(ts, at + 1, e.operand, scope);
    } else {
      FirstToken(e);
      ComparisonPrinted(ts, at, e, scope);
    }
  }

  lemma {:induction false} FirstToken(e: Expr)
    requires Spelled(e) && Parenthesised(e) && Level(e) >= 3
    ensures Print(e)[0].Word? ==> KindOf(Print(e)[0].word) != NotWord
  {
    hide KindOf;
    if e.Compare? || e.Concat? {
      FirstToken(e.left);
    }
  }

  /** A comparison of two results; a second comparison sign would not be read. */
  lemma ComparisonStep(ts: seq<Token>, at: nat, a: Val, p: nat, r: Parsed, scope: Scope)
    requires at <= |ts| && p < |ts| && (ts[p] == Equal || ts[p] == NotEqual)
    requires ParseConcatenation(ts, at, scope) == Ok((a, p)) && ParseConcatenation(ts, p + 1, scope) == r
    ensures ParseComparison(ts, at, scope)
         == (match r
             case Ok((b, q)) =>
               (match Comparison(ts[p] == Equal, a, b, scope) case Ok(v) => Ok((v, q)) case Err(x) => Err(x))
             case Err(x) => Err(x))
  {
    hide ParseConcatenation, Comparison;
  }

  /** An operand with no comparison sign behind it. */
  lemma NoComparison(ts: seq<Token>, at: nat, v: Val, end: nat, scope: Scope)
    requires at <= |ts| && end <= |ts| && Tight(ts, end) <= 2
    requires ParseConcatenation(ts, at, scope) == ConcatLoop(ts, v, end, scope)
    ensures ParseComparison(ts, at, scope) == Ok((v, end))
  {
    hide ParseConcatenation, KindOf;
  }

  lemma ConcatStops(ts: seq<Token>, v: Val, end: nat, scope: Scope)
    requires end <= |ts| && Tight(ts, end) <= 3
    ensures ConcatLoop(ts, v, end, scope) == Ok((v, end))
  {
    hide ParsePrimary, KindOf;
  }

  lemma {:induction false} ComparisonPrinted(ts: seq<Token>, at: nat, e: Expr, scope: Scope)
    requires Stands(ts, at, e) && Level(e) >= 3 && Tight(ts, at + |Print(e)|) <= 2
    ensures ParseComparison(ts, at, scope) == ResultOf(e, at + |Print(e)|, scope)
    decreases e, 2
  {
    hide KindOf, ParseConcatenation, ConcatLoop, Eval, Parenthesised, Spelled;
    if e.Compare? {
      ComparePrinted(ts, at, e.left, e.equal, e.right, scope);
    } else {
      ConcatPrinted(ts, at, e, scope);
      if Eval(e, scope).Ok? {
        NoComparison(ts, at, Eval(e, scope).value, at + |Print(e)|, scope);
      }
    }
  }

  lemma {:induction false} ComparePrinted(ts: seq<Token>, at: nat, l: Expr, equal: bool, r: Expr, scope: Scope)
    requires Stands(ts, at, Compare(l, equal, r)) && Tight(ts, at + |Print(Compare(l, equal, r))|) <= 2
    ensures ParseComparison(ts, at, scope)
         == ResultOf(Compare(l, equal, r), at + |Print(Compare(l, equal, r))|, scope)
    decreases Compare(l, equal, r), 2, 0
  {
    hide KindOf, Comparison, ParseConcatenation, ConcatLoop, StandsAt, Tight;
    hide Spelled, Parenthesised, ClosedBut, Print;
    var p := at + |Print(l)|;
    CompareStands(ts, at, l, equal, r);
    ConcatPrinted(ts, at, l, scope);
    ConcatPrinted(ts, p + 1, r, scope);
    SignIsLoose(ts, p);
    StandsWithin(ts, p + 1, Print(r));
    if Eval(l, scope).Ok? {
      ConcatStops(ts, Eval(l, scope).value, p, scope);
      if Eval(r, scope).Ok? {
        ConcatStops(ts, Eval(r, scope).value, p + 1 + |Print(r)|, scope);
      }
      ComparisonStep(ts, at, Eval(l, scope).value, p, ResultOf(r, p + 1 + |Print(r)|, scope), scope);
    }
  }

  lemma StandsWithin(ts: seq<Token>, at: nat, w: seq<Token>)
    requires StandsAt(ts, at, w)
    ensures at + |w| <= |ts|
  {
  }

  lemma SignIsLoose(ts: seq<Token>, p: nat)
    requires TokenAt(ts, p, Equal) || TokenAt(ts, p, NotEqual)
    ensures Tight(ts, p) == 3
  {
  }

  lemma {:induction false} ConcatPrinted(ts: seq<Token>, at: nat, e: Expr, scope: Scope)
    requires Stands(ts, at, e) && Level(e) >= 4
    ensures ParseConcatenation(ts, at, scope)
         == (match Eval(e, scope) case Ok(v) => ConcatLoop(ts, v, at + |Print(e)|, scope) case Err(x) => Err(x))
    decreases e, 1
  {
    hide KindOf, ParsePrimary, Concatenation, StandsAt, Spelled, Parenthesised, ClosedBut, Print;
    if e.Concat? {
      ConcatStands(ts, at, e.left, e.right);
      ConcatPrinted(ts, at, e.left, scope);
      PrimaryPrinted(ts, at + |Print(e.left)| + 1, e.right, scope);
    } else {
      PrimaryPrinted(ts, at, e, scope);
    }
  }

  lemma LeafPrinted(ts: seq<Token>, at: nat, t: Token, scope: Scope)
    requires IsLeaf(t) && TokenAt(ts, at, t)
    ensures ParsePrimary(ts, at, scope) == ResultOf(Leaf(t), at + 1, scope)
  {
    hide KindOf, ParameterValue;
  }

  lemma {:induction false} PrimaryPrinted(ts: seq<Token>, at: nat, e: Expr, scope: Scope)
    requires Stands(ts, at, e) && Level(e) == 5
    ensures ParsePrimary(ts, at, scope) == ResultOf(e, at + |Print(e)|, scope)
    decreases e, 0
  {
    hide ParsePrimary, Eval, StandsAt;
    match e
    case Leaf(t) =>
      StandsAtHead(ts, at, Print(e));
      LeafPrinted(ts, at, t, scope);
    case Paren(x) => ParenPrinted(ts, at, x, scope);
    case ValueOf(w, path, closed) => ValuePrinted(ts, at, w, path, closed, scope);
    case Contains(w, h, n) => ContainsPrinted(ts, at, w, h, n, scope);
  }

  lemma {:induction false} ParenPrinted(ts: seq<Token>, at: nat, x: Expr, scope: Scope)
    requires Stands(ts, at, Paren(x))
    ensures ParsePrimary(ts, at, scope) == ResultOf(Paren(x), at + |Print(Paren(x))|, scope)
    decreases x, 7
  {
    hide ParseOr, ParsePrimary, KindOf, StandsAt;
    StandsAtConcat(ts, at, [Open], Print(x) + [Close]);
    StandsAtOne(ts, at, Open);
    StandsAtConcat(ts, at + 1, Print(x), [Close]);
    StandsAtOne(ts, at + 1 + |Print(x)|, Close);
    WholePrinted(ts, at + 1, x, scope);
    ParenStep(ts, at, at + 1 + |Print(x)|, Eval(x, scope), scope);
  }

  lemma ParenStep(ts: seq<Token>, at: nat, p: nat, x: Outcome<Val>, scope: Scope)
    requires TokenAt(ts, at, Open) && TokenAt(ts, p, Close) && ParseOr(ts, at + 1, scope) == Placed(x, p)
    ensures ParsePrimary(ts, at, scope) == Placed(x, p + 1)
  {
    hide ParseOr;
  }

  lemma {:induction false} PathPrinted(ts: seq<Token>, at: nat, before: seq<string>, path: seq<Token>, closed: bool)
    requires IsPath(path) && StandsAt(ts, at, path)
    requires if closed then TokenAt(ts, at + |path|, Close) else at + |path| == |ts|
    ensures ParsePath(ts, at, before) == Ok((before + PathTexts(path), at + |path| + (if closed then 1 else 0)))
    decreases |path|
  {
    if path == [] {
      assert before + PathTexts(path) == before;
    } else {
      StandsAtHead(ts, at, path);
      assert path == [path[0]] + path[1..];
      StandsAtConcat(ts, at, [path[0]], path[1..]);
      PathPrinted(ts, at + 1, before + [PathText(path[0])], path[1..], closed);
      OneMoreText(before, path[0], path[1..]);
    }
  }

  lemma ValuePrinted(ts: seq<Token>, at: nat, w: string, path: seq<Token>, closed: bool, scope: Scope)
    requires Stands(ts, at, ValueOf(w, path, closed))
    ensures ParsePrimary(ts, at, scope)
         == ResultOf(ValueOf(w, path, closed), at + |Print(ValueOf(w, path, closed))|, scope)
  {
    hide ParsePath, KindOf, PathValue;
    var tail := if closed then [Close] else [];
    StandsAtConcat(ts, at, [Word(w), Open], path + tail);
    assert ts[at] == ts[at..at + 2][0] && ts[at + 1] == ts[at..at + 2][1];
    StandsAtConcat(ts, at + 2, path, tail);
    if closed {
      StandsAtOne(ts, at + 2 + |path|, Close);
    }
    PathPrinted(ts, at + 2, [], path, closed);
    assert [] + PathTexts(path) == PathTexts(path);
  }

  /** The parts of a printed containment test. */
  lemma ContainsLaid(ts: seq<Token>, at: nat, w: string, h: seq<Token>, n: seq<Token>)
    ensures StandsAt(ts, at, [Word(w), Open] + (h + ([Comma] + (n + [Close]))))
       <==> TokenAt(ts, at, Word(w)) && TokenAt(ts, at + 1, Open) && StandsAt(ts, at + 2, h)
            && TokenAt(ts, at + 2 + |h|, Comma) && StandsAt(ts, at + 3 + |h|, n)
            && TokenAt(ts, at + 3 + |h| + |n|, Close)
  {
    hide StandsAt;
    var p := at + 2 + |h|;
    StandsAtConcat(ts, p + 1, n, [Close]);
    StandsAtOne(ts, p + 1 + |n|, Close);
    StandsAtConcat(ts, p, [Comma], n + [Close]);
    StandsAtOne(ts, p, Comma);
    StandsAtConcat(ts, at + 2, h, [Comma] + (n + [Close]));
    StandsAtConcat(ts, at, [Word(w), Open], h + ([Comma] + (n + [Close])));
    HeadStands(ts, at, w);
  }

  lemma HeadStands(ts: seq<Token>, at: nat, word: string)
    ensures StandsAt(ts, at, [Word(word), Open]) <==> TokenAt(ts, at, Word(word)) && TokenAt(ts, at + 1, Open)
  {
    hide StandsAt;
    assert [Word(word)] + [Open] == [Word(word), Open];
    StandsAtConcat(ts, at, [Word(word)], [Open]);
    StandsAtOne(ts, at, Word(word));
    StandsAtOne(ts, at + 1, Open);
  }

  lemma ContainsStands(ts: seq<Token>, at: nat, w: string, h: Expr, n: Expr)
    ensures |Print(Contains(w, h, n))| == |Print(h)| + |Print(n)| + 4
    ensures Stands(ts, at, Contains(w, h, n))
       <==> TokenAt(ts, at, Word(w)) && KindOf(w) == ContainsWord && TokenAt(ts, at + 1, Open) && Stands(ts, at + 2, h)
            && TokenAt(ts, at + 2 + |Print(h)|, Comma) && Stands(ts, at + 3 + |Print(h)|, n)
            && TokenAt(ts, at + 3 + |Print(h)| + |Print(n)|, Close)
  {
    hide StandsAt, KindOf;
    ContainsLaid(ts, at, w, Print(h), Print(n));
  }

  lemma {:induction false} ContainsPrinted(ts: seq<Token>, at: nat, w: string, h: Expr, n: Expr, scope: Scope)
    requires Stands(ts, at, Contains(w, h, n))
    ensures ParsePrimary(ts, at, scope) == ResultOf(Contains(w, h, n), at + |Print(Contains(w, h, n))|, scope)
    decreases Contains(w, h, n), 0, 0
  {
    hide ParseOr, ParsePrimary, KindOf, Containment, StandsAt, Spelled, Parenthesised, ClosedBut, Print;
    ContainsStands(ts, at, w, h, n);
    WholePrinted(ts, at + 2, h, scope);
    WholePrinted(ts, at + 3 + |Print(h)|, n, scope);
    ContainsStep(ts, at, w, at + 2 + |Print(h)|, at + 3 + |Print(h)| + |Print(n)|, Eval(h, scope), Eval(n, scope),
                 scope);
  }

  lemma ContainsStep(
      ts: seq<Token>, at: nat, w: string, p: nat, q: nat, h: Outcome<Val>, n: Outcome<Val>, scope: Scope)
    requires TokenAt(ts, at, Word(w)) && KindOf(w) == ContainsWord && TokenAt(ts, at + 1, Open)
    requires TokenAt(ts, p, Comma) && TokenAt(ts, q, Close)
    requires ParseOr(ts, at + 2, scope) == Placed(h, p) && ParseOr(ts, p + 1, scope) == Placed(n, q)
    ensures h.Err? ==> ParsePrimary(ts, at, scope) == Err(h.error)
    ensures h.Ok? && n.Err? ==> ParsePrimary(ts, at, scope) == Err(n.error)
    ensures h.Ok? && n.Ok? ==> ParsePrimary(ts, at, scope) == Placed(Containment(h.value, n.value), q + 1)
  {
    hide ParseOr, KindOf, Containment;
  }

  // ---- from a value to a tree ----

  /** A tree that stands from a position up to another one and has a value. */
  ghost predicate Spans(ts: seq<Token>, at: nat, e: Expr, level: nat, end: nat, v: Val, scope: Scope) {
    && Stands(ts, at, e) && Level(e) >= level && end == at + |Print(e)|
    && Eval(e, scope) == Ok(v)
  }

  lemma {:induction false} OrHasTree(ts: seq<Token>, at: nat, scope: Scope) returns (e: Expr)
    requires at <= |ts| && ParseOr(ts, at, scope).Ok?
    ensures var (v, end) := ParseOr(ts, at, scope).value; Spans(ts, at, e, 0, end, v, scope)
    decreases |ts| - at, 6
  {
    hide ParseAnd, OrLoop, Spans;
    var (left, p) := ParseAnd(ts, at, scope).value;
    var tree := AndHasTree(ts, at, scope);
    Loosen(ts, at, tree, 1, p, left, scope, 0);
    e := OrLoopHasTree(ts, at, tree, left, p, scope);
  }

  lemma Loosen(ts: seq<Token>, at: nat, e: Expr, level: nat, end: nat, v: Val, scope: Scope, lower: nat)
    requires Spans(ts, at, e, level, end, v, scope) && lower <= level
    ensures Spans(ts, at, e, lower, end, v, scope)
  {
  }

  lemma {:induction false} OrLoopHasTree(
      ts: seq<Token>, at: nat, tree: Expr, left: Val, p: nat, scope: Scope) returns (e: Expr)
    requires at <= p <= |ts| && Spans(ts, at, tree, 0, p, left, scope) && OrLoop(ts, left, p, scope).Ok?
    ensures var (v, end) := OrLoop(ts, left, p, scope).value; Spans(ts, at, e, 0, end, v, scope)
    decreases |ts| - p, 7
  {
    hide ParseAnd, Spans;
    if WordAt(ts, p, OrWord) {
      var right := AndHasTree(ts, p + 1, scope);
      var (b, q) := ParseAnd(ts, p + 1, scope).value;
      var v := Disjunction(left, b).value;
      OrSpans(ts, at, tree, left, p, right, b, q, scope);
      e := OrLoopHasTree(ts, at, Or(tree, ts[p].word, right), v, q, scope);
    } else {
      e := tree;
    }
  }

  lemma OrSpans(ts: seq<Token>, at: nat, l: Expr, a: Val, p: nat, r: Expr, b: Val, q: nat, scope: Scope)
    requires Spans(ts, at, l, 0, p, a, scope) && WordAt(ts, p, OrWord) && Spans(ts, p + 1, r, 1, q, b, scope)
    requires Disjunction(a, b).Ok?
    ensures Spans(ts, at, Or(l, ts[p].word, r), 0, q, Disjunction(a, b).value, scope)
  {
    hide KindOf, Disjunction, StandsAt, Spelled, Parenthesised, ClosedBut, Eval, Print;
    OrStands(ts, at, l, ts[p].word, r);
    EvalOr(l, ts[p].word, r, a, b, scope);
  }

  lemma EvalOr(l: Expr, word: string, r: Expr, a: Val, b: Val, scope: Scope)
    requires Spelled(Or(l, word, r)) && Eval(l, scope) == Ok(a) && Eval(r, scope) == Ok(b)
    ensures Eval(Or(l, word, r), scope) == Disjunction(a, b)
  {
    hide Disjunction, KindOf;
  }

  lemma {:induction false} AndHasTree(ts: seq<Token>, at: nat, scope: Scope) returns (e: Expr)
    requires at <= |ts| && ParseAnd(ts, at, scope).Ok?
    ensures var (v, end) := ParseAnd(ts, at, scope).value; Spans(ts, at, e, 1, end, v, scope)
    decreases |ts| - at, 4
  {
    hide ParseNot, AndLoop, Spans;
    var (left, p) := ParseNot(ts, at, scope).value;
    var tree := NotHasTree(ts, at, scope);
    Loosen(ts, at, tree, 2, p, left, scope, 1);
    e := AndLoopHasTree(ts, at, tree, left, p, scope);
  }

  lemma {:induction false} AndLoopHasTree(
      ts: seq<Token>, at: nat, tree: Expr, left: Val, p: nat, scope: Scope) returns (e: Expr)
    requires at <= p <= |ts| && Spans(ts, at, tree, 1, p, left, scope) && AndLoop(ts, left, p, scope).Ok?
    ensures var (v, end) := AndLoop(ts, left, p, scope).value; Spans(ts, at, e, 1, end, v, scope)
    decreases |ts| - p, 5
  {
    hide ParseNot, Spans;
    if WordAt(ts, p, AndWord) {
      var right := NotHasTree(ts, p + 1, scope);
      var (b, q) := ParseNot(ts, p + 1, scope).value;
      var v := Conjunction(left, b).value;
      AndSpans(ts, at, tree, left, p, right, b, q, scope);
      e := AndLoopHasTree(ts, at, And(tree, ts[p].word, right), v, q, scope);
    } else {
      e := tree;
    }
  }

  lemma AndSpans(ts: seq<Token>, at: nat, l: Expr, a: Val, p: nat, r: Expr, b: Val, q: nat, scope: Scope)
    requires Spans(ts, at, l, 1, p, a, scope) && WordAt(ts, p, AndWord) && Spans(ts, p + 1, r, 2, q, b, scope)
    requires Conjunction(a, b).Ok?
    ensures Spans(ts, at, And(l, ts[p].word, r), 1, q, Conjunction(a, b).value, scope)
  {
    hide KindOf, Conjunction, StandsAt, Spelled, Parenthesised, ClosedBut, Eval, Print;
    AndStands(ts, at, l, ts[p].word, r);
    EvalAnd(l, ts[p].word, r, a, b, scope);
  }

  lemma EvalAnd(l: Expr, word: string, r: Expr, a: Val, b: Val, scope: Scope)
    requires Spelled(And(l, word, r)) && Eval(l, scope) == Ok(a) && Eval(r, scope) == Ok(b)
    ensures Eval(And(l, word, r), scope) == Conjunction(a, b)
  {
    hide Conjunction, KindOf;
  }

  lemma {:induction false} NotHasTree(ts: seq<Token>, at: nat, scope: Scope) returns (e: Expr)
    requires at <= |ts| && ParseNot(ts, at, scope).Ok?
    ensures var (v, end) := ParseNot(ts, at, scope).value; Spans(ts, at, e, 2, end, v, scope)
    decreases |ts| - at, 3
  {
    hide ParseComparison, Spans;
    if WordAt(ts, at, NotWord) {
      var x := NotHasTree(ts, at + 1, scope);
      var (v, end) := ParseNot(ts, at + 1, scope).value;
      NotSpans(ts, at, x, v, end, scope);
      e := Not(ts[at].word, x);
    } else {
      var (v, end) := ParseComparison(ts, at, scope).value;
      e := ComparisonHasTree(ts, at, scope);
      Loosen(ts, at, e, 3, end, v, scope, 2);
    }
  }

  lemma NotSpans(ts: seq<Token>, at: nat, x: Expr, v: Val, end: nat, scope: Scope)
    requires WordAt(ts, at, NotWord) && Spans(ts, at + 1, x, 2, end, v, scope) && Negation(v).Ok?
    ensures Spans(ts, at, Not(ts[at].word, x), 2, end, Negation(v).value, scope)
  {
    hide KindOf, Negation, StandsAt;
    StandsAtOne(ts, at, ts[at]);
    StandsAtConcat(ts, at, [ts[at]], Print(x));
  }

  lemma {:induction false} ComparisonHasTree(ts: seq<Token>, at: nat, scope: Scope) returns (e: Expr)
    requires at <= |ts| && ParseComparison(ts, at, scope).Ok?
    ensures var (v, end) := ParseComparison(ts, at, scope).value; Spans(ts, at, e, 3, end, v, scope)
    decreases |ts| - at, 2
  {
    hide ParseConcatenation, Spans;
    var (a, p) := ParseConcatenation(ts, at, scope).value;
    var l := ConcatHasTree(ts, at, scope);
    if TokenAt(ts, p, Equal) || TokenAt(ts, p, NotEqual) {
      var (b, q) := ParseConcatenation(ts, p + 1, scope).value;
      var r := ConcatHasTree(ts, p + 1, scope);
      CompareSpans(ts, at, l, a, p, r, b, q, scope);
      e := Compare(l, ts[p] == Equal, r);
    } else {
      Loosen(ts, at, l, 4, p, a, scope, 3);
      e := l;
    }
  }

  lemma CompareSpans(ts: seq<Token>, at: nat, l: Expr, a: Val, p: nat, r: Expr, b: Val, q: nat, scope: Scope)
    requires Spans(ts, at, l, 4, p, a, scope) && Spans(ts, p + 1, r, 4, q, b, scope)
    requires (TokenAt(ts, p, Equal) || TokenAt(ts, p, NotEqual)) && Comparison(ts[p] == Equal, a, b, scope).Ok?
    ensures Spans(ts, at, Compare(l, ts[p] == Equal, r), 3, q, Comparison(ts[p] == Equal, a, b, scope).value, scope)
  {
    hide Comparison, StandsAt, Spelled, Parenthesised, ClosedBut, Eval, Print;
    CompareStands(ts, at, l, ts[p] == Equal, r);
    EvalCompare(l, ts[p] == Equal, r, a, b, scope);
  }

  lemma EvalCompare(l: Expr, equal: bool, r: Expr, a: Val, b: Val, scope: Scope)
    requires Spelled(l) && Spelled(r) && Eval(l, scope) == Ok(a) && Eval(r, scope) == Ok(b)
    ensures Eval(Compare(l, equal, r), scope) == Comparison(equal, a, b, scope)
  {
    hide Comparison;
  }

  lemma {:induction false} ConcatHasTree(ts: seq<Token>, at: nat, scope: Scope) returns (e: Expr)
    requires at <= |ts| && ParseConcatenation(ts, at, scope).Ok?
    ensures var (v, end) := ParseConcatenation(ts, at, scope).value; Spans(ts, at, e, 4, end, v, scope)
    decreases |ts| - at, 1
  {
    hide ParsePrimary, ConcatLoop, Spans;
    var (left, p) := ParsePrimary(ts, at, scope).value;
    var tree := PrimaryHasTree(ts, at, scope);
    Loosen(ts, at, tree, 5, p, left, scope, 4);
    e := ConcatLoopHasTree(ts, at, tree, left, p, scope);
  }

  lemma {:induction false} ConcatLoopHasTree(
      ts: seq<Token>, at: nat, tree: Expr, left: Val, p: nat, scope: Scope) returns (e: Expr)
    requires at <= p <= |ts| && Spans(ts, at, tree, 4, p, left, scope) && ConcatLoop(ts, left, p, scope).Ok?
    ensures var (v, end) := ConcatLoop(ts, left, p, scope).value; Spans(ts, at, e, 4, end, v, scope)
    decreases |ts| - p, 1
  {
    hide ParsePrimary, Spans;
    if TokenAt(ts, p, Plus) {
      var right := PrimaryHasTree(ts, p + 1, scope);
      var (b, q) := ParsePrimary(ts, p + 1, scope).value;
      var v := Concatenation(left, b).value;
      ConcatSpans(ts, at, tree, left, p, right, b, q, scope);
      e := ConcatLoopHasTree(ts, at, Concat(tree, right), v, q, scope);
    } else {
      e := tree;
    }
  }

  lemma ConcatSpans(ts: seq<Token>, at: nat, l: Expr, a: Val, p: nat, r: Expr, b: Val, q: nat, scope: Scope)
    requires Spans(ts, at, l, 4, p, a, scope) && TokenAt(ts, p, Plus) && Spans(ts, p + 1, r, 5, q, b, scope)
    requires Concatenation(a, b).Ok?
    ensures Spans(ts, at, Concat(l, r), 4, q, Concatenation(a, b).value, scope)
  {
    hide Concatenation, StandsAt, Spelled, Parenthesised, ClosedBut, Eval, Print;
    ConcatStands(ts, at, l, r);
    EvalConcat(l, r, a, b, scope);
  }

  lemma EvalConcat(l: Expr, r: Expr, a: Val, b: Val, scope: Scope)
    requires Spelled(l) && Spelled(r) && Eval(l, scope) == Ok(a) && Eval(r, scope) == Ok(b)
    ensures Eval(Concat(l, r), scope) == Concatenation(a, b)
  {
    hide Concatenation;
  }

  lemma {:induction false} PrimaryHasTree(ts: seq<Token>, at: nat, scope: Scope) returns (e: Expr)
    requires at <= |ts| && ParsePrimary(ts, at, scope).Ok?
    ensures var (v, end) := ParsePrimary(ts, at, scope).value; Spans(ts, at, e, 5, end, v, scope)
    decreases |ts| - at, 0
  {
    hide ParseOr, ParseWord, Spans, ParameterValue, KindOf;
    if ts[at] == Open {
      var x := OrHasTree(ts, at + 1, scope);
      var (v, p) := ParseOr(ts, at + 1, scope).value;
      ParenSpans(ts, at, x, v, p, scope);
      e := Paren(x);
    } else if ts[at].Word? {
      e := WordHasTree(ts, at, scope);
    } else {
      LeafSpans(ts, at, scope);
      e := Leaf(ts[at]);
    }
  }

  lemma LeafSpans(ts: seq<Token>, at: nat, scope: Scope)
    requires at < |ts| && IsLeaf(ts[at]) && ParsePrimary(ts, at, scope).Ok?
    ensures var (v, end) := ParsePrimary(ts, at, scope).value; Spans(ts, at, Leaf(ts[at]), 5, end, v, scope)
  {
    hide KindOf, ParameterValue, ParseOr;
    StandsAtOne(ts, at, ts[at]);
  }

  lemma ParenSpans(ts: seq<Token>, at: nat, x: Expr, v: Val, p: nat, scope: Scope)
    requires TokenAt(ts, at, Open) && Spans(ts, at + 1, x, 0, p, v, scope) && TokenAt(ts, p, Close)
    ensures Spans(ts, at, Paren(x), 5, p + 1, v, scope)
  {
    hide StandsAt;
    StandsAtOne(ts, at, Open);
    StandsAtOne(ts, p, Close);
    StandsAtConcat(ts, at + 1, Print(x), [Close]);
    StandsAtConcat(ts, at, [Open], Print(x) + [Close]);
  }

  lemma {:induction false} WordHasTree(ts: seq<Token>, at: nat, scope: Scope) returns (e: Expr)
    requires at < |ts| && ts[at].Word? && ParseWord(ts, at, ts[at].word, scope).Ok?
    ensures var (v, end) := ParseWord(ts, at, ts[at].word, scope).value; Spans(ts, at, e, 5, end, v, scope)
    decreases |ts| - at - 1, 8
  {
    hide ParseOr, ParsePath, Spans, KindOf, Containment, PathValue;
    var word := ts[at].word;
    if KindOf(word) == ValueWord {
      var (path, p) := ParsePath(ts, at + 2, []).value;
      var tokens, closed := PathHasTokens(ts, at + 2, []);
      ValueSpans(ts, at, tokens, closed, path, p, scope);
      e := ValueOf(word, tokens, closed);
    } else if KindOf(word) == ContainsWord {
      var h := OrHasTree(ts, at + 2, scope);
      var (a, p) := ParseOr(ts, at + 2, scope).value;
      var n := OrHasTree(ts, p + 1, scope);
      var (b, q) := ParseOr(ts, p + 1, scope).value;
      ContainsSpans(ts, at, h, a, p, n, b, q, scope);
      e := Contains(word, h, n);
    } else {
      WordLeafSpans(ts, at, scope);
      e := Leaf(ts[at]);
    }
  }

  lemma WordLeafSpans(ts: seq<Token>, at: nat, scope: Scope)
    requires at < |ts| && ts[at].Word? && ParseWord(ts, at, ts[at].word, scope).Ok?
    requires KindOf(ts[at].word) != ValueWord && KindOf(ts[at].word) != ContainsWord
    ensures var (v, end) := ParseWord(ts, at, ts[at].word, scope).value; Spans(ts, at, Leaf(ts[at]), 5, end, v, scope)
  {
    hide KindOf, ParseOr, ParsePath;
    StandsAtOne(ts, at, ts[at]);
  }

  lemma {:induction false} PathHasTokens(
      ts: seq<Token>, at: nat, before: seq<string>) returns (path: seq<Token>, closed: bool)
    requires at <= |ts| && ParsePath(ts, at, before).Ok?
    ensures IsPath(path) && StandsAt(ts, at, path)
    ensures if closed then TokenAt(ts, at + |path|, Close) else at + |path| == |ts|
    ensures ParsePath(ts, at, before).value == (before + PathTexts(path), at + |path| + (if closed then 1 else 0))
    decreases |ts| - at
  {
    if at == |ts| || ts[at] == Close {
      path, closed := [], at < |ts|;
      assert before + PathTexts(path) == before;
    } else {
      var rest, more := PathHasTokens(ts, at + 1, before + [PathText(ts[at])]);
      path, closed := [ts[at]] + rest, more;
      OneMoreStands(ts, at, rest);
      OneMoreText(before, ts[at], rest);
    }
  }

  lemma OneMoreStands(ts: seq<Token>, at: nat, rest: seq<Token>)
    requires at < |ts| && StandsAt(ts, at + 1, rest)
    ensures StandsAt(ts, at, [ts[at]] + rest)
  {
    hide StandsAt;
    StandsAtOne(ts, at, ts[at]);
    StandsAtConcat(ts, at, [ts[at]], rest);
  }

  lemma OneMoreText(before: seq<string>, t: Token, rest: seq<Token>)
    requires IsPath(rest) && (t.Word? || t.Str?)
    ensures IsPath([t] + rest) && before + [PathText(t)] + PathTexts(rest) == before + PathTexts([t] + rest)
  {
    assert PathTexts([t] + rest) == [PathText(t)] + PathTexts(rest);
  }

  lemma ValueSpans(ts: seq<Token>, at: nat, path: seq<Token>, closed: bool, texts: seq<string>, end: nat, scope: Scope)
    requires WordAt(ts, at, ValueWord) && TokenAt(ts, at + 1, Open) && IsPath(path) && StandsAt(ts, at + 2, path)
    requires if closed then TokenAt(ts, at + 2 + |path|, Close) else at + 2 + |path| == |ts|
    requires [] + PathTexts(path) == texts && end == at + 2 + |path| + (if closed then 1 else 0)
    ensures Spans(ts, at, ValueOf(ts[at].word, path, closed), 5, end, PathValue(texts), scope)
  {
    hide KindOf, PathValue, StandsAt, IsPath, PathTexts;
    assert [] + PathTexts(path) == PathTexts(path);
    var tail := if closed then [Close] else [];
    TailStands(ts, at + 2 + |path|, closed);
    StandsAtConcat(ts, at + 2, path, tail);
    HeadStands(ts, at, ts[at].word);
    StandsAtConcat(ts, at, [ts[at], Open], path + tail);
  }

  /** A closing parenthesis, or the end of the tokens. */
  lemma TailStands(ts: seq<Token>, at: nat, closed: bool)
    requires if closed then TokenAt(ts, at, Close) else at == |ts|
    ensures StandsAt(ts, at, if closed then [Close] else [])
  {
    if closed {
      StandsAtOne(ts, at, Close);
    }
  }

  lemma ContainsSpans(ts: seq<Token>, at: nat, h: Expr, a: Val, p: nat, n: Expr, b: Val, q: nat, scope: Scope)
    requires WordAt(ts, at, ContainsWord) && TokenAt(ts, at + 1, Open) && Spans(ts, at + 2, h, 0, p, a, scope)
    requires TokenAt(ts, p, Comma) && Spans(ts, p + 1, n, 0, q, b, scope) && TokenAt(ts, q, Close)
    requires Containment(a, b).Ok?
    ensures Spans(ts, at, Contains(ts[at].word, h, n), 5, q + 1, Containment(a, b).value, scope)
  {
    hide KindOf, Containment, StandsAt, Spelled, Parenthesised, ClosedBut, Print, Eval;
    ContainsStands(ts, at, ts[at].word, h, n);
    EvalContains(ts[at].word, h, n, a, b, scope);
  }

  lemma EvalContains(word: string, h: Expr, n: Expr, a: Val, b: Val, scope: Scope)
    requires Spelled(Contains(word, h, n)) && Eval(h, scope) == Ok(a) && Eval(n, scope) == Ok(b)
    ensures Eval(Contains(word, h, n), scope) == Containment(a, b)
  {
    hide Containment, KindOf;
  }

  // ---- whole expressions ----

  /** A tree that makes up all the tokens. */
  ghost predicate Writes(e: Expr, ts: seq<Token>) {
    Spelled(e) && Parenthesised(e) && ClosedBut(e, true) && Print(e) == ts
  }

  /** On the tokens of a tree the evaluator gives the tree's boolean value, or its error. */
  lemma EvaluatesTree(e: Expr, scope: Scope)
    requires Writes(e, Print(e))
    ensures EvaluateTokens(Print(e), scope)
         == (match Eval(e, scope) case Ok(v) => AsBoolean(v, Branch) case Err(x) => Err(x))
  {
    hide ParseOr, Eval, Print;
    var ts := Print(e);
    assert ts[0..|ts|] == ts;
    WholePrinted(ts, 0, e, scope);
  }

  /** The evaluator accepts exactly the tokens of trees that evaluate to a boolean. */
  lemma EvaluatesExactly(ts: seq<Token>, scope: Scope, b: bool)
    ensures EvaluateTokens(ts, scope) == Ok(b) <==> exists e :: Writes(e, ts) && Eval(e, scope) == Ok(BoolVal(b))
  {
    hide ParseOr, Eval, Print;
    if EvaluateTokens(ts, scope) == Ok(b) {
      var e := OrHasTree(ts, 0, scope);
      assert ts[0..|ts|] == ts;
      assert Writes(e, ts) && Eval(e, scope) == Ok(BoolVal(b));
    }
    if exists e :: Writes(e, ts) && Eval(e, scope) == Ok(BoolVal(b)) {
      var e :| Writes(e, ts) && Eval(e, scope) == Ok(BoolVal(b));
      EvaluatesTree(e, scope);
    }
  }

  // ---- values left open ----

  /** A condition whose last parenthesis is missing: `value(x) = value(x`. */
  const OPEN_VALUE: seq<Token> := [Word("value"), Open, Word("x"), Close, Equal, Word("value"), Open, Word("x")]

  /** It is taken, and true. */
  lemma OpenValueAccepted(scope: Scope)
    ensures EvaluateTokens(OPEN_VALUE, scope) == Ok(true)
  {
    hide EvaluateTokens;
    var left, right := ValueOf("value", [Word("x")], true), ValueOf("value", [Word("x")], false);
    var e := Compare(left, true, right);
    ValueOfX();
    assert Print(e) == OPEN_VALUE;
    EvaluatesTree(e, scope);
    assert PathTexts([Word("x")]) == ["x"];
  }

  lemma ValueOfX()
    ensures KindOf("value") == ValueWord && PathValue(["x"]) == Reference("x")
  {
    assert Lower("value") == "value" && Lower("x") == "x";
  }

  function Opened(ts: seq<Token>): (n: int) {
    multiset(ts)[Open] as int - multiset(ts)[Close] as int
  }

  lemma OpenedAppend(a: seq<Token>, b: seq<Token>)
    ensures Opened(a + b) == Opened(a) + Opened(b)
  {
  }

  lemma {:induction false} ClosedAnywhere(e: Expr)
    requires ClosedBut(e, false)
    ensures ClosedBut(e, true)
  {
    match e
    case Or(_, _, r) => ClosedAnywhere(r);
    case And(_, _, r) => ClosedAnywhere(r);
    case Not(_, x) => ClosedAnywhere(x);
    case Compare(_, _, r) => ClosedAnywhere(r);
    case Concat(_, r) => ClosedAnywhere(r);
    case _ =>
  }

  /** One parenthesis stays open if and only if a value does. */
  lemma {:induction false} OpenedBySome(e: Expr)
    requires Spelled(e) && ClosedBut(e, true)
    ensures Opened(Print(e)) == if ClosedBut(e, false) then 0 else 1
    decreases e, 0
  {
    hide KindOf, Opened;
    match e
    case Leaf(t) => OpenedByOne(t);
    case Or(l, w, r) =>
      OpenedByClosed(l);
      OpenedBySome(r);
      OpenedByBinary(Print(l), Word(w), Print(r));
    case And(l, w, r) =>
      OpenedByClosed(l);
      OpenedBySome(r);
      OpenedByBinary(Print(l), Word(w), Print(r));
    case Not(w, x) =>
      OpenedAppend([Word(w)], Print(x));
      OpenedByOne(Word(w));
      OpenedBySome(x);
    case Compare(l, equal, r) =>
      OpenedByClosed(l);
      OpenedBySome(r);
      OpenedByBinary(Print(l), if equal then Equal else NotEqual, Print(r));
    case Concat(l, r) =>
      OpenedByClosed(l);
      OpenedBySome(r);
      OpenedByBinary(Print(l), Plus, Print(r));
    case Paren(x) =>
      OpenedByClosed(x);
      OpenedByOne(Open);
      OpenedByPair([Open], Print(x));
    case ValueOf(w, path, closed) => OpenedByValue(w, path, closed);
    case Contains(w, h, n) =>
      OpenedByClosed(h);
      OpenedByClosed(n);
      OpenedByBinary(Print(h), Comma, Print(n));
      OpenedByHead(w);
      OpenedByPair([Word(w), Open], Print(h) + ([Comma] + Print(n)));
      assert Print(h) + ([Comma] + Print(n)) + [Close] == Print(h) + ([Comma] + (Print(n) + [Close]));
  }

  lemma {:induction false} OpenedByClosed(e: Expr)
    requires Spelled(e) && ClosedBut(e, false)
    ensures Opened(Print(e)) == 0
    decreases e, 1
  {
    hide Opened;
    ClosedAnywhere(e);
    OpenedBySome(e);
  }

  lemma OpenedByOne(t: Token)
    ensures Opened([t]) == if t == Open then 1 else if t == Close then -1 else 0
  {
  }

  lemma OpenedByHead(word: string)
    ensures Opened([Word(word), Open]) == 1
  {
    assert [Word(word), Open] == [Word(word)] + [Open];
  }

  lemma OpenedByPair(head: seq<Token>, inner: seq<Token>)
    requires Opened(head) == 1
    ensures Opened(head + (inner + [Close])) == Opened(inner)
  {
    hide Opened;
    OpenedAppend(inner, [Close]);
    OpenedAppend(head, inner + [Close]);
    OpenedByOne(Close);
  }

  lemma OpenedByBinary(l: seq<Token>, operator: Token, r: seq<Token>)
    requires Opened(l) == 0 && operator !in {Open, Close}
    ensures Opened(l + ([operator] + r)) == Opened(r)
  {
    hide Opened;
    OpenedAppend([operator], r);
    OpenedAppend(l, [operator] + r);
    OpenedByOne(operator);
  }

  lemma OpenedByValue(w: string, path: seq<Token>, closed: bool)
    requires IsPath(path)
    ensures Opened(Print(ValueOf(w, path, closed))) == if closed then 0 else 1
  {
    hide Opened;
    OpenedByHead(w);
    OpenedByPath(path);
    if closed {
      OpenedByPair([Word(w), Open], path);
    } else {
      assert path + [] == path;
      OpenedAppend([Word(w), Open], path);
    }
  }

  lemma OpenedByPath(path: seq<Token>)
    requires IsPath(path)
    ensures Opened(path) == 0
  {
    assert Open !in path && Close !in path;
  }

  /** What is accepted leaves a value open exactly when it has more opening parentheses than closing ones. */
  lemma ClosedExactly(ts: seq<Token>, scope: Scope, b: bool)
    requires EvaluateTokens(ts, scope) == Ok(b)
    ensures (exists e :: Writes(e, ts) && ClosedBut(e, false)) <==> multiset(ts)[Open] == multiset(ts)[Close]
    ensures multiset(ts)[Close] <= multiset(ts)[Open] <= multiset(ts)[Close] + 1
  {
    hide EvaluateTokens, Eval, Spelled, Parenthesised, ClosedBut, Print;
    EvaluatesExactly(ts, scope, b);
    var e :| Writes(e, ts) && Eval(e, scope) == Ok(BoolVal(b));
    OpenedBySome(e);
    if exists other :: Writes(other, ts) && ClosedBut(other, false) {
      var other :| Writes(other, ts) && ClosedBut(other, false);
      OpenedBySome(other);
    }
  }

  // ---- minimal parentheses ----

  /** Parentheses only around an operand that binds less tightly than its place demands. */
  function At(level: nat, e: Expr): (r: Expr)
    requires level <= 5
    ensures Level(r) >= level
  {
    if Level(e) >= level then e else Paren(e)
  }

  /** The tree with the fewest parentheses that keep its shape; its own are dropped. */
  function Minimal(e: Expr): (r: Expr)
  {
    match e
    case Leaf(_) => e
    case Or(l, w, r) => Or(Minimal(l), w, At(1, Minimal(r)))
    case And(l, w, r) => And(At(1, Minimal(l)), w, At(2, Minimal(r)))
    case Not(w, x) => Not(w, At(2, Minimal(x)))
    case Compare(l, equal, r) => Compare(At(4, Minimal(l)), equal, At(4, Minimal(r)))
    case Concat(l, r) => Concat(At(4, Minimal(l)), At(5, Minimal(r)))
    case Paren(x) => Minimal(x)
    case ValueOf(w, path, _) => ValueOf(w, path, true)
    case Contains(w, h, n) => Contains(w, Minimal(h), Minimal(n))
  }

  lemma {:induction false} MinimalIsSpelled(e: Expr)
    requires Spelled(e)
    ensures Spelled(Minimal(e))
  {
    hide KindOf, IsLeaf, IsPath;
    match e
    case Leaf(_) =>
    case Or(l, _, r) =>
      MinimalIsSpelled(l);
      MinimalIsSpelled(r);
    case And(l, _, r) =>
      MinimalIsSpelled(l);
      MinimalIsSpelled(r);
    case Not(_, x) => MinimalIsSpelled(x);
    case Compare(l, _, r) =>
      MinimalIsSpelled(l);
      MinimalIsSpelled(r);
    case Concat(l, r) =>
      MinimalIsSpelled(l);
      MinimalIsSpelled(r);
    case Paren(x) => MinimalIsSpelled(x);
    case ValueOf(_, _, _) =>
    case Contains(_, h, n) =>
      MinimalIsSpelled(h);
      MinimalIsSpelled(n);
  }

  lemma {:induction false} MinimalIsParenthesised(e: Expr)
    ensures Parenthesised(Minimal(e))
  {
    hide KindOf;
    match e
    case Leaf(_) =>
    case Or(l, _, r) =>
      MinimalIsParenthesised(l);
      MinimalIsParenthesised(r);
    case And(l, _, r) =>
      MinimalIsParenthesised(l);
      MinimalIsParenthesised(r);
    case Not(_, x) => MinimalIsParenthesised(x);
    case Compare(l, _, r) =>
      MinimalIsParenthesised(l);
      MinimalIsParenthesised(r);
    case Concat(l, r) =>
      MinimalIsParenthesised(l);
      MinimalIsParenthesised(r);
    case Paren(x) => MinimalIsParenthesised(x);
    case ValueOf(_, _, _) =>
    case Contains(_, h, n) =>
      MinimalIsParenthesised(h);
      MinimalIsParenthesised(n);
  }

  lemma {:induction false} MinimalIsClosed(e: Expr)
    ensures ClosedBut(Minimal(e), false)
  {
    hide KindOf;
    match e
    case Leaf(_) =>
    case Or(l, _, r) =>
      MinimalIsClosed(l);
      MinimalIsClosed(r);
    case And(l, _, r) =>
      MinimalIsClosed(l);
      MinimalIsClosed(r);
    case Not(_, x) => MinimalIsClosed(x);
    case Compare(l, _, r) =>
      MinimalIsClosed(l);
      MinimalIsClosed(r);
    case Concat(l, r) =>
      MinimalIsClosed(l);
      MinimalIsClosed(r);
    case Paren(x) => MinimalIsClosed(x);
    case ValueOf(_, _, _) =>
    case Contains(_, h, n) =>
      MinimalIsClosed(h);
      MinimalIsClosed(n);
  }

  /** Minimal parentheses are enough, and every value is closed. */
  lemma MinimalIsEnough(e: Expr)
    requires Spelled(e)
    ensures Spelled(Minimal(e)) && Parenthesised(Minimal(e)) && ClosedBut(Minimal(e), false)
  {
    hide Spelled, Parenthesised, ClosedBut, Minimal;
    MinimalIsSpelled(e);
    MinimalIsParenthesised(e);
    MinimalIsClosed(e);
  }

  /** Parentheses do not change the meaning. */
  lemma {:induction false} MinimalKeepsMeaning(e: Expr, scope: Scope)
    requires Spelled(e) && Spelled(Minimal(e))
    ensures Eval(Minimal(e), scope) == Eval(e, scope)
  {
    hide KindOf, Comparison, Disjunction, Conjunction, Negation, Concatenation, Containment, PathValue, LeafValue;
    match e
    case Leaf(_) =>
    case Or(l, _, r) =>
      MinimalKeepsMeaning(l, scope);
      MinimalKeepsMeaning(r, scope);
    case And(l, _, r) =>
      MinimalKeepsMeaning(l, scope);
      MinimalKeepsMeaning(r, scope);
    case Not(_, x) => MinimalKeepsMeaning(x, scope);
    case Compare(l, _, r) =>
      MinimalKeepsMeaning(l, scope);
      MinimalKeepsMeaning(r, scope);
    case Concat(l, r) =>
      MinimalKeepsMeaning(l, scope);
      MinimalKeepsMeaning(r, scope);
    case Paren(x) => MinimalKeepsMeaning(x, scope);
    case ValueOf(_, _, _) =>
    case Contains(_, h, n) =>
      MinimalKeepsMeaning(h, scope);
      MinimalKeepsMeaning(n, scope);
  }

  /** Any tree, written with minimal parentheses, is evaluated to its own value or error. */
  lemma MinimalRoundTrip(e: Expr, scope: Scope)
    requires Spelled(e)
    ensures EvaluateTokens(Print(Minimal(e)), scope)
         == (match Eval(e, scope) case Ok(v) => AsBoolean(v, Branch) case Err(x) => Err(x))
  {
    hide EvaluateTokens, Eval, Print;
    MinimalIsEnough(e);
    ClosedAnywhere(Minimal(e));
    MinimalKeepsMeaning(e, scope);
    EvaluatesTree(Minimal(e), scope);
  }
}
