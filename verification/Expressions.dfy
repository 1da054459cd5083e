/**
 * The precedence-climbing evaluator of src/access.rs as functions on a token list, and
 * the expression trees it evaluates.
 */
module Expressions {
  import opened Outcomes
  import opened DirectiveTokens

  type Parsed = Outcome<(Val, nat)>

  // ---- the evaluator ----

  predicate WordAt(ts: seq<Token>, at: nat, kind: WordKind) {
    at < |ts| && ts[at].Word? && KindOf(ts[at].word) == kind
  }

  predicate TokenAt(ts: seq<Token>, at: nat, t: Token) {
    at < |ts| && ts[at] == t
  }

  function ParseOr(ts: seq<Token>, at: nat, scope: Scope): (r: Parsed)
    requires at <= |ts|
    ensures r.Ok? ==> at < r.value.1 <= |ts|
    decreases |ts| - at, 6
  {
    var (left, p) :- ParseAnd(ts, at, scope);
    OrLoop(ts, left, p, scope)
  }

  function OrLoop(ts: seq<Token>, left: Val, at: nat, scope: Scope): (r: Parsed)
    requires at <= |ts|
    ensures r.Ok? ==> at <= r.value.1 <= |ts|
    decreases |ts| - at, 7
  {
    if !WordAt(ts, at, OrWord) then Ok((left, at))
    else
      var (right, p) :- ParseAnd(ts, at + 1, scope);
      var v :- Disjunction(left, right);
      OrLoop(ts, v, p, scope)
  }

  function ParseAnd(ts: seq<Token>, at: nat, scope: Scope): (r: Parsed)
    requires at <= |ts|
    ensures r.Ok? ==> at < r.value.1 <= |ts|
    decreases |ts| - at, 4
  {
    var (left, p) :- ParseNot(ts, at, scope);
    AndLoop(ts, left, p, scope)
  }

  function AndLoop(ts: seq<Token>, left: Val, at: nat, scope: Scope): (r: Parsed)
    requires at <= |ts|
    ensures r.Ok? ==> at <= r.value.1 <= |ts|
    decreases |ts| - at, 5
  {
    if !WordAt(ts, at, AndWord) then Ok((left, at))
    else
      var (right, p) :- ParseNot(ts, at + 1, scope);
      var v :- Conjunction(left, right);
      AndLoop(ts, v, p, scope)
  }

  function ParseNot(ts: seq<Token>, at: nat, scope: Scope): (r: Parsed)
    requires at <= |ts|
    ensures r.Ok? ==> at < r.value.1 <= |ts|
    decreases |ts| - at, 3
  {
    if WordAt(ts, at, NotWord) then
      var (v, p) :- ParseNot(ts, at + 1, scope);
      var n :- Negation(v);
      Ok((n, p))
    else ParseComparison(ts, at, scope)
  }

  function ParseComparison(ts: seq<Token>, at: nat, scope: Scope): (r: Parsed)
    requires at <= |ts|
    ensures r.Ok? ==> at < r.value.1 <= |ts|
    decreases |ts| - at, 2
  {
    var (left, p) :- ParseConcatenation(ts, at, scope);
    if TokenAt(ts, p, Equal) || TokenAt(ts, p, NotEqual) then
      var (right, q) :- ParseConcatenation(ts, p + 1, scope);
      var v :- Comparison(ts[p] == Equal, left, right, scope);
      Ok((v, q))
    else Ok((left, p))
  }

  function ParseConcatenation(ts: seq<Token>, at: nat, scope: Scope): (r: Parsed)
    requires at <= |ts|
    ensures r.Ok? ==> at < r.value.1 <= |ts|
    decreases |ts| - at, 1
  {
    var (left, p) :- ParsePrimary(ts, at, scope);
    ConcatLoop(ts, left, p, scope)
  }

  function ConcatLoop(ts: seq<Token>, left: Val, at: nat, scope: Scope): (r: Parsed)
    requires at <= |ts|
    ensures r.Ok? ==> at <= r.value.1 <= |ts|
    decreases |ts| - at, 1
  {
    if !TokenAt(ts, at, Plus) then Ok((left, at))
    else
      var (right, p) :- ParsePrimary(ts, at + 1, scope);
      var v :- Concatenation(left, right);
      ConcatLoop(ts, v, p, scope)
  }

  function ParsePrimary(ts: seq<Token>, at: nat, scope: Scope): (r: Parsed)
    requires at <= |ts|
    ensures r.Ok? ==> at < r.value.1 <= |ts|
    decreases |ts| - at, 0
  {
    if at == |ts| then Fail(EndsEarly)
    else
      match ts[at]
      case Str(text) => Ok((StrVal(text), at + 1))
      case CurrentTable => Ok((StrVal(scope.tableName), at + 1))
      case CurrentRight => Ok((StrVal(scope.right), at + 1))
      case Parameter(name) =>
        var v :- ParameterValue(scope, name);
        Ok((v, at + 1))
      case Open =>
        var (v, p) :- ParseOr(ts, at + 1, scope);
        if TokenAt(ts, p, Close) then Ok((v, p + 1)) else Fail(MissingParenthesis)
      case Word(word) => ParseWord(ts, at, word, scope)
      case other => Fail(UnexpectedToken(other))
  }

  function ParseWord(ts: seq<Token>, at: nat, word: string, scope: Scope): (r: Parsed)
    requires at < |ts|
    ensures r.Ok? ==> at < r.value.1 <= |ts|
    decreases |ts| - at - 1, 8
  {
    match KindOf(word)
    case TrueWord => Ok((BoolVal(true), at + 1))
    case FalseWord => Ok((BoolVal(false), at + 1))
    case UndefinedWord => Ok((StrVal(UNDEFINED_TEXT), at + 1))
    case ValueWord =>
      if !TokenAt(ts, at + 1, Open) then Fail(ValueWithoutArgument)
      else
        var (path, p) :- ParsePath(ts, at + 2, []);
        Ok((PathValue(path), p))
    case ContainsWord =>
      if !TokenAt(ts, at + 1, Open) then Fail(ContainsWithoutArguments)
      else
        var (haystack, p) :- ParseOr(ts, at + 2, scope);
        if !TokenAt(ts, p, Comma) then Fail(ContainsTakesTwo)
        else
          var (needle, q) :- ParseOr(ts, p + 1, scope);
          if !TokenAt(ts, q, Close) then Fail(ContainsNotClosed)
          else
            var v :- Containment(haystack, needle);
            Ok((v, q + 1))
    case _ => Fail(UnknownWord(word))
  }

  /** The words and strings up to a closing parenthesis, or up to the end of the expression. */
  function ParsePath(ts: seq<Token>, at: nat, path: seq<string>): (r: Outcome<(seq<string>, nat)>)
    requires at <= |ts|
    ensures r.Ok? ==> at <= r.value.1 <= |ts|
    decreases |ts| - at
  {
    if at == |ts| then Ok((path, at))
    else if ts[at] == Close then Ok((path, at + 1))
    else if ts[at].Word? || ts[at].Str? then ParsePath(ts, at + 1, path + [PathText(ts[at])])
    else Fail(UnexpectedInValue(ts[at]))
  }

  /** A whole expression: all tokens, and a boolean value. */
  function EvaluateTokens(ts: seq<Token>, scope: Scope): (r: Outcome<bool>)
  {
    var (v, p) :- ParseOr(ts, 0, scope);
    if p < |ts| then Fail(TrailingTokens) else AsBoolean(v, Branch)
  }

  // ---- trees ----

  datatype Expr =
    | Leaf(token: Token)
    | Or(left: Expr, word: string, right: Expr)
    | And(left: Expr, word: string, right: Expr)
    | Not(word: string, operand: Expr)
    | Compare(left: Expr, equal: bool, right: Expr)
    | Concat(left: Expr, right: Expr)
    | Paren(inner: Expr)
    | ValueOf(word: string, path: seq<Token>, closed: bool)
    | Contains(word: string, haystack: Expr, needle: Expr)

  /** How tightly the outermost operator binds. */
  function Level(e: Expr): (n: nat)
    ensures n <= 5
  {
    match e
    case Or(_, _, _) => 0
    case And(_, _, _) => 1
    case Not(_, _) => 2
    case Compare(_, _, _) => 3
    case Concat(_, _) => 4
    case _ => 5
  }

  predicate IsLeaf(t: Token) {
    match t
    case Str(_) => true
    case CurrentTable => true
    case CurrentRight => true
    case Parameter(_) => true
    case Word(word) => KindOf(word) in {TrueWord, FalseWord, UndefinedWord}
    case _ => false
  }

  predicate IsPath(path: seq<Token>) {
    forall i :: 0 <= i < |path| ==> path[i].Word? || path[i].Str?
  }

  /** The spelling of every keyword is one of its words. */
  predicate Spelled(e: Expr) {
    match e
    case Leaf(t) => IsLeaf(t)
    case Or(l, w, r) => KindOf(w) == OrWord && Spelled(l) && Spelled(r)
    case And(l, w, r) => KindOf(w) == AndWord && Spelled(l) && Spelled(r)
    case Not(w, x) => KindOf(w) == NotWord && Spelled(x)
    case Compare(l, _, r) => Spelled(l) && Spelled(r)
    case Concat(l, r) => Spelled(l) && Spelled(r)
    case Paren(x) => Spelled(x)
    case ValueOf(w, path, _) => KindOf(w) == ValueWord && IsPath(path)
    case Contains(w, h, n) => KindOf(w) == ContainsWord && Spelled(h) && Spelled(n)
  }

  /** Parentheses stand wherever precedence needs them: operators of one level lean left. */
  predicate Parenthesised(e: Expr) {
    match e
    case Leaf(_) => true
    case Or(l, _, r) => Level(r) >= 1 && Parenthesised(l) && Parenthesised(r)
    case And(l, _, r) => Level(l) >= 1 && Level(r) >= 2 && Parenthesised(l) && Parenthesised(r)
    case Not(_, x) => Level(x) >= 2 && Parenthesised(x)
    case Compare(l, _, r) => Level(l) >= 4 && Level(r) >= 4 && Parenthesised(l) && Parenthesised(r)
    case Concat(l, r) => Level(l) >= 4 && Level(r) >= 5 && Parenthesised(l) && Parenthesised(r)
    case Paren(x) => Parenthesised(x)
    case ValueOf(_, _, _) => true
    case Contains(_, h, n) => Parenthesised(h) && Parenthesised(n)
  }

  /** A value's parenthesis may be left open only where the whole expression ends. */
  predicate ClosedBut(e: Expr, last: bool) {
    match e
    case Leaf(_) => true
    case Or(l, _, r) => ClosedBut(l, false) && ClosedBut(r, last)
    case And(l, _, r) => ClosedBut(l, false) && ClosedBut(r, last)
    case Not(_, x) => ClosedBut(x, last)
    case Compare(l, _, r) => ClosedBut(l, false) && ClosedBut(r, last)
    case Concat(l, r) => ClosedBut(l, false) && ClosedBut(r, last)
    case Paren(x) => ClosedBut(x, false)
    case ValueOf(_, _, closed) => closed || last
    case Contains(_, h, n) => ClosedBut(h, false) && ClosedBut(n, false)
  }

  function Print(e: Expr): (ts: seq<Token>)
    ensures |ts| > 0
  {
    match e
    case Leaf(t) => [t]
    case Or(l, w, r) => Print(l) + ([Word(w)] + Print(r))
    case And(l, w, r) => Print(l) + ([Word(w)] + Print(r))
    case Not(w, x) => [Word(w)] + Print(x)
    case Compare(l, equal, r) => Print(l) + ([if equal then Equal else NotEqual] + Print(r))
    case Concat(l, r) => Print(l) + ([Plus] + Print(r))
    case Paren(x) => [Open] + (Print(x) + [Close])
    case ValueOf(w, path, closed) => [Word(w), Open] + (path + (if closed then [Close] else []))
    case Contains(w, h, n) => [Word(w), Open] + (Print(h) + ([Comma] + (Print(n) + [Close])))
  }

  function LeafValue(t: Token, scope: Scope): (r: Outcome<Val>)
    requires IsLeaf(t)
  {
    match t
    case Str(text) => Ok(StrVal(text))
    case CurrentTable => Ok(StrVal(scope.tableName))
    case CurrentRight => Ok(StrVal(scope.right))
    case Parameter(name) => ParameterValue(scope, name)
    case Word(word) =>
      Ok(match KindOf(word)
         case TrueWord => BoolVal(true)
         case FalseWord => BoolVal(false)
         case _ => StrVal(UNDEFINED_TEXT))
  }

  function PathTexts(path: seq<Token>): (r: seq<string>)
    requires IsPath(path)
    ensures |r| == |path|
  {
    seq(|path|, i requires 0 <= i < |path| => PathText(path[i]))
  }

  /** The meaning of a tree: operands left to right, every one evaluated. */
  function Eval(e: Expr, scope: Scope): (r: Outcome<Val>)
    requires Spelled(e)
  {
    match e
    case Leaf(t) => LeafValue(t, scope)
    case Or(l, _, r) =>
      var a :- Eval(l, scope);
      var b :- Eval(r, scope);
      Disjunction(a, b)
    case And(l, _, r) =>
      var a :- Eval(l, scope);
      var b :- Eval(r, scope);
      Conjunction(a, b)
    case Not(_, x) =>
      var v :- Eval(x, scope);
      Negation(v)
    case Compare(l, equal, r) =>
      var a :- Eval(l, scope);
      var b :- Eval(r, scope);
      Comparison(equal, a, b, scope)
    case Concat(l, r) =>
      var a :- Eval(l, scope);
      var b :- Eval(r, scope);
      Concatenation(a, b)
    case Paren(x) => Eval(x, scope)
    case ValueOf(_, path, _) => Ok(PathValue(PathTexts(path)))
    case Contains(_, h, n) =>
      var a :- Eval(h, scope);
      var b :- Eval(n, scope);
      Containment(a, b)
  }
}
