/** The cursor-moving parser of src/access.rs, method by method. */
module ExprParsing {
  import opened Outcomes
  import opened DirectiveTokens
  import opened Expressions

  /** A method left the cursor where the specification does, or failed the same way. */
  ghost predicate Follows<T>(r: Outcome<T>, at: nat, step: Outcome<(T, nat)>) {
    match step
    case Ok((v, p)) => r == Ok(v) && at == p
    case Err(e) => r == Err(e)
  }

  class ExprParser {
    const tokens: seq<Token>
    const scope: Scope
    var at: nat

    ghost predicate Valid()
      reads this
    {
      at <= |tokens|
    }

    constructor (tokens: seq<Token>, scope: Scope)
      ensures Valid() && this.tokens == tokens && this.scope == scope && at == 0
    {
      this.tokens := tokens;
      this.scope := scope;
      at := 0;
    }

    method Or() returns (r: Outcome<Val>)
      requires Valid()
      modifies this
      ensures Valid() && Follows(r, at, ParseOr(tokens, old(at), scope))
      decreases |tokens| - at, 6
    {
      hide Disjunction, KindOf, ParseAnd;
      var left :- And();
      while WordAt(tokens, at, OrWord)
        invariant Valid() && old(at) < at
        invariant OrLoop(tokens, left, at, scope) == ParseOr(tokens, old(at), scope)
        decreases |tokens| - at
      {
        at := at + 1;
        var right :- And();
        left :- Disjunction(left, right);
      }
      return Ok(left);
    }

    method And() returns (r: Outcome<Val>)
      requires Valid()
      modifies this
      ensures Valid() && Follows(r, at, ParseAnd(tokens, old(at), scope))
      decreases |tokens| - at, 5
    {
      hide Conjunction, KindOf, ParseNot;
      var left :- Not();
      while WordAt(tokens, at, AndWord)
        invariant Valid() && old(at) < at
        invariant AndLoop(tokens, left, at, scope) == ParseAnd(tokens, old(at), scope)
        decreases |tokens| - at
      {
        at := at + 1;
        var right :- Not();
        left :- Conjunction(left, right);
      }
      return Ok(left);
    }

    method Not() returns (r: Outcome<Val>)
      requires Valid()
      modifies this
      ensures Valid() && Follows(r, at, ParseNot(tokens, old(at), scope))
      decreases |tokens| - at, 4
    {
      if WordAt(tokens, at, NotWord) {
        at := at + 1;
        var v :- Not();
        return Negation(v);
      }
      r := Comparison();
    }

    method Comparison() returns (r: Outcome<Val>)
      requires Valid()
      modifies this
      ensures Valid() && Follows(r, at, ParseComparison(tokens, old(at), scope))
      decreases |tokens| - at, 3
    {
      hide DirectiveTokens.Comparison, ParseConcatenation;
      var left :- Concatenation();
      if !TokenAt(tokens, at, Equal) && !TokenAt(tokens, at, NotEqual) {
        return Ok(left);
      }
      var equal := tokens[at] == Equal;
      at := at + 1;
      var right :- Concatenation();
      return DirectiveTokens.Comparison(equal, left, right, scope);
    }

    method Concatenation() returns (r: Outcome<Val>)
      requires Valid()
      modifies this
      ensures Valid() && Follows(r, at, ParseConcatenation(tokens, old(at), scope))
      decreases |tokens| - at, 2
    {
      hide DirectiveTokens.Concatenation, ParsePrimary;
      var left :- Primary();
      while TokenAt(tokens, at, Plus)
        invariant Valid() && old(at) < at
        invariant ConcatLoop(tokens, left, at, scope) == ParseConcatenation(tokens, old(at), scope)
        decreases |tokens| - at
      {
        at := at + 1;
        var right :- Primary();
        left :- DirectiveTokens.Concatenation(left, right);
      }
      return Ok(left);
    }

    method Primary() returns (r: Outcome<Val>)
      requires Valid()
      modifies this
      ensures Valid() && Follows(r, at, ParsePrimary(tokens, old(at), scope))
      decreases |tokens| - at, 1
    {
      if at == |tokens| {
        return Fail(EndsEarly);
      }
      var token := tokens[at];
      at := at + 1;
      match token {
        case Str(text) => return Ok(StrVal(text));
        case CurrentTable => return Ok(StrVal(scope.tableName));
        case CurrentRight => return Ok(StrVal(scope.right));
        case Parameter(name) => return ParameterValue(scope, name);
        case Open =>
          var value :- Or();
          if !TokenAt(tokens, at, Close) {
            return Fail(MissingParenthesis);
          }
          at := at + 1;
          return Ok(value);
        case Word(word) => r := Keyword(word);
        case other => return Fail(UnexpectedToken(other));
      }
    }

    /** A primary that starts with a word already read. */
    method Keyword(word: string) returns (r: Outcome<Val>)
      requires Valid() && at > 0 && tokens[at - 1] == Word(word)
      modifies this
      ensures Valid() && Follows(r, at, ParseWord(tokens, old(at) - 1, word, scope))
      decreases |tokens| - at, 7
    {
      hide KindOf, PathValue, Containment, ParsePath, ParseOr;
      match KindOf(word) {
        case TrueWord => return Ok(BoolVal(true));
        case FalseWord => return Ok(BoolVal(false));
        case UndefinedWord => return Ok(StrVal(UNDEFINED_TEXT));
        case ValueWord =>
          if !TokenAt(tokens, at, Open) {
            return Fail(ValueWithoutArgument);
          }
          at := at + 1;
          var path :- Path();
          return Ok(PathValue(path));
        case ContainsWord =>
          if !TokenAt(tokens, at, Open) {
            return Fail(ContainsWithoutArguments);
          }
          at := at + 1;
          var haystack :- Or();
          if !TokenAt(tokens, at, Comma) {
            return Fail(ContainsTakesTwo);
          }
          at := at + 1;
          var needle :- Or();
          if !TokenAt(tokens, at, Close) {
            return Fail(ContainsNotClosed);
          }
          at := at + 1;
          return Containment(haystack, needle);
        case _ => return Fail(UnknownWord(word));
      }
    }

    method Path() returns (r: Outcome<seq<string>>)
      requires Valid()
      modifies this
      ensures Valid() && Follows(r, at, ParsePath(tokens, old(at), []))
    {
      var path := [];
      while at < |tokens|
        invariant Valid() && ParsePath(tokens, at, path) == ParsePath(tokens, old(at), [])
        decreases |tokens| - at
      {
        var token := tokens[at];
        at := at + 1;
        if token == Close {
          break;
        } else if token.Word? {
          path := path + [token.word];
        } else if token.Str? {
          path := path + [token.text];
        } else {
          return Fail(UnexpectedInValue(token));
        }
      }
      return Ok(path);
    }
  }

  method EvaluateExpressionTokens(tokens: seq<Token>, scope: Scope) returns (r: Outcome<bool>)
    ensures r == EvaluateTokens(tokens, scope)
  {
    var parser := new ExprParser(tokens, scope);
    var value :- parser.Or();
    if parser.at < |tokens| {
      return Fail(TrailingTokens);
    }
    return AsBoolean(value, Branch);
  }
}
