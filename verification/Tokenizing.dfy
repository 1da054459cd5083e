/** The tokens of a directive expression, and why white space around it does not matter. */
module Tokenizing {
  import opened Outcomes
  import opened WhiteSpace
  import opened DirectiveTokens
  import opened Expressions

  predicate IsWordCharacter(c: char, scope: Scope) {
    scope.alphanumeric(c) || c == '_'
  }

  /** No white space counts as a letter or digit. */
  ghost predicate ProperTable(scope: Scope) {
    forall c: char :: IsSpace(c) ==> !scope.alphanumeric(c)
  }

  function WordEnd(s: string, o: nat, scope: Scope): (e: nat)
    requires o <= |s|
    ensures o <= e <= |s|
    decreases |s| - o
  {
    if o < |s| && IsWordCharacter(s[o], scope) then WordEnd(s, o + 1, scope) else o
  }

  /** The text of a string literal after its opening quote, and what follows it. */
  function Literal(s: string): (r: Outcome<(string, string)>)
    ensures r.Ok? ==> |r.value.1| < |s|
    decreases |s|
  {
    if s == [] then Fail(SyntaxFault.UnterminatedString)
    else if s[0] != '"' then
      var (text, rest) :- Literal(s[1..]);
      Ok(([s[0]] + text, rest))
    else if |s| > 1 && s[1] == '"' then
      var (text, rest) :- Literal(s[2..]);
      Ok((['"'] + text, rest))
    else Ok(([], s[1..]))
  }

  function DirectiveName(name: string): (r: Outcome<Token>)
  {
    var n := Lower(name);
    if n in {"имятекущейтаблицы", "currenttablename", "текущаятаблица", "currenttable"} then Ok(CurrentTable)
    else if n in {"имятекущегоправадоступа", "currentaccessrightname"} then Ok(CurrentRight)
    else Fail(UnknownDirectiveName)
  }

  function Cons(t: Token, r: Outcome<seq<Token>>): (c: Outcome<seq<Token>>)
  {
    if r.Ok? then Ok([t] + r.value) else r
  }

  function Tokens(s: string, scope: Scope): (r: Outcome<seq<Token>>)
    decreases |s|
  {
    if s == [] then Ok([])
    else if IsSpace(s[0]) then Tokens(s[1..], scope)
    else if s[0] == '"' then
      var (text, rest) :- Literal(s[1..]);
      Cons(Str(text), Tokens(rest, scope))
    else if s[0] == '&' then
      var e := WordEnd(s, 1, scope);
      Cons(Parameter(s[1..e]), Tokens(s[e..], scope))
    else if s[0] == '#' then
      var e := WordEnd(s, 1, scope);
      var token :- DirectiveName(s[1..e]);
      Cons(token, Tokens(s[e..], scope))
    else if s[0] == '=' then Cons(Equal, Tokens(s[1..], scope))
    else if s[0] == '<' && |s| > 1 && s[1] == '>' then Cons(NotEqual, Tokens(s[2..], scope))
    else if s[0] == '+' then Cons(Plus, Tokens(s[1..], scope))
    else if s[0] == '.' then Tokens(s[1..], scope)
    else if s[0] == '(' then Cons(Open, Tokens(s[1..], scope))
    else if s[0] == ')' then Cons(Close, Tokens(s[1..], scope))
    else if s[0] == ',' then Cons(Comma, Tokens(s[1..], scope))
    else if IsWordCharacter(s[0], scope) then
      var e := WordEnd(s, 1, scope);
      Cons(Word(s[..e]), Tokens(s[e..], scope))
    else Fail(UnexpectedCharacter(s[0]))
  }

  /** The condition of a branch: its tokens, evaluated to a boolean. */
  function EvaluateExpression(text: string, scope: Scope): (r: Outcome<bool>)
  {
    var tokens :- Tokens(text, scope);
    EvaluateTokens(tokens, scope)
  }

  // ---- white space around an expression ----

  lemma {:induction false} WordEndSpace(s: string, o: nat, w: char, scope: Scope)
    requires o <= |s| && IsSpace(w) && ProperTable(scope)
    ensures WordEnd(s + [w], o, scope) == WordEnd(s, o, scope)
    decreases |s| - o
  {
    if o < |s| && IsWordCharacter(s[o], scope) {
      WordEndSpace(s, o + 1, w, scope);
    }
  }

  lemma {:induction false} LiteralSpace(s: string, w: char)
    requires IsSpace(w)
    ensures Literal(s + [w]) == (match Literal(s) case Ok((t, rest)) => Ok((t, rest + [w])) case Err(e) => Err(e))
    decreases |s|
  {
    if s == [] {
      assert Literal([w]) == Fail(SyntaxFault.UnterminatedString) by { assert [w][1..] == []; }
    } else if s[0] != '"' {
      assert (s + [w])[1..] == s[1..] + [w];
      LiteralSpace(s[1..], w);
    } else if |s| > 1 && s[1] == '"' {
      assert (s + [w])[2..] == s[2..] + [w];
      LiteralSpace(s[2..], w);
    } else {
      assert (s + [w])[1..] == s[1..] + [w];
    }
  }

  /** White space after an expression adds no token. */
  lemma {:induction false} TrailingSpace(s: string, w: char, scope: Scope)
    requires IsSpace(w) && ProperTable(scope)
    ensures Tokens(s + [w], scope) == Tokens(s, scope)
    decreases |s|
  {
    hide DirectiveName, Literal, WordEnd;
    var longer := s + [w];
    if s == [] {
      assert longer[1..] == [];
    } else {
      var e := WordEnd(s, 1, scope);
      WordEndSpace(s, 1, w, scope);
      assert longer[0] == s[0] && longer[1..] == s[1..] + [w];
      assert longer[1..e] == s[1..e] && longer[..e] == s[..e] && longer[e..] == s[e..] + [w];
      if s[0] == '"' && !IsSpace(s[0]) {
        LiteralSpace(s[1..], w);
        if Literal(s[1..]).Ok? {
          TrailingSpace(Literal(s[1..]).value.1, w, scope);
        }
      } else {
        TrailingSpace(s[1..], w, scope);
        TrailingSpace(s[e..], w, scope);
        if |s| > 1 {
          assert longer[2..] == s[2..] + [w];
          TrailingSpace(s[2..], w, scope);
        }
      }
    }
  }

  lemma {:induction false} TokensOfTrimEnd(s: string, scope: Scope)
    requires ProperTable(scope)
    ensures Tokens(TrimEnd(s), scope) == Tokens(s, scope)
    decreases |s|
  {
    hide Tokens;
    if s != [] && IsSpace(s[|s| - 1]) {
      TokensOfTrimEnd(s[..|s| - 1], scope);
      assert s == s[..|s| - 1] + [s[|s| - 1]];
      TrailingSpace(s[..|s| - 1], s[|s| - 1], scope);
    }
  }

  lemma {:induction false} TokensOfTrimStart(s: string, scope: Scope)
    ensures Tokens(TrimStart(s), scope) == Tokens(s, scope)
    decreases |s|
  {
    if s != [] && IsSpace(s[0]) {
      TokensOfTrimStart(s[1..], scope);
    }
  }

  /** Trimming a condition does not change what it evaluates to. */
  lemma TrimKeepsMeaning(text: string, scope: Scope)
    requires ProperTable(scope)
    ensures EvaluateExpression(Trim(text), scope) == EvaluateExpression(text, scope)
  {
    hide Tokens, EvaluateTokens;
    TokensOfTrimStart(text, scope);
    TokensOfTrimEnd(TrimStart(text), scope);
  }

  // ---- the tokenizer ----

  /** What reading a token list one token at a time has still to give. */
  function After(read: seq<Token>, r: Outcome<seq<Token>>): (c: Outcome<seq<Token>>)
  {
    if r.Ok? then Ok(read + r.value) else r
  }

  lemma AfterCons(read: seq<Token>, t: Token, r: Outcome<seq<Token>>)
    ensures After(read, Cons(t, r)) == After(read + [t], r)
  {
    if r.Ok? {
      assert read + ([t] + r.value) == read + [t] + r.value;
    }
  }

  /** Reads a string literal from the place after its opening quote. */
  method ReadLiteral(text: string, start: nat) returns (r: Outcome<string>, next: nat)
    requires start <= |text|
    ensures start <= next <= |text|
    ensures match Literal(text[start..])
            case Ok((s, rest)) => r == Ok(s) && rest == text[next..] && start < next
            case Err(e) => r == Err(e)
  {
    var value: string := [];
    next := start;
    AppendNothing(Literal(text[start..]));
    while true
      invariant start <= next <= |text|
      invariant AppendTo(value, Literal(text[next..])) == Literal(text[start..])
      decreases |text| - next
    {
      if next == |text| {
        return Fail(SyntaxFault.UnterminatedString), next;
      }
      var c := text[next];
      next := next + 1;
      assert text[next - 1..][1..] == text[next..];
      if c != '"' {
        AppendTwice(value, [c], Literal(text[next..]));
        value := value + [c];
      } else if next < |text| && text[next] == '"' {
        next := next + 1;
        assert text[next - 2..][2..] == text[next..];
        AppendTwice(value, ['"'], Literal(text[next..]));
        value := value + ['"'];
      } else {
        assert value + [] == value;
        return Ok(value), next;
      }
    }
  }

  function AppendTo(front: string, r: Outcome<(string, string)>): (c: Outcome<(string, string)>)
  {
    if r.Ok? then Ok((front + r.value.0, r.value.1)) else r
  }

  lemma AppendNothing(r: Outcome<(string, string)>)
    ensures AppendTo([], r) == r
  {
    if r.Ok? {
      assert [] + r.value.0 == r.value.0;
    }
  }

  lemma AppendTwice(a: string, b: string, r: Outcome<(string, string)>)
    ensures AppendTo(a, AppendTo(b, r)) == AppendTo(a + b, r)
  {
    if r.Ok? {
      assert a + (b + r.value.0) == a + b + r.value.0;
    }
  }

  method FindWordEnd(text: string, start: nat, scope: Scope) returns (e: nat)
    requires start <= |text|
    ensures e == WordEnd(text, start, scope)
  {
    e := start;
    while e < |text| && IsWordCharacter(text[e], scope)
      invariant start <= e <= |text| && WordEnd(text, e, scope) == WordEnd(text, start, scope)
    {
      e := e + 1;
    }
  }

  lemma {:induction false} WordEndShift(s: string, o: nat, k: nat, scope: Scope)
    requires o <= k <= |s|
    ensures WordEnd(s[o..], k - o, scope) == WordEnd(s, k, scope) - o
    decreases |s| - k
  {
    if k < |s| && IsWordCharacter(s[k], scope) {
      WordEndShift(s, o, k + 1, scope);
    }
  }

  /** What a name opened by its first character is: a parameter, a directive name or a word. */
  function NamedToken(s: string, e: nat): (r: Outcome<Token>)
    requires 1 <= e <= |s|
  {
    if s[0] == '&' then Ok(Parameter(s[1..e]))
    else if s[0] == '#' then DirectiveName(s[1..e])
    else Ok(Word(s[..e]))
  }

  method ReadName(text: string, at: nat, scope: Scope) returns (r: Outcome<Token>, next: nat)
    requires at < |text|
    ensures at < next <= |text| && next == at + WordEnd(text[at..], 1, scope)
    ensures r == NamedToken(text[at..], next - at)
  {
    next := FindWordEnd(text, at + 1, scope);
    WordEndShift(text, at, at + 1, scope);
    assert text[at..][1..next - at] == text[at + 1..next] && text[at..][..next - at] == text[at..next];
    var c := text[at];
    if c == '&' {
      r := Ok(Parameter(text[at + 1..next]));
    } else if c == '#' {
      r := DirectiveName(text[at + 1..next]);
    } else {
      r := Ok(Word(text[at..next]));
    }
  }

  /** One step of the tokenizer: at most one token, and the place after it. */
  method NextToken(text: string, at: nat, scope: Scope) returns (r: Outcome<Option<Token>>, next: nat)
    requires at < |text|
    ensures at <= next <= |text|
    ensures match r
            case Ok(None) => at < next && Tokens(text[at..], scope) == Tokens(text[next..], scope)
            case Ok(Some(t)) => at < next && Tokens(text[at..], scope) == Cons(t, Tokens(text[next..], scope))
            case Err(e) => Tokens(text[at..], scope) == Err(e)
  {
    hide WordEnd, Literal, DirectiveName, IsSpace;
    var c := text[at];
    ghost var s := text[at..];
    next := at + 1;
    assert s[1..] == text[next..] && s[0] == c;
    if IsSpace(c) {
      return Ok(None), next;
    } else if c == '"' {
      var literal;
      literal, next := ReadLiteral(text, at + 1);
      if literal.Err? {
        return Err(literal.error), next;
      }
      return Ok(Some(Str(literal.value))), next;
    } else if c == '&' || c == '#' {
      var token;
      token, next := ReadName(text, at, scope);
      assert s[next - at..] == text[next..];
      if token.Err? {
        return Err(token.error), next;
      }
      return Ok(Some(token.value)), next;
    } else if c == '=' {
      return Ok(Some(Equal)), next;
    } else if c == '<' && at + 1 < |text| && text[at + 1] == '>' {
      assert s[2..] == text[at + 2..] && s[1] == '>';
      return Ok(Some(NotEqual)), at + 2;
    } else if c == '+' {
      return Ok(Some(Plus)), next;
    } else if c == '.' {
      return Ok(None), next;
    } else if c == '(' {
      return Ok(Some(Open)), next;
    } else if c == ')' {
      return Ok(Some(Close)), next;
    } else if c == ',' {
      return Ok(Some(Comma)), next;
    } else if IsWordCharacter(c, scope) {
      var token;
      token, next := ReadName(text, at, scope);
      assert s[next - at..] == text[next..];
      return Ok(Some(token.value)), next;
    } else {
      return Fail(UnexpectedCharacter(c)), next;
    }
  }

  method TokenizeExpression(text: string, scope: Scope) returns (r: Outcome<seq<Token>>)
    ensures r == Tokens(text, scope)
  {
    hide Tokens, Cons, After;
    var tokens: seq<Token> := [];
    var at := 0;
    assert text[0..] == text;
    Unread(Tokens(text, scope));
    while at < |text|
      invariant at <= |text| && After(tokens, Tokens(text[at..], scope)) == Tokens(text, scope)
      decreases |text| - at
    {
      var step, next := NextToken(text, at, scope);
      if step.Err? {
        FailsAfter(tokens, step.error);
        return Err(step.error);
      }
      if step.value.Some? {
        AfterCons(tokens, step.value.value, Tokens(text[next..], scope));
        tokens := tokens + [step.value.value];
      }
      at := next;
    }
    NothingLeft(tokens, text, scope);
    return Ok(tokens);
  }

  lemma Unread(r: Outcome<seq<Token>>)
    ensures After([], r) == r
  {
    if r.Ok? {
      assert [] + r.value == r.value;
    }
  }

  lemma FailsAfter(read: seq<Token>, e: RestrictionError)
    ensures After(read, Err(e)) == Err(e)
  {
  }

  lemma NothingLeft(read: seq<Token>, text: string, scope: Scope)
    ensures After(read, Tokens(text[|text|..], scope)) == Ok(read)
  {
    assert read + [] == read;
  }
}
