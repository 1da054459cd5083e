/**
 * What the tokenizer of conditions reads: a text gives a token list exactly when it is that
 * list written with white space and dots between the tokens, each token as long as it can be.
 */
module ConditionText {
  import BraceText
  import opened DirectiveTokens
  import opened Expressions
  import opened ExpressionsExact
  import opened Outcomes
  import opened Tokenizing
  import opened WhiteSpace
  import Wording

  /** What may stand between tokens: white space, and the dots of a path. */
  predicate IsGap(c: char) {
    IsSpace(c) || c == '.'
  }

  predicate AllGap(s: string) {
    forall i :: 0 <= i < |s| ==> IsGap(s[i])
  }

  /** A letter or digit of the table, or an underscore. */
  predicate InWord(c: char, scope: Scope) {
    c == '_' || scope.alphanumeric(c)
  }

  predicate AllWord(s: string, scope: Scope) {
    forall i :: 0 <= i < |s| ==> InWord(s[i], scope)
  }

  const MARKS := "\"&#=<+.(),"

  /** No white space and no mark counts as a letter or digit. */
  ghost predicate StandardTable(scope: Scope) {
    ProperTable(scope) && forall c: char :: c in MARKS ==> !scope.alphanumeric(c)
  }

  /** The text w writes the token t. */
  predicate Written(t: Token, w: string, scope: Scope) {
    match t
    case Str(text) => w == "\"" + BraceText.DoubleQuotes(text) + "\""
    case Parameter(name) => w == "&" + name && AllWord(name, scope)
    case Word(word) => w == word && word != [] && AllWord(word, scope)
    case CurrentTable => IsDirective(t, w, scope)
    case CurrentRight => IsDirective(t, w, scope)
    case Equal => w == "="
    case NotEqual => w == "<>"
    case Plus => w == "+"
    case Open => w == "("
    case Close => w == ")"
    case Comma => w == ","
  }

  /** One of the names that stand for the table or the right, after a hash. */
  predicate IsDirective(t: Token, w: string, scope: Scope) {
    && w != [] && w[0] == '#' && AllWord(w[1..], scope)
    && ((t == CurrentTable && Wording.IsTableName(w[1..])) || (t == CurrentRight && Wording.IsRightName(w[1..])))
  }

  /** The token ends where its writing does: the text behind it would not lengthen it. */
  predicate Ends(t: Token, rest: string, scope: Scope) {
    match t
    case Str(_) => rest == [] || rest[0] != '"'
    case Parameter(_) => rest == [] || !InWord(rest[0], scope)
    case Word(_) => rest == [] || !InWord(rest[0], scope)
    case CurrentTable => rest == [] || !InWord(rest[0], scope)
    case CurrentRight => rest == [] || !InWord(rest[0], scope)
    case _ => true
  }

  /** A token with its writing and the gap before it. */
  datatype Lexeme = Lexeme(gap: string, writing: string, token: Token)

  function Text(ls: seq<Lexeme>, tail: string): (s: string) {
    if ls == [] then tail else ls[0].gap + (ls[0].writing + Text(ls[1..], tail))
  }

  function TokensOf(ls: seq<Lexeme>): (ts: seq<Token>)
    ensures |ts| == |ls|
  {
    seq(|ls|, i requires 0 <= i < |ls| => ls[i].token)
  }

  predicate WellSpelled(ls: seq<Lexeme>, tail: string, scope: Scope) {
    if ls == [] then AllGap(tail)
    else
      && AllGap(ls[0].gap) && Written(ls[0].token, ls[0].writing, scope)
      && Ends(ls[0].token, Text(ls[1..], tail), scope) && WellSpelled(ls[1..], tail, scope)
  }

  // ---- gaps and words ----

  lemma {:induction false} GapSkipped(g: string, s: string, scope: Scope)
    requires AllGap(g)
    ensures Tokens(g + s, scope) == Tokens(s, scope)
    decreases g
  {
    if g == [] {
      assert g + s == s;
    } else {
      assert AllGap(g[1..]) by {
        assert forall i :: 0 <= i < |g[1..]| ==> g[1..][i] == g[i + 1];
      }
      GapSkipped(g[1..], s, scope);
      assert (g + s)[1..] == g[1..] + s && (g + s)[0] == g[0] && IsGap(g[0]);
    }
  }

  lemma {:induction false} WordEndWritten(w: string, o: nat, rest: string, scope: Scope)
    requires o <= |w| && AllWord(w[o..], scope) && (rest == [] || !InWord(rest[0], scope))
    ensures WordEnd(w + rest, o, scope) == |w|
    decreases |w| - o
  {
    if o < |w| {
      assert w[o..][0] == w[o];
      var v := w[o + 1..];
      forall i | 0 <= i < |v|
        ensures InWord(v[i], scope)
      {
        assert v[i] == w[o..][i + 1];
      }
      WordEndWritten(w, o + 1, rest, scope);
    }
  }

  lemma {:induction false} WordEndStops(s: string, o: nat, scope: Scope)
    requires o <= |s|
    ensures var e := WordEnd(s, o, scope);
            AllWord(s[o..e], scope) && (s[e..] == [] || !InWord(s[e..][0], scope))
    decreases |s| - o
  {
    if o < |s| && InWord(s[o], scope) {
      WordEndStops(s, o + 1, scope);
      var e := WordEnd(s, o, scope);
      assert forall i :: 1 <= i < |s[o..e]| ==> s[o..e][i] == s[o + 1..e][i - 1];
    }
  }

  lemma EmptyDoubled()
    ensures BraceText.DoubleQuotes([]) == []
  {
  }

  lemma DoubledFirst(c: char, text: string)
    ensures BraceText.DoubleQuotes([c] + text)
         == (if c == '"' then ['"', '"'] else [c]) + BraceText.DoubleQuotes(text)
  {
    assert ([c] + text)[1..] == text;
  }

  lemma {:induction false} LiteralWritten(text: string, rest: string)
    requires rest == [] || rest[0] != '"'
    ensures Literal(BraceText.DoubleQuotes(text) + ("\"" + rest)) == Ok((text, rest))
    decreases text
  {
    hide BraceText.DoubleQuotes;
    var s := BraceText.DoubleQuotes(text) + ("\"" + rest);
    if text == [] {
      EmptyDoubled();
      assert s == "\"" + rest && s[1..] == rest;
    } else {
      LiteralWritten(text[1..], rest);
      DoubledFirst(text[0], text[1..]);
      assert text == [text[0]] + text[1..];
      var more := BraceText.DoubleQuotes(text[1..]) + ("\"" + rest);
      if text[0] == '"' {
        assert s == ['"', '"'] + more && s[2..] == more;
      } else {
        assert s == [text[0]] + more && s[1..] == more;
      }
    }
  }

  lemma {:induction false} LiteralIsWritten(s: string)
    requires Literal(s).Ok?
    ensures var (text, rest) := Literal(s).value;
            s == BraceText.DoubleQuotes(text) + ("\"" + rest) && (rest == [] || rest[0] != '"')
    decreases |s|
  {
    hide BraceText.DoubleQuotes;
    if s[0] != '"' {
      LiteralIsWritten(s[1..]);
      DoubledFirst(s[0], Literal(s[1..]).value.0);
      assert s == [s[0]] + s[1..];
    } else if |s| > 1 && s[1] == '"' {
      LiteralIsWritten(s[2..]);
      DoubledFirst('"', Literal(s[2..]).value.0);
      assert s == ['"', '"'] + s[2..];
    } else {
      EmptyDoubled();
      assert s == "\"" + s[1..];
    }
  }

  // ---- from a writing to its tokens ----

  /** A written token is read, and the text behind it is left. */
  lemma TokenWritten(t: Token, w: string, rest: string, scope: Scope)
    requires StandardTable(scope) && Written(t, w, scope) && Ends(t, rest, scope)
    ensures Tokens(w + rest, scope) == Cons(t, Tokens(rest, scope))
  {
    hide DirectiveName, Literal, IsSpace, WordEnd, Wording.IsTableName, Wording.IsRightName;
    match t
    case Str(text) => StrWritten(text, rest, scope);
    case Parameter(_) => NameWritten(t, w, rest, scope);
    case CurrentTable => NameWritten(t, w, rest, scope);
    case CurrentRight => NameWritten(t, w, rest, scope);
    case Word(_) => WordWritten(w, rest, scope);
    case _ => MarkWritten(t, w, rest, scope);
  }

  lemma StrWritten(text: string, rest: string, scope: Scope)
    requires rest == [] || rest[0] != '"'
    ensures Tokens("\"" + BraceText.DoubleQuotes(text) + "\"" + rest, scope) == Cons(Str(text), Tokens(rest, scope))
  {
    hide Literal;
    var s := "\"" + BraceText.DoubleQuotes(text) + "\"" + rest;
    assert s[1..] == BraceText.DoubleQuotes(text) + ("\"" + rest) && s[0] == '"';
    LiteralWritten(text, rest);
  }

  lemma MarkWritten(t: Token, w: string, rest: string, scope: Scope)
    requires Written(t, w, scope) && t in {Equal, NotEqual, Plus, Open, Close, Comma}
    ensures Tokens(w + rest, scope) == Cons(t, Tokens(rest, scope))
  {
    var s := w + rest;
    assert s[0] == w[0] && s[|w|..] == rest;
    if t == NotEqual {
      assert s[1] == '>';
    }
  }

  lemma NameWritten(t: Token, w: string, rest: string, scope: Scope)
    requires t.Parameter? || t.CurrentTable? || t.CurrentRight?
    requires Written(t, w, scope) && (rest == [] || !InWord(rest[0], scope))
    ensures Tokens(w + rest, scope) == Cons(t, Tokens(rest, scope))
  {
    hide DirectiveName, WordEnd, Wording.IsTableName, Wording.IsRightName;
    var s := w + rest;
    if t.Parameter? {
      assert w[1..] == t.name;
    }
    Wording.DirectiveNameExactly(w[1..]);
    WordEndWritten(w, 1, rest, scope);
    assert s[0] == w[0] && s[1..|w|] == w[1..] && s[|w|..] == rest;
  }

  lemma WordWritten(w: string, rest: string, scope: Scope)
    requires StandardTable(scope) && w != [] && AllWord(w, scope) && (rest == [] || !InWord(rest[0], scope))
    ensures Tokens(w + rest, scope) == Cons(Word(w), Tokens(rest, scope))
  {
    hide WordEnd;
    var s := w + rest;
    assert forall i :: 0 <= i < |w[1..]| ==> w[1..][i] == w[i + 1];
    WordEndWritten(w, 1, rest, scope);
    assert s[0] == w[0] && s[..|w|] == w && s[|w|..] == rest;
    MarksListed(w[0]);
  }

  lemma MarksListed(c: char)
    ensures c in MARKS <==> c in {'"', '&', '#', '=', '<', '+', '.', '(', ')', ','}
  {
  }

  /** A well-spelled token list is read back. */
  lemma {:induction false} SpelledIsRead(ls: seq<Lexeme>, tail: string, scope: Scope)
    requires StandardTable(scope) && WellSpelled(ls, tail, scope)
    ensures Tokens(Text(ls, tail), scope) == Ok(TokensOf(ls))
    decreases |ls|
  {
    hide Tokens, Written, Ends, AllGap;
    if ls == [] {
      GapSkipped(tail, [], scope);
      assert tail + [] == tail;
      NoText(scope);
    } else {
      var rest := Text(ls[1..], tail);
      GapSkipped(ls[0].gap, ls[0].writing + rest, scope);
      TokenWritten(ls[0].token, ls[0].writing, rest, scope);
      SpelledIsRead(ls[1..], tail, scope);
      assert TokensOf(ls) == [ls[0].token] + TokensOf(ls[1..]);
    }
  }

  lemma NoText(scope: Scope)
    ensures Tokens([], scope) == Ok([])
  {
  }

  // ---- from tokens to the writing ----

  lemma {:induction false} GapBefore(s: string) returns (o: nat)
    ensures o <= |s| && AllGap(s[..o]) && (o < |s| ==> !IsGap(s[o]))
    decreases |s|
  {
    o := 0;
    while o < |s| && IsGap(s[o])
      invariant o <= |s| && AllGap(s[..o])
    {
      o := o + 1;
    }
  }

  /** What is read at a place that is no gap is the writing of a token. */
  lemma TokenIsWritten(s: string, scope: Scope) returns (t: Token, w: string, rest: string)
    requires StandardTable(scope) && s != [] && !IsGap(s[0]) && Tokens(s, scope).Ok?
    ensures s == w + rest && w != [] && Written(t, w, scope) && Ends(t, rest, scope)
    ensures Tokens(s, scope) == Cons(t, Tokens(rest, scope))
  {
    hide DirectiveName, Literal, IsSpace, WordEnd, Wording.IsTableName, Wording.IsRightName;
    MarksListed(s[0]);
    if s[0] == '"' {
      t, w, rest := StrIsWritten(s, scope);
    } else if s[0] in {'&', '#'} || InWord(s[0], scope) {
      t, w, rest := NameIsWritten(s, scope);
    } else {
      t, w, rest := MarkIsWritten(s, scope);
    }
  }

  lemma StrIsWritten(s: string, scope: Scope) returns (t: Token, w: string, rest: string)
    requires s != [] && s[0] == '"' && Tokens(s, scope).Ok?
    ensures s == w + rest && w != [] && Written(t, w, scope) && Ends(t, rest, scope)
    ensures Tokens(s, scope) == Cons(t, Tokens(rest, scope))
  {
    hide Literal, BraceText.DoubleQuotes, InWord;
    LiteralIsWritten(s[1..]);
    var (text, after) := Literal(s[1..]).value;
    t, w, rest := Str(text), "\"" + BraceText.DoubleQuotes(text) + "\"", after;
    assert s == "\"" + s[1..];
    QuotedInTurn(BraceText.DoubleQuotes(text), rest);
  }

  lemma QuotedInTurn(doubled: string, rest: string)
    ensures "\"" + (doubled + ("\"" + rest)) == "\"" + doubled + "\"" + rest
  {
  }

  lemma NameIsWritten(s: string, scope: Scope) returns (t: Token, w: string, rest: string)
    requires StandardTable(scope) && s != [] && !IsGap(s[0]) && Tokens(s, scope).Ok?
    requires s[0] in {'&', '#'} || InWord(s[0], scope)
    ensures s == w + rest && w != [] && Written(t, w, scope) && Ends(t, rest, scope)
    ensures Tokens(s, scope) == Cons(t, Tokens(rest, scope))
  {
    hide WordEnd, IsSpace, DirectiveName, Wording.IsTableName, Wording.IsRightName;
    MarksListed(s[0]);
    var e := WordEnd(s, 1, scope);
    WordEndStops(s, 1, scope);
    w, rest := s[..e], s[e..];
    assert w[1..] == s[1..e] && w[0] == s[0] && s == w + rest;
    if s[0] == '&' {
      t := Parameter(s[1..e]);
      assert w == "&" + s[1..e];
    } else if s[0] == '#' {
      t := DirectiveName(s[1..e]).value;
      Wording.DirectiveNameExactly(s[1..e]);
    } else {
      t := Word(w);
      assert forall i :: 1 <= i < |w| ==> w[i] == w[1..][i - 1];
    }
  }

  lemma MarkIsWritten(s: string, scope: Scope) returns (t: Token, w: string, rest: string)
    requires s != [] && !IsGap(s[0]) && s[0] !in {'"', '&', '#'} && Tokens(s, scope).Ok?
    requires !InWord(s[0], scope)
    ensures s == w + rest && w != [] && Written(t, w, scope) && Ends(t, rest, scope)
    ensures Tokens(s, scope) == Cons(t, Tokens(rest, scope))
  {
    hide WordEnd, IsSpace;
    var n := if s[0] == '<' then 2 else 1;
    w, rest := s[..n], s[n..];
    assert s == w + rest;
    t := match s[0]
    case '=' => Equal
    case '<' => NotEqual
    case '+' => Plus
    case '(' => Open
    case ')' => Close
    case _ => Comma;
  }

  /** A text that is read is the well-spelled writing of its tokens. */
  lemma {:induction false} ReadIsSpelled(s: string, scope: Scope) returns (ls: seq<Lexeme>, tail: string)
    requires StandardTable(scope) && Tokens(s, scope).Ok?
    ensures WellSpelled(ls, tail, scope) && Text(ls, tail) == s && TokensOf(ls) == Tokens(s, scope).value
    decreases |s|
  {
    hide Tokens, Written, Ends, AllGap, IsGap;
    var o := GapBefore(s);
    GapSkipped(s[..o], s[o..], scope);
    assert s == s[..o] + s[o..];
    if o == |s| {
      ls, tail := [], s;
      assert s[..o] == s && s[o..] == [];
      NoText(scope);
    } else {
      var t, w, rest := TokenIsWritten(s[o..], scope);
      var more, end := ReadIsSpelled(rest, scope);
      ls, tail := [Lexeme(s[..o], w, t)] + more, end;
      assert ls[1..] == more;
      assert TokensOf(ls) == [t] + TokensOf(more);
    }
  }

  /** A text is read as a token list exactly when it spells it. */
  lemma TokensExactly(s: string, ts: seq<Token>, scope: Scope)
    requires StandardTable(scope)
    ensures Tokens(s, scope) == Ok(ts)
       <==> exists ls, tail :: WellSpelled(ls, tail, scope) && Text(ls, tail) == s && TokensOf(ls) == ts
  {
    hide Tokens, WellSpelled, Text, TokensOf;
    if Tokens(s, scope) == Ok(ts) {
      var ls, tail := ReadIsSpelled(s, scope);
      assert WellSpelled(ls, tail, scope) && Text(ls, tail) == s && TokensOf(ls) == ts;
    }
    if exists ls, tail :: WellSpelled(ls, tail, scope) && Text(ls, tail) == s && TokensOf(ls) == ts {
      var ls, tail :| WellSpelled(ls, tail, scope) && Text(ls, tail) == s && TokensOf(ls) == ts;
      SpelledIsRead(ls, tail, scope);
    }
  }

  // ---- texts and trees ----

  /** The text writes the tree: its tokens, well spelled. */
  ghost predicate WritesTree(s: string, e: Expr, scope: Scope) {
    exists ls, tail :: WellSpelled(ls, tail, scope) && Text(ls, tail) == s && ExpressionsExact.Writes(e, TokensOf(ls))
  }

  /** A condition is accepted with a value exactly when it writes a tree of that value. */
  lemma EvaluatesTextExactly(s: string, scope: Scope, b: bool)
    requires StandardTable(scope)
    ensures EvaluateExpression(s, scope) == Ok(b)
       <==> exists e :: WritesTree(s, e, scope) && Eval(e, scope) == Ok(BoolVal(b))
  {
    hide Tokens, WellSpelled, Text, TokensOf, EvaluateTokens, Eval, Spelled, Parenthesised, ClosedBut, Print;
    if EvaluateExpression(s, scope) == Ok(b) {
      var ls, tail := ReadIsSpelled(s, scope);
      EvaluatesExactly(TokensOf(ls), scope, b);
      var e :| ExpressionsExact.Writes(e, TokensOf(ls)) && Eval(e, scope) == Ok(BoolVal(b));
      assert WritesTree(s, e, scope);
    }
    if exists e :: WritesTree(s, e, scope) && Eval(e, scope) == Ok(BoolVal(b)) {
      var e :| WritesTree(s, e, scope) && Eval(e, scope) == Ok(BoolVal(b));
      var ls, tail :|
        WellSpelled(ls, tail, scope) && Text(ls, tail) == s && ExpressionsExact.Writes(e, TokensOf(ls));
      SpelledIsRead(ls, tail, scope);
      EvaluatesExactly(TokensOf(ls), scope, b);
    }
  }

  /** Any spelling of a tree with minimal parentheses is evaluated to the tree's value or error. */
  lemma TextRoundTrip(e: Expr, ls: seq<Lexeme>, tail: string, scope: Scope)
    requires StandardTable(scope) && Spelled(e) && WellSpelled(ls, tail, scope) && TokensOf(ls) == Print(Minimal(e))
    ensures EvaluateExpression(Text(ls, tail), scope)
         == (match Eval(e, scope) case Ok(v) => AsBoolean(v, Branch) case Err(x) => Err(x))
  {
    hide Tokens, WellSpelled, Text, TokensOf, EvaluateTokens, Eval, Spelled, Print, Minimal;
    SpelledIsRead(ls, tail, scope);
    MinimalRoundTrip(e, scope);
  }

  /** Writings with a space before each. */
  function Spaced(ts: seq<Token>, ws: seq<string>): (ls: seq<Lexeme>)
    requires |ts| == |ws|
  {
    seq(|ts|, i requires 0 <= i < |ts| => Lexeme(" ", ws[i], ts[i]))
  }

  /** With a space before each, any writings of tokens spell them. */
  lemma {:induction false} SpacedIsSpelled(ts: seq<Token>, ws: seq<string>, scope: Scope)
    requires StandardTable(scope) && |ts| == |ws| && forall i :: 0 <= i < |ts| ==> Written(ts[i], ws[i], scope)
    ensures WellSpelled(Spaced(ts, ws), [], scope) && TokensOf(Spaced(ts, ws)) == ts
    decreases |ts|
  {
    hide Written;
    if ts != [] {
      var ls := Spaced(ts, ws);
      assert forall i :: 0 <= i < |ts[1..]| ==> ts[1..][i] == ts[i + 1] && ws[1..][i] == ws[i + 1];
      SpacedIsSpelled(ts[1..], ws[1..], scope);
      assert ls[1..] == Spaced(ts[1..], ws[1..]);
      SpaceEnds(ts[0], Text(ls[1..], []), scope);
    }
  }

  lemma SpaceEnds(t: Token, rest: string, scope: Scope)
    requires StandardTable(scope) && (rest == [] || rest[0] == ' ')
    ensures Ends(t, rest, scope)
  {
  }
}
