/** The tokens of a query text: what one token is, and how the tokens tile the text. */
module Lexing {
  import opened Outcomes
  import opened Scalars
  import opened WhiteSpace

  datatype Kind =
    | Identifier
    | Keyword(number: nat)
    | Number
    | Binary
    | Parameter
    | StringLiteral
    | Comment
    | Operator
    | Punctuation

  datatype Fault =
    | UnterminatedString
    | ExpectedParameterName
    | InvalidBinaryLiteral
    | UnexpectedCharacter(character: char)

  datatype Token = Token(kind: Kind, lexeme: string, start: nat, end: nat, line: nat, column: nat)

  datatype Diagnostic = Diagnostic(fault: Fault, offset: nat, line: nat, column: nat)

  /** The character tables and the keyword table the lexer consults. */
  datatype Tables = Tables(alphabetic: char -> bool, alphanumeric: char -> bool, keyword: string -> Option<nat>)

  predicate IdentifierStart(c: char, tables: Tables) {
    c == '_' || tables.alphabetic(c)
  }

  predicate IdentifierContinue(c: char, tables: Tables) {
    c == '_' || tables.alphanumeric(c)
  }

  // ---- one token ----

  datatype Class = Word | Digits | HexDigits | Line | Space

  predicate InClass(c: char, class_: Class, tables: Tables) {
    match class_
    case Word => IdentifierContinue(c, tables)
    case Digits => IsDigit(c)
    case HexDigits => IsHexDigit(c)
    case Line => c != '\n'
    case Space => IsSpace(c)
  }

  /** The end of the longest run of characters of a class. */
  function Run(s: string, o: nat, class_: Class, tables: Tables): (e: nat)
    requires o <= |s|
    ensures o <= e <= |s| && (forall i :: o <= i < e ==> InClass(s[i], class_, tables))
    ensures e < |s| ==> !InClass(s[e], class_, tables)
    decreases |s| - o
  {
    if o < |s| && InClass(s[o], class_, tables) then Run(s, o + 1, class_, tables) else o
  }

  /** The end of a string literal, from a place after its opening quote. */
  function StringEnd(s: string, o: nat): (e: Option<nat>)
    requires o <= |s|
    ensures e.Some? ==> o < e.value <= |s|
    decreases |s| - o
  {
    if o == |s| then None
    else if s[o] != '"' then StringEnd(s, o + 1)
    else if o + 1 < |s| && s[o + 1] == '"' then StringEnd(s, o + 2)
    else Some(o + 1)
  }

  predicate CharAt(s: string, o: nat, c: char) {
    o < |s| && s[o] == c
  }

  function NumberEnd(s: string, o: nat, tables: Tables): (e: nat)
    requires o < |s| && IsDigit(s[o])
    ensures o < e <= |s|
  {
    var whole := Run(s, o, Digits, tables);
    if CharAt(s, whole, '.') && whole + 1 < |s| && IsDigit(s[whole + 1]) then Run(s, whole + 1, Digits, tables)
    else whole
  }

  function ScanBinary(s: string, o: nat, tables: Tables): (r: Result<(Kind, nat), Fault>)
    requires o + 2 <= |s|
    ensures r.Ok? ==> o < r.value.1 <= |s|
  {
    var e := Run(s, o + 2, HexDigits, tables);
    var count := e - (o + 2);
    if count == 0 || count % 2 != 0 || (e < |s| && IdentifierContinue(s[e], tables)) then Err(InvalidBinaryLiteral)
    else Ok((Binary, e))
  }

  function OperatorEnd(s: string, o: nat): (e: nat)
    requires o < |s|
    ensures o < e <= |s|
  {
    if (s[o] in "<>" && CharAt(s, o + 1, '=')) || (s[o] == '<' && CharAt(s, o + 1, '>')) then o + 2 else o + 1
  }

  /** The token at a place that is not white space: its kind and its end. */
  function Scan(s: string, o: nat, tables: Tables): (r: Result<(Kind, nat), Fault>)
    requires o < |s|
    ensures r.Ok? ==> o < r.value.1 <= |s|
  {
    var c := s[o];
    if IdentifierStart(c, tables) then
      var e := Run(s, o + 1, Word, tables);
      Ok((match tables.keyword(s[o..e]) case Some(k) => Keyword(k) case None => Identifier, e))
    else if IsDigit(c) then
      if c == '0' && o + 1 < |s| && s[o + 1] in "xX" then ScanBinary(s, o, tables)
      else Ok((Number, NumberEnd(s, o, tables)))
    else if c == '&' then
      if o + 1 < |s| && IdentifierStart(s[o + 1], tables) then Ok((Parameter, Run(s, o + 2, Word, tables)))
      else Err(ExpectedParameterName)
    else if c == '"' then
      match StringEnd(s, o + 1) case Some(e) => Ok((StringLiteral, e)) case None => Err(UnterminatedString)
    else if c == '/' && CharAt(s, o + 1, '/') then Ok((Comment, Run(s, o + 2, Line, tables)))
    else if c in "=<>+-*/" then Ok((Operator, OperatorEnd(s, o)))
    else if c in "()[],.;" then Ok((Punctuation, o + 1))
    else Err(UnexpectedCharacter(c))
  }

  // ---- places ----

  /** One more than the newlines before a place. */
  function LineAt(s: string, o: nat): (line: nat)
    requires o <= |s|
  {
    if o == 0 then 1 else LineAt(s, o - 1) + (if s[o - 1] == '\n' then 1 else 0)
  }

  /** One more than the characters since the last newline before a place. */
  function ColumnAt(s: string, o: nat): (column: nat)
    requires o <= |s|
  {
    if o == 0 || s[o - 1] == '\n' then 1 else ColumnAt(s, o - 1) + 1
  }

  function TokenAt(s: string, o: nat, kind: Kind, e: nat): (t: Token)
    requires o <= e <= |s|
  {
    Token(kind, s[o..e], o, e, LineAt(s, o), ColumnAt(s, o))
  }

  function DiagnosticAt(s: string, o: nat, fault: Fault): (d: Diagnostic)
    requires o <= |s|
  {
    Diagnostic(fault, o, LineAt(s, o), ColumnAt(s, o))
  }

  // ---- all tokens ----

  function Prefixed(t: Token, r: Result<seq<Token>, Diagnostic>): (p: Result<seq<Token>, Diagnostic>)
  {
    if r.Ok? then Ok([t] + r.value) else r
  }

  datatype Step = End | Faulty(diagnostic: Diagnostic) | Got(token: Token)

  /** What comes after white space at a place: the end, a fault or a token. */
  function NextStep(s: string, o: nat, tables: Tables): (r: Step)
    requires o <= |s|
    ensures r.Got? ==> o < r.token.end <= |s|
  {
    var start := Run(s, o, Space, tables);
    if start == |s| then End
    else
      match Scan(s, start, tables)
      case Err(fault) => Faulty(DiagnosticAt(s, start, fault))
      case Ok((kind, e)) => Got(TokenAt(s, start, kind, e))
  }

  /** The tokens from a place on, or the first fault. */
  function Tokens(s: string, o: nat, tables: Tables): (r: Result<seq<Token>, Diagnostic>)
    requires o <= |s|
    decreases |s| - o
  {
    match NextStep(s, o, tables)
    case End => Ok([])
    case Faulty(d) => Err(d)
    case Got(t) => Prefixed(t, Tokens(s, t.end, tables))
  }

  predicate AllSpace(s: string, from: nat, to: nat)
    requires from <= to <= |s|
  {
    forall p :: from <= p < to ==> IsSpace(s[p])
  }

  /** A token is a stretch of the text that starts with no white space, at the line and column of its start. */
  predicate Marks(t: Token, s: string) {
    && t.start < t.end <= |s| && t.lexeme == s[t.start..t.end] && !IsSpace(s[t.start])
    && t.line == LineAt(s, t.start) && t.column == ColumnAt(s, t.start)
  }

  /** The tokens cover the text from `o` on in order, and what they leave is white space. */
  predicate Tiles(tokens: seq<Token>, s: string, o: nat)
    requires o <= |s|
    decreases |tokens|
  {
    if tokens == [] then AllSpace(s, o, |s|)
    else
      var t := tokens[0];
      o <= t.start && Marks(t, s) && AllSpace(s, o, t.start) && Tiles(tokens[1..], s, t.end)
  }

  /** A token found follows white space only. */
  lemma GotMarks(s: string, o: nat, tables: Tables)
    requires o <= |s|
    ensures match NextStep(s, o, tables)
            case End => AllSpace(s, o, |s|)
            case Faulty(d) => o <= d.offset < |s| && AllSpace(s, o, d.offset) && !IsSpace(s[d.offset])
            case Got(t) => o <= t.start && Marks(t, s) && AllSpace(s, o, t.start)
  {
    hide Scan, IsSpace, LineAt, ColumnAt;
    var start := Run(s, o, Space, tables);
    assert forall i :: o <= i < start ==> InClass(s[i], Space, tables);
    if start < |s| {
      assert !InClass(s[start], Space, tables);
    }
  }

  /** Tokens tile the text. */
  lemma {:induction false} TokensTile(s: string, o: nat, tables: Tables)
    requires o <= |s|
    ensures Tokens(s, o, tables).Ok? ==> Tiles(Tokens(s, o, tables).value, s, o)
    decreases |s| - o
  {
    hide NextStep, Marks, AllSpace;
    GotMarks(s, o, tables);
    match NextStep(s, o, tables)
    case End =>
    case Faulty(_) =>
    case Got(t) =>
      TokensTile(s, t.end, tables);
      if Tokens(s, t.end, tables).Ok? {
        var rest := Tokens(s, t.end, tables).value;
        assert ([t] + rest)[1..] == rest;
        MarkBounds(t, s);
      }
  }

  /** The lexemes with the text between them. */
  function Assembled(tokens: seq<Token>, s: string, o: nat): (text: string)
    requires o <= |s| && Tiles(tokens, s, o)
    decreases |tokens|
  {
    if tokens == [] then s[o..] else s[o..tokens[0].start] + tokens[0].lexeme + Assembled(tokens[1..], s, tokens[0].end)
  }

  /** White space and the lexemes, put together in order, are the text. */
  lemma {:induction false} TilesAssemble(tokens: seq<Token>, s: string, o: nat)
    requires o <= |s| && Tiles(tokens, s, o)
    ensures Assembled(tokens, s, o) == s[o..]
    decreases |tokens|
  {
    hide Marks, AllSpace;
    if tokens != [] {
      var t := tokens[0];
      MarkBounds(t, s);
      TilesAssemble(tokens[1..], s, t.end);
      assert s[o..] == s[o..t.start] + s[t.start..t.end] + s[t.end..];
    }
  }

  lemma MarkBounds(t: Token, s: string)
    requires Marks(t, s)
    ensures t.start < t.end <= |s| && t.lexeme == s[t.start..t.end]
  {
  }

  /** A place no token covers is white space. */
  lemma {:induction false} UncoveredIsSpace(tokens: seq<Token>, s: string, o: nat, p: nat)
    requires o <= p < |s| && Tiles(tokens, s, o)
    requires forall t :: t in tokens ==> !(t.start <= p < t.end)
    ensures IsSpace(s[p])
    decreases |tokens|
  {
    hide IsSpace, LineAt, ColumnAt;
    if tokens != [] && p >= tokens[0].start {
      assert tokens[0] in tokens;
      UncoveredIsSpace(tokens[1..], s, tokens[0].end, p);
    }
  }

  // ---- a lexeme by itself ----

  lemma {:induction false} RunWithin(s: string, o: nat, k: nat, e: nat, class_: Class, tables: Tables)
    requires o <= k <= |s| && Run(s, k, class_, tables) <= e <= |s|
    ensures Run(s[o..e], k - o, class_, tables) == Run(s, k, class_, tables) - o
    decreases e - k
  {
    hide InClass;
    if k < e && InClass(s[k], class_, tables) {
      RunWithin(s, o, k + 1, e, class_, tables);
    }
  }

  lemma {:induction false} StringEndWithin(s: string, o: nat, k: nat)
    requires o <= k <= |s| && StringEnd(s, k).Some?
    ensures var e := StringEnd(s, k).value;
            k < e <= |s| && StringEnd(s[o..e], k - o) == Some(e - o)
    decreases |s| - k
  {
    if s[k] != '"' {
      StringEndWithin(s, o, k + 1);
    } else if k + 1 < |s| && s[k + 1] == '"' {
      StringEndWithin(s, o, k + 2);
    }
  }

  lemma NumberEndWithin(s: string, o: nat, tables: Tables)
    requires o < |s| && IsDigit(s[o])
    ensures var e := NumberEnd(s, o, tables);
            IsDigit(s[o..e][0]) && NumberEnd(s[o..e], 0, tables) == e - o
  {
    hide IsDigit;
    var e, whole := NumberEnd(s, o, tables), Run(s, o, Digits, tables);
    RunWithin(s, o, o, e, Digits, tables);
    if e > whole {
      RunWithin(s, o, whole + 1, e, Digits, tables);
      assert s[o..e][whole - o] == '.' && s[o..e][whole + 1 - o] == s[whole + 1];
    }
  }

  lemma BinaryWithin(s: string, o: nat, tables: Tables)
    requires o + 2 <= |s| && ScanBinary(s, o, tables).Ok?
    ensures var e := ScanBinary(s, o, tables).value.1;
            && e >= o + 2 && ScanBinary(s, o, tables) == Ok((Binary, e))
            && ScanBinary(s[o..e], 0, tables) == Ok((Binary, e - o))
  {
    var e := ScanBinary(s, o, tables).value.1;
    RunWithin(s, o, o + 2, e, HexDigits, tables);
  }

  /** A lexeme scanned by itself gives the same kind and ends where it ends. */
  lemma ScanAlone(s: string, o: nat, tables: Tables)
    requires o < |s| && Scan(s, o, tables).Ok?
    ensures var (kind, e) := Scan(s, o, tables).value;
            Scan(s[o..e], 0, tables) == Ok((kind, e - o))
  {
    hide Run, StringEnd, NumberEnd, ScanBinary, IsDigit, IdentifierStart;
    var c, e := s[o], Scan(s, o, tables).value.1;
    var w := s[o..e];
    assert w[0] == c && w[0..e - o] == w;
    if IdentifierStart(c, tables) {
      RunWithin(s, o, o + 1, e, Word, tables);
    } else if IsDigit(c) {
      if c == '0' && o + 1 < |s| && s[o + 1] in "xX" {
        BinaryWithin(s, o, tables);
        assert w[1] == s[o + 1];
      } else {
        NumberEndWithin(s, o, tables);
        assert |w| > 1 ==> w[1] == s[o + 1];
      }
    } else if c == '&' {
      RunWithin(s, o, o + 2, e, Word, tables);
      assert w[1] == s[o + 1];
    } else if c == '"' {
      StringEndWithin(s, o, o + 1);
    } else if c == '/' && CharAt(s, o + 1, '/') {
      RunWithin(s, o, o + 2, e, Line, tables);
      assert w[1] == s[o + 1];
    } else {
      assert |w| > 1 ==> w[1] == s[o + 1];
    }
  }

  /** The token's lexeme by itself is that token. */
  predicate StandsAlone(t: Token, tables: Tables) {
    t.lexeme != [] && Scan(t.lexeme, 0, tables) == Ok((t.kind, |t.lexeme|))
  }

  lemma GotStandsAlone(s: string, o: nat, tables: Tables)
    requires o <= |s| && NextStep(s, o, tables).Got?
    ensures StandsAlone(NextStep(s, o, tables).token, tables)
  {
    hide Scan, LineAt, ColumnAt;
    ScanAlone(s, Run(s, o, Space, tables), tables);
  }

  /** Every token of a text is what its lexeme is by itself. */
  lemma {:induction false} TokensStandAlone(s: string, o: nat, tables: Tables)
    requires o <= |s| && Tokens(s, o, tables).Ok?
    ensures forall t :: t in Tokens(s, o, tables).value ==> StandsAlone(t, tables)
    decreases |s| - o
  {
    hide NextStep, StandsAlone;
    if NextStep(s, o, tables).Got? {
      GotStandsAlone(s, o, tables);
      TokensStandAlone(s, NextStep(s, o, tables).token.end, tables);
    }
  }
}
