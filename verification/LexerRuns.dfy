/** The streaming lexer: a position that only moves forward, with its line and column. */
module LexerRuns {
  import opened Outcomes
  import opened Scalars
  import opened Lexing

  class Lexer {
    const source: string
    const tables: Tables
    var offset: nat
    var line: nat
    var column: nat
    var finished: bool

    ghost predicate Valid()
      reads this
    {
      offset <= |source| && line == LineAt(source, offset) && column == ColumnAt(source, offset)
    }

    constructor (source: string, tables: Tables)
      ensures Valid() && this.source == source && this.tables == tables && offset == 0 && !finished
    {
      this.source := source;
      this.tables := tables;
      offset := 0;
      line := 1;
      column := 1;
      finished := false;
    }

    function Current(): (c: Option<char>)
      requires Valid()
      reads this
    {
      if offset < |source| then Some(source[offset]) else None
    }

    predicate NextIs(c: char)
      requires Valid()
      reads this
    {
      CharAt(source, offset + 1, c)
    }

    method Advance()
      requires Valid()
      modifies this
      ensures Valid() && finished == old(finished)
      ensures offset == if old(offset) < |source| then old(offset) + 1 else old(offset)
    {
      if offset == |source| {
        return;
      }
      var character := source[offset];
      offset := offset + 1;
      if character == '\n' {
        line := line + 1;
        column := 1;
      } else {
        column := column + 1;
      }
    }

    /** Moves over the characters of a class. */
    method Skip(class_: Class)
      requires Valid()
      modifies this
      ensures Valid() && finished == old(finished) && offset == Run(source, old(offset), class_, tables)
    {
      hide InClass;
      while offset < |source| && InClass(source[offset], class_, tables)
        invariant Valid() && finished == old(finished)
        invariant Run(source, offset, class_, tables) == Run(source, old(offset), class_, tables)
        decreases |source| - offset
      {
        Advance();
      }
    }

    method ConsumeParameter() returns (r: Result<Kind, Fault>)
      requires Valid() && offset < |source|
      modifies this
      ensures Valid() && finished == old(finished) && offset > old(offset)
      ensures if old(offset) + 1 < |source| && IdentifierStart(source[old(offset) + 1], tables)
              then r == Ok(Parameter) && offset == Run(source, old(offset) + 2, Word, tables)
              else r == Err(ExpectedParameterName)
    {
      Advance();
      if offset == |source| || !IdentifierStart(source[offset], tables) {
        return Err(ExpectedParameterName);
      }
      Advance();
      Skip(Word);
      return Ok(Parameter);
    }

    method ConsumeString() returns (r: Result<Kind, Fault>)
      requires Valid() && offset < |source|
      modifies this
      ensures Valid() && finished == old(finished) && offset > old(offset)
      ensures match StringEnd(source, old(offset) + 1)
              case Some(e) => r == Ok(StringLiteral) && offset == e
              case None => r == Err(UnterminatedString)
    {
      Advance();
      while offset < |source|
        invariant Valid() && finished == old(finished) && offset > old(offset)
        invariant StringEnd(source, offset) == StringEnd(source, old(offset) + 1)
        decreases |source| - offset
      {
        var character := source[offset];
        Advance();
        if character == '"' {
          if CharAt(source, offset, '"') {
            Advance();
          } else {
            return Ok(StringLiteral);
          }
        }
      }
      return Err(UnterminatedString);
    }

    method ConsumeLineComment()
      requires Valid() && offset + 1 < |source|
      modifies this
      ensures Valid() && finished == old(finished) && offset == Run(source, old(offset) + 2, Line, tables)
    {
      Advance();
      Advance();
      Skip(Line);
    }

    method ConsumeNumber()
      requires Valid() && offset < |source| && IsDigit(source[offset])
      modifies this
      ensures Valid() && finished == old(finished) && offset == NumberEnd(source, old(offset), tables)
    {
      Skip(Digits);
      if CharAt(source, offset, '.') && offset + 1 < |source| && IsDigit(source[offset + 1]) {
        Advance();
        Skip(Digits);
      }
    }

    method ConsumeBinary() returns (r: Result<Kind, Fault>)
      requires Valid() && offset + 1 < |source|
      modifies this
      ensures Valid() && finished == old(finished) && offset > old(offset)
      ensures match ScanBinary(source, old(offset), tables)
              case Ok((kind, e)) => r == Ok(kind) && offset == e
              case Err(fault) => r == Err(fault)
    {
      Advance();
      Advance();
      var digitsStart := offset;
      Skip(HexDigits);
      var digitCount := offset - digitsStart;
      if digitCount == 0 || digitCount % 2 != 0 || (offset < |source| && IdentifierContinue(source[offset], tables)) {
        return Err(InvalidBinaryLiteral);
      }
      return Ok(Binary);
    }

    method ConsumeOperator()
      requires Valid() && offset < |source|
      modifies this
      ensures Valid() && finished == old(finished) && offset == OperatorEnd(source, old(offset))
    {
      var first := source[offset];
      Advance();
      if (first in "<>" && CharAt(source, offset, '=')) || (first == '<' && CharAt(source, offset, '>')) {
        Advance();
      }
    }

    /** The kind of the token at the position, which moves to its end. */
    method ScanKind() returns (r: Result<Kind, Fault>)
      requires Valid() && offset < |source|
      modifies this
      ensures Valid() && finished == old(finished)
      ensures match Scan(source, old(offset), tables)
              case Ok((kind, e)) => r == Ok(kind) && offset == e
              case Err(fault) => r == Err(fault)
    {
      hide InClass, StringEnd, NumberEnd, ScanBinary, OperatorEnd, LineAt, ColumnAt;
      var character, start := source[offset], offset;
      if IdentifierStart(character, tables) {
        Advance();
        Skip(Word);
        var keyword := tables.keyword(source[start..offset]);
        return Ok(if keyword.Some? then Keyword(keyword.value) else Identifier);
      }
      if IsDigit(character) {
        if character == '0' && offset + 1 < |source| && source[offset + 1] in "xX" {
          r := ConsumeBinary();
          return;
        }
        ConsumeNumber();
        return Ok(Number);
      }
      if character == '&' {
        r := ConsumeParameter();
      } else if character == '"' {
        r := ConsumeString();
      } else if character == '/' && NextIs('/') {
        ConsumeLineComment();
        r := Ok(Comment);
      } else if character in "=<>+-*/" {
        ConsumeOperator();
        r := Ok(Operator);
      } else if character in "()[],.;" {
        Advance();
        r := Ok(Punctuation);
      } else {
        r := Err(UnexpectedCharacter(character));
      }
    }

    method ScanToken() returns (r: Result<Option<Token>, Diagnostic>)
      requires Valid()
      modifies this
      ensures Valid() && finished == old(finished)
      ensures match NextStep(source, old(offset), tables)
              case End => r == Ok(None)
              case Faulty(d) => r == Err(d)
              case Got(t) => r == Ok(Some(t)) && offset == t.end
    {
      hide Scan, InClass, LineAt, ColumnAt;
      Skip(Space);
      if offset == |source| {
        return Ok(None);
      }
      var start, startLine, startColumn := offset, line, column;
      var kind := ScanKind();
      if kind.Err? {
        return Err(Diagnostic(kind.error, start, startLine, startColumn));
      }
      return Ok(Some(Token(kind.value, source[start..offset], start, offset, startLine, startColumn)));
    }

    /** The next token; nothing more after the end or a fault. */
    method Next() returns (r: Option<Result<Token, Diagnostic>>)
      requires Valid()
      modifies this
      ensures Valid()
      ensures old(finished) ==> r == None && finished && offset == old(offset)
      ensures !old(finished) ==>
                match NextStep(source, old(offset), tables)
                case End => r == None && finished
                case Faulty(d) => r == Some(Err(d)) && finished
                case Got(t) => r == Some(Ok(t)) && !finished && offset == t.end
    {
      hide NextStep, LineAt, ColumnAt;
      if finished {
        return None;
      }
      var scanned := ScanToken();
      match scanned
      case Ok(Some(token)) =>
        return Some(Ok(token));
      case Ok(None) =>
        finished := true;
        return None;
      case Err(error) =>
        finished := true;
        return Some(Err(error));
    }
  }

  function Appended(tokens: seq<Token>, r: Result<seq<Token>, Diagnostic>): (a: Result<seq<Token>, Diagnostic>)
  {
    if r.Ok? then Ok(tokens + r.value) else r
  }

  lemma AppendedFirst(tokens: seq<Token>, t: Token, r: Result<seq<Token>, Diagnostic>)
    ensures Appended([], r) == r && Appended(tokens, Ok([])) == Ok(tokens)
    ensures Appended(tokens, Prefixed(t, r)) == Appended(tokens + [t], r)
  {
    if r.Ok? {
      assert [] + r.value == r.value && tokens + ([t] + r.value) == tokens + [t] + r.value;
    }
    assert tokens + [] == tokens;
  }

  /** All tokens of a text, or its first fault; tokens tile the text. */
  method Tokenize(source: string, tables: Tables) returns (r: Result<seq<Token>, Diagnostic>)
    ensures r == Tokens(source, 0, tables)
    ensures r.Ok? ==> Tiles(r.value, source, 0)
  {
    hide NextStep, Tiles, Appended, LineAt, ColumnAt;
    TokensTile(source, 0, tables);
    var lexer := new Lexer(source, tables);
    var tokens: seq<Token> := [];
    ghost var goal := Tokens(source, 0, tables);
    ghost var none := Token(Comment, "", 0, 0, 0, 0);
    AppendedFirst([], none, goal);
    while true
      invariant lexer.Valid() && !lexer.finished && lexer.source == source && lexer.tables == tables
      invariant Appended(tokens, Tokens(source, lexer.offset, tables)) == goal
      decreases |source| - lexer.offset
    {
      var next := lexer.Next();
      match next
      case None =>
        AppendedFirst(tokens, none, Ok([]));
        return Ok(tokens);
      case Some(Err(error)) =>
        NothingAppended(tokens, error);
        return Err(error);
      case Some(Ok(token)) =>
        AppendedFirst(tokens, token, Tokens(source, token.end, tables));
        tokens := tokens + [token];
    }
  }

  lemma NothingAppended(tokens: seq<Token>, d: Diagnostic)
    ensures Appended(tokens, Err(d)) == Err(d)
  {
  }
}
