/** What the lexemes of each kind look like, and that the lexer takes exactly those. */
module Lexemes {
  import opened Lexing
  import opened Outcomes
  import opened Scalars
  import opened ScalarText

  predicate Starts(c: char, tables: Tables) {
    c == '_' || tables.alphabetic(c)
  }

  predicate GoesOn(w: string, from: nat, tables: Tables) {
    forall i :: from <= i < |w| ==> w[i] == '_' || tables.alphanumeric(w[i])
  }

  predicate DigitsBetween(w: string, from: nat, to: nat)
    requires to <= |w|
  {
    forall i :: from <= i < to ==> '0' <= w[i] <= '9'
  }

  /** Digits, and perhaps a dot and more digits. */
  predicate IsNumber(w: string) {
    exists n: nat ::
      && 0 < n <= |w| && DigitsBetween(w, 0, n)
      && (n == |w| || (w[n] == '.' && n + 1 < |w| && DigitsBetween(w, n + 1, |w|)))
  }

  /** A zero, an X and pairs of hexadecimal digits. */
  predicate IsBinary(w: string) {
    && |w| > 2 && w[0] == '0' && (w[1] == 'x' || w[1] == 'X') && |w| % 2 == 0
    && forall i :: 2 <= i < |w| ==> w[i] in "0123456789abcdefABCDEF"
  }

  /** Every quote is doubled. */
  predicate Paired(s: string) {
    if s == "" then true
    else if s[0] != '"' then Paired(s[1..])
    else |s| > 1 && s[1] == '"' && Paired(s[2..])
  }

  predicate IsString(w: string) {
    |w| >= 2 && w[0] == '"' && w[|w| - 1] == '"' && Paired(w[1..|w| - 1])
  }

  predicate IsComment(w: string) {
    |w| >= 2 && w[0] == '/' && w[1] == '/' && forall i :: 2 <= i < |w| ==> w[i] != '\n'
  }

  predicate IsOperator(w: string) {
    w in {"=", "<", ">", "+", "-", "*", "/", "<=", ">=", "<>"}
  }

  predicate IsPunctuation(w: string) {
    w in {"(", ")", "[", "]", ",", ".", ";"}
  }

  /** The lexemes of each kind. A name is a keyword if the keyword table has it. */
  predicate IsLexeme(kind: Kind, w: string, tables: Tables) {
    && w != ""
    && if Starts(w[0], tables) then
         && GoesOn(w, 1, tables)
         && (match tables.keyword(w) case Some(k) => kind == Keyword(k) case None => kind == Identifier)
       else
         match kind
         case Number => IsNumber(w)
         case Binary => IsBinary(w)
         case Parameter => |w| > 1 && w[0] == '&' && Starts(w[1], tables) && GoesOn(w, 2, tables)
         case StringLiteral => IsString(w)
         case Comment => IsComment(w)
         case Operator => IsOperator(w)
         case Punctuation => IsPunctuation(w)
         case _ => false
  }

  /** The whole text is one token of that kind. */
  predicate ScansAs(w: string, kind: Kind, tables: Tables) {
    w != "" && Scan(w, 0, tables) == Ok((kind, |w|))
  }

  // ---- the parts ----

  lemma RunToEnd(w: string, k: nat, class_: Class, tables: Tables)
    requires k <= |w|
    ensures Run(w, k, class_, tables) == |w| <==> forall i :: k <= i < |w| ==> InClass(w[i], class_, tables)
  {
  }

  lemma {:induction false} StringEndsLast(w: string, k: nat)
    requires k <= |w|
    ensures StringEnd(w, k) == Some(|w|) <==> k < |w| && w[|w| - 1] == '"' && Paired(w[k..|w| - 1])
    decreases |w| - k
  {
    if k < |w| {
      var inner := w[k..|w| - 1];
      if k == |w| - 1 {
        assert inner == "";
      } else if w[k] != '"' {
        assert inner[1..] == w[k + 1..|w| - 1];
        StringEndsLast(w, k + 1);
      } else if w[k + 1] == '"' {
        StringEndsLast(w, k + 2);
        if k + 2 < |w| {
          assert inner[2..] == w[k + 2..|w| - 1];
        }
      }
    }
  }

  lemma NumberExactly(w: string, tables: Tables)
    requires w != "" && IsDigit(w[0])
    ensures NumberEnd(w, 0, tables) == |w| <==> IsNumber(w)
  {
    var whole := Run(w, 0, Digits, tables);
    assert forall i :: 0 <= i < whole ==> InClass(w[i], Digits, tables);
    if NumberEnd(w, 0, tables) == |w| {
      if whole < |w| {
        RunToEnd(w, whole + 1, Digits, tables);
      }
      assert DigitsBetween(w, 0, whole);
    }
    if IsNumber(w) {
      var n: nat :| 0 < n <= |w| && DigitsBetween(w, 0, n)
        && (n == |w| || (w[n] == '.' && n + 1 < |w| && DigitsBetween(w, n + 1, |w|)));
      RunIs(w, 0, n, tables);
      if n < |w| {
        RunToEnd(w, n + 1, Digits, tables);
      }
    }
  }

  lemma {:induction false} RunIs(w: string, k: nat, n: nat, tables: Tables)
    requires k <= n <= |w| && DigitsBetween(w, k, n) && (n < |w| ==> !IsDigit(w[n]))
    ensures Run(w, k, Digits, tables) == n
    decreases n - k
  {
    if k < n {
      RunIs(w, k + 1, n, tables);
    }
  }

  lemma HexClass(c: char, tables: Tables)
    ensures InClass(c, HexDigits, tables) <==> c in "0123456789abcdefABCDEF"
  {
    ScalarText.HexDigits(c);
  }

  lemma BinaryExactly(w: string, tables: Tables)
    requires |w| > 1 && w[0] == '0' && (w[1] == 'x' || w[1] == 'X')
    ensures ScanBinary(w, 0, tables) == Ok((Binary, |w|)) <==> IsBinary(w)
    ensures ScanBinary(w, 0, tables).Ok? ==> ScanBinary(w, 0, tables).value.0 == Binary
  {
    hide InClass;
    RunToEnd(w, 2, HexDigits, tables);
    forall i | 2 <= i < |w|
      ensures InClass(w[i], HexDigits, tables) <==> w[i] in "0123456789abcdefABCDEF"
    {
      HexClass(w[i], tables);
    }
  }

  lemma WordExactly(w: string, k: nat, tables: Tables)
    requires k <= |w|
    ensures Run(w, k, Word, tables) == |w| <==> GoesOn(w, k, tables)
  {
    RunToEnd(w, k, Word, tables);
  }

  lemma CommentExactly(w: string, tables: Tables)
    requires |w| >= 2 && w[0] == '/' && w[1] == '/'
    ensures Run(w, 2, Line, tables) == |w| <==> IsComment(w)
  {
    RunToEnd(w, 2, Line, tables);
  }

  // ---- the kinds ----

  lemma NamesExactly(w: string, kind: Kind, tables: Tables)
    requires w != "" && Starts(w[0], tables)
    ensures ScansAs(w, kind, tables) <==> IsLexeme(kind, w, tables)
  {
    hide Run, StringEnd, NumberEnd, ScanBinary, IsNumber, IsBinary, IsString, IsComment, IsOperator, IsPunctuation;
    hide GoesOn;
    WordExactly(w, 1, tables);
    assert w[0..|w|] == w;
  }

  lemma DigitsExactly(w: string, kind: Kind, tables: Tables)
    requires w != "" && !Starts(w[0], tables) && IsDigit(w[0])
    ensures ScansAs(w, kind, tables) <==> IsLexeme(kind, w, tables)
  {
    hide Run, StringEnd, NumberEnd, ScanBinary, IsNumber, IsBinary, GoesOn;
    if w[0] == '0' && |w| > 1 && (w[1] == 'x' || w[1] == 'X') {
      BinaryExactly(w, tables);
      NoNumberWithX(w);
      assert w[1] in "xX";
    } else {
      NumberExactly(w, tables);
      NoBinaryWithoutX(w);
      assert !(|w| > 1 && w[0] == '0' && w[1] in "xX");
    }
    NotOther(w);
  }

  lemma NoNumberWithX(w: string)
    requires |w| > 1 && (w[1] == 'x' || w[1] == 'X')
    ensures !IsNumber(w)
  {
  }

  lemma NoBinaryWithoutX(w: string)
    requires !(|w| > 1 && w[0] == '0' && (w[1] == 'x' || w[1] == 'X'))
    ensures !IsBinary(w)
  {
  }

  /** A text that begins with a digit is no operator, punctuation, string, comment or parameter. */
  lemma NotOther(w: string)
    requires w != "" && IsDigit(w[0])
    ensures !IsOperator(w) && !IsPunctuation(w) && !IsString(w) && !IsComment(w) && w[0] != '&'
  {
  }

  lemma MarksExactly(w: string, kind: Kind, tables: Tables)
    requires w != "" && !Starts(w[0], tables) && !IsDigit(w[0])
    ensures ScansAs(w, kind, tables) <==> IsLexeme(kind, w, tables)
  {
    hide Run, StringEnd, NumberEnd, ScanBinary, IsNumber, IsBinary, GoesOn, Paired;
    NotNumber(w);
    if w[0] == '&' {
      if |w| > 1 {
        WordExactly(w, 2, tables);
      }
    } else if w[0] == '"' {
      StringEndsLast(w, 1);
    } else if w[0] == '/' && |w| > 1 && w[1] == '/' {
      CommentExactly(w, tables);
    } else {
      SignsExactly(w, tables);
    }
  }

  /** What an operator or a punctuation mark is, by its characters. */
  lemma SignsExactly(w: string, tables: Tables)
    requires w != "" && !(w[0] == '/' && |w| > 1 && w[1] == '/')
    ensures IsOperator(w) <==> w[0] in "=<>+-*/" && OperatorEnd(w, 0) == |w|
    ensures IsPunctuation(w) <==> w[0] in "()[],.;" && |w| == 1
  {
    assert w == [w[0]] + w[1..];
    if |w| == 1 {
      assert w == [w[0]];
    } else if |w| == 2 {
      assert w == [w[0], w[1]];
    }
  }

  lemma NotNumber(w: string)
    requires w != "" && !IsDigit(w[0])
    ensures !IsNumber(w) && !IsBinary(w)
  {
  }

  /** A text is one token of a kind exactly when it is a lexeme of that kind. */
  lemma LexemesExactly(w: string, kind: Kind, tables: Tables)
    ensures ScansAs(w, kind, tables) <==> IsLexeme(kind, w, tables)
  {
    hide Scan, IsNumber, IsBinary, IsString, IsComment, IsOperator, IsPunctuation, GoesOn;
    if w != "" {
      if Starts(w[0], tables) {
        NamesExactly(w, kind, tables);
      } else if IsDigit(w[0]) {
        DigitsExactly(w, kind, tables);
      } else {
        MarksExactly(w, kind, tables);
      }
    }
  }

  /** Every token of a text is a lexeme of its kind. */
  lemma TokensAreLexemes(s: string, tables: Tables)
    requires Tokens(s, 0, tables).Ok?
    ensures forall t :: t in Tokens(s, 0, tables).value ==> IsLexeme(t.kind, t.lexeme, tables)
  {
    hide Tokens, IsLexeme, Scan;
    TokensStandAlone(s, 0, tables);
    forall t | t in Tokens(s, 0, tables).value
      ensures IsLexeme(t.kind, t.lexeme, tables)
    {
      assert StandsAlone(t, tables);
      LexemesExactly(t.lexeme, t.kind, tables);
    }
  }
}
