/**
 * Tokens, values and diagnostics of the expressions between a conditional directive
 * and its "then" in a restriction text.
 */
module DirectiveTokens {
  import opened Outcomes
  import opened Bits

  datatype Token =
    | Str(text: string)
    | Parameter(name: string)
    | Word(word: string)
    | CurrentTable
    | CurrentRight
    | Equal
    | NotEqual
    | Plus
    | Open
    | Close
    | Comma

  /** A value: an empty reference is a nil one; any other reference is known by its text. */
  datatype Val =
    | StrVal(text: string)
    | BoolVal(value: bool)
    | EmptyReference
    | Reference(spelling: string)

  datatype Operator = OrOperator | AndOperator | NotOperator | Branch

  datatype SyntaxFault =
    | UnterminatedString
    | UnknownDirectiveName
    | UnexpectedCharacter(character: char)
    | NotBoolean(operator: Operator)
    | NotString
    | DifferentKinds
    | EndsEarly
    | MissingParenthesis
    | ValueWithoutArgument
    | UnexpectedInValue(inValue: Token)
    | ContainsWithoutArguments
    | ContainsTakesTwo
    | ContainsNotClosed
    | UnknownWord(word: string)
    | UnexpectedToken(token: Token)
    | TrailingTokens
    | MissingCondition
    | MissingThen
    | MissingEndIf
    | ElseNotClosed
    | StrayDirective

  datatype RestrictionError =
    | MissingParameter(name: string)
    | Syntax(fault: SyntaxFault)

  type Outcome<+T> = Result<T, RestrictionError>

  function Fail<T>(fault: SyntaxFault): (r: Outcome<T>)
  {
    Err(Syntax(fault))
  }

  datatype SessionValue =
    | TextValue(text: string)
    | FlagValue(flag: bool)
    | NullValue
    | ReferenceValue(id: seq<Byte>)
    | OtherValue

  /**
   * The names a restriction is expanded for, the session it reads, and two tables of Unicode:
   * which characters are letters or digits, and the lower case of a text.
   */
  datatype Scope = Scope(
    tableName: string,
    right: string,
    session: string -> Option<SessionValue>,
    alphanumeric: char -> bool,
    lower: string -> string)

  /** Lower case of the ASCII and Cyrillic letters the fixed words are written in. */
  function LowerChar(c: char): (r: char)
  {
    var n := c as int;
    if 'A' <= c <= 'Z' then (n + 0x20) as char
    else if 0x410 <= n <= 0x42F then (n + 0x20) as char
    else if 0x400 <= n <= 0x40F then (n + 0x50) as char
    else c
  }

  function Lower(s: string): (r: string)
    ensures |r| == |s|
  {
    seq(|s|, i requires 0 <= i < |s| => LowerChar(s[i]))
  }

  datatype WordKind =
    | OrWord | AndWord | NotWord | TrueWord | FalseWord | UndefinedWord | ValueWord | ContainsWord | OtherWord

  /** The role of a word, in either language and any case. */
  function KindOf(word: string): (k: WordKind)
  {
    var w := Lower(word);
    if w == "или" || w == "or" then OrWord
    else if w == "и" || w == "and" then AndWord
    else if w == "не" || w == "not" then NotWord
    else if w == "истина" || w == "true" then TrueWord
    else if w == "ложь" || w == "false" then FalseWord
    else if w == "неопределено" || w == "undefined" then UndefinedWord
    else if w == "значение" || w == "value" then ValueWord
    else if w == "стрсодержит" || w == "strcontains" then ContainsWord
    else OtherWord
  }

  const UNDEFINED_TEXT := "Неопределено"

  // ---- values ----

  function AsBoolean(v: Val, operator: Operator): (r: Outcome<bool>)
  {
    if v.BoolVal? then Ok(v.value) else Fail(NotBoolean(operator))
  }

  function AsText(v: Val): (r: Outcome<string>)
  {
    if v.StrVal? then Ok(v.text) else Fail(NotString)
  }

  /** The right operand has already been evaluated; its kind matters only when it decides. */
  function Disjunction(left: Val, right: Val): (r: Outcome<Val>)
  {
    var l :- AsBoolean(left, OrOperator);
    if l then Ok(BoolVal(true))
    else
      var b :- AsBoolean(right, OrOperator);
      Ok(BoolVal(b))
  }

  function Conjunction(left: Val, right: Val): (r: Outcome<Val>)
  {
    var l :- AsBoolean(left, AndOperator);
    if !l then Ok(BoolVal(false))
    else
      var b :- AsBoolean(right, AndOperator);
      Ok(BoolVal(b))
  }

  function Negation(v: Val): (r: Outcome<Val>)
  {
    var b :- AsBoolean(v, NotOperator);
    Ok(BoolVal(!b))
  }

  /** References are compared by the lower case of their whole text, in every alphabet. */
  function Same(left: Val, right: Val, scope: Scope): (r: Outcome<bool>)
  {
    match (left, right)
    case (StrVal(a), StrVal(b)) => Ok(a == b)
    case (BoolVal(a), BoolVal(b)) => Ok(a == b)
    case (EmptyReference, EmptyReference) => Ok(true)
    case (Reference(a), Reference(b)) => Ok(scope.lower(a) == scope.lower(b))
    case (EmptyReference, Reference(_)) => Ok(false)
    case (Reference(_), EmptyReference) => Ok(false)
    case _ => Fail(DifferentKinds)
  }

  function Comparison(equal: bool, left: Val, right: Val, scope: Scope): (r: Outcome<Val>)
  {
    var same :- Same(left, right, scope);
    Ok(BoolVal(same == equal))
  }

  function Concatenation(left: Val, right: Val): (r: Outcome<Val>)
  {
    var a :- AsText(left);
    var b :- AsText(right);
    Ok(StrVal(a + b))
  }

  predicate Occurs(needle: string, haystack: string) {
    exists i :: 0 <= i <= |haystack| && needle <= haystack[i..]
  }

  function Containment(haystack: Val, needle: Val): (r: Outcome<Val>)
  {
    var h :- AsText(haystack);
    var n :- AsText(needle);
    Ok(BoolVal(Occurs(n, h)))
  }

  function HexDigit(n: nat): char
    requires n < 16
  {
    "0123456789abcdef"[n]
  }

  function HexText(id: seq<Byte>): string {
    if id == [] then "" else [HexDigit(id[0] / 16), HexDigit(id[0] % 16)] + HexText(id[1..])
  }

  /** A session parameter in an expression; a kind with no value here counts as missing. */
  function ParameterValue(scope: Scope, name: string): (r: Outcome<Val>)
  {
    match scope.session(name)
    case Some(TextValue(text)) => Ok(StrVal(text))
    case Some(FlagValue(flag)) => Ok(BoolVal(flag))
    case Some(NullValue) => Ok(StrVal(UNDEFINED_TEXT))
    case Some(ReferenceValue(id)) =>
      if forall i :: 0 <= i < |id| ==> id[i] == 0 then Ok(EmptyReference) else Ok(Reference(HexText(id)))
    case _ => Err(MissingParameter(name))
  }

  /** The path of a value by its tokens: words and strings. */
  function PathText(t: Token): string
    requires t.Word? || t.Str?
  {
    if t.Word? then t.word else t.text
  }

  function Join(path: seq<string>): string {
    if path == [] then "" else if |path| == 1 then path[0] else path[0] + "." + Join(path[1..])
  }

  function PathValue(path: seq<string>): (v: Val)
  {
    if path != [] && Lower(path[|path| - 1]) in {"пустаяссылка", "emptyref"} then EmptyReference
    else Reference(Join(path))
  }
}
