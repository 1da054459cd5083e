/**
 * The words of the restriction language, letter by letter: each is known in small letters,
 * capitals or any mixture, in Russian and in English.
 */
module Wording {
  import opened DirectiveSplitting
  import opened DirectiveTokens
  import opened Directives
  import opened Outcomes
  import opened Tokenizing

  // ---- letters ----

  const LATIN := "ABCDEFGHIJKLMNOPQRSTUVWXYZ"
  const SMALL_LATIN := "abcdefghijklmnopqrstuvwxyz"
  const CYRILLIC := "АБВГДЕЖЗИЙКЛМНОПРСТУФХЦЧШЩЪЫЬЭЮЯ"
  const SMALL_CYRILLIC := "абвгдежзийклмнопрстуфхцчшщъыьэюя"
  const OTHER := "ЀЁЂЃЄЅІЇЈЉЊЋЌЍЎЏ"
  const SMALL_OTHER := "ѐёђѓєѕіїјљњћќѝўџ"

  lemma LatinLetters(k: nat)
    requires k < 26
    ensures |LATIN| == |SMALL_LATIN| == 26 && LATIN[k] as int == 0x41 + k && SMALL_LATIN[k] as int == 0x61 + k
  {
  }

  lemma CyrillicLetters(k: nat)
    requires k < 32
    ensures |CYRILLIC| == |SMALL_CYRILLIC| == 32
    ensures CYRILLIC[k] as int == 0x410 + k && SMALL_CYRILLIC[k] as int == 0x430 + k
  {
  }

  lemma OtherLetters(k: nat)
    requires k < 16
    ensures |OTHER| == |SMALL_OTHER| == 16 && OTHER[k] as int == 0x400 + k && SMALL_OTHER[k] as int == 0x450 + k
  {
  }

  /** Every capital of the three alphabets has its small letter, and nothing else changes. */
  lemma LowerCharExactly(c: char, k: nat)
    ensures |LATIN| == |SMALL_LATIN| && |CYRILLIC| == |SMALL_CYRILLIC| && |OTHER| == |SMALL_OTHER|
    ensures k < |LATIN| && c == LATIN[k] ==> LowerChar(c) == SMALL_LATIN[k]
    ensures k < |CYRILLIC| && c == CYRILLIC[k] ==> LowerChar(c) == SMALL_CYRILLIC[k]
    ensures k < |OTHER| && c == OTHER[k] ==> LowerChar(c) == SMALL_OTHER[k]
    ensures c !in LATIN && c !in CYRILLIC && c !in OTHER ==> LowerChar(c) == c
  {
    hide LATIN, SMALL_LATIN, CYRILLIC, SMALL_CYRILLIC, OTHER, SMALL_OTHER;
    var n := c as int;
    LatinLetters(if k < 26 then k else 0);
    CyrillicLetters(if k < 32 then k else 0);
    OtherLetters(if k < 16 then k else 0);
    if 0x41 <= n < 0x41 + 26 {
      LatinLetters(n - 0x41);
      assert LATIN[n - 0x41] == c;
    } else if 0x410 <= n < 0x410 + 32 {
      CyrillicLetters(n - 0x410);
      assert CYRILLIC[n - 0x410] == c;
    } else if 0x400 <= n < 0x410 {
      OtherLetters(n - 0x400);
      assert OTHER[n - 0x400] == c;
    }
  }

  // ---- words ----

  /** Every letter of a text is the small or the capital one of a word. */
  predicate IsWord(text: string, small: string, capital: string) {
    |text| == |small| == |capital| && forall i :: 0 <= i < |text| ==> text[i] == small[i] || text[i] == capital[i]
  }

  /** A small letter and its capital, 32 code points before it. */
  predicate Pair(small: char, capital: char) {
    && (('a' <= small <= 'z') || (0x430 <= small as int <= 0x44F))
    && capital as int + 0x20 == small as int
  }

  predicate Pairs(small: string, capital: string) {
    |small| == |capital| && forall i :: 0 <= i < |small| ==> Pair(small[i], capital[i])
  }

  lemma LetterLowers(c: char, small: char, capital: char)
    requires Pair(small, capital)
    ensures LowerChar(c) == small <==> c == small || c == capital
  {
  }

  /** A text has a word as its lower case exactly when it is the word in any case. */
  lemma LowerIsWord(text: string, small: string, capital: string)
    requires Pairs(small, capital)
    ensures Lower(text) == small <==> IsWord(text, small, capital)
  {
    hide LowerChar;
    if |text| == |small| {
      forall i | 0 <= i < |text|
        ensures LowerChar(text[i]) == small[i] <==> text[i] == small[i] || text[i] == capital[i]
      {
        assert Pair(small[i], capital[i]);
        LetterLowers(text[i], small[i], capital[i]);
      }
      if Lower(text) == small {
        forall i | 0 <= i < |text|
          ensures LowerChar(text[i]) == small[i]
        {
          assert Lower(text)[i] == small[i];
        }
      }
    }
  }

  // ---- the words of conditions ----

  predicate IsOrWord(text: string) {
    IsWord(text, "или", "ИЛИ") || IsWord(text, "or", "OR")
  }

  predicate IsAndWord(text: string) {
    IsWord(text, "и", "И") || IsWord(text, "and", "AND")
  }

  predicate IsNotWord(text: string) {
    IsWord(text, "не", "НЕ") || IsWord(text, "not", "NOT")
  }

  predicate IsTrueWord(text: string) {
    IsWord(text, "истина", "ИСТИНА") || IsWord(text, "true", "TRUE")
  }

  predicate IsFalseWord(text: string) {
    IsWord(text, "ложь", "ЛОЖЬ") || IsWord(text, "false", "FALSE")
  }

  predicate IsUndefinedWord(text: string) {
    IsWord(text, "неопределено", "НЕОПРЕДЕЛЕНО") || IsWord(text, "undefined", "UNDEFINED")
  }

  predicate IsValueWord(text: string) {
    IsWord(text, "значение", "ЗНАЧЕНИЕ") || IsWord(text, "value", "VALUE")
  }

  predicate IsContainsWord(text: string) {
    IsWord(text, "стрсодержит", "СТРСОДЕРЖИТ") || IsWord(text, "strcontains", "STRCONTAINS")
  }

  lemma OrWordLower(text: string)
    ensures Lower(text) in {"или", "or"} <==> IsOrWord(text)
  {
    hide Lower;
    LowerIsWord(text, "или", "ИЛИ");
    LowerIsWord(text, "or", "OR");
  }

  lemma AndWordLower(text: string)
    ensures Lower(text) in {"и", "and"} <==> IsAndWord(text)
  {
    hide Lower;
    LowerIsWord(text, "и", "И");
    LowerIsWord(text, "and", "AND");
  }

  lemma NotWordLower(text: string)
    ensures Lower(text) in {"не", "not"} <==> IsNotWord(text)
  {
    hide Lower;
    LowerIsWord(text, "не", "НЕ");
    LowerIsWord(text, "not", "NOT");
  }

  lemma TrueWordLower(text: string)
    ensures Lower(text) in {"истина", "true"} <==> IsTrueWord(text)
  {
    hide Lower;
    LowerIsWord(text, "истина", "ИСТИНА");
    LowerIsWord(text, "true", "TRUE");
  }

  lemma FalseWordLower(text: string)
    ensures Lower(text) in {"ложь", "false"} <==> IsFalseWord(text)
  {
    hide Lower;
    LowerIsWord(text, "ложь", "ЛОЖЬ");
    LowerIsWord(text, "false", "FALSE");
  }

  lemma UndefinedWordLower(text: string)
    ensures Lower(text) in {"неопределено", "undefined"} <==> IsUndefinedWord(text)
  {
    hide Lower;
    LowerIsWord(text, "неопределено", "НЕОПРЕДЕЛЕНО");
    LowerIsWord(text, "undefined", "UNDEFINED");
  }

  lemma ValueWordLower(text: string)
    ensures Lower(text) in {"значение", "value"} <==> IsValueWord(text)
  {
    hide Lower;
    LowerIsWord(text, "значение", "ЗНАЧЕНИЕ");
    LowerIsWord(text, "value", "VALUE");
  }

  lemma ContainsWordLower(text: string)
    ensures Lower(text) in {"стрсодержит", "strcontains"} <==> IsContainsWord(text)
  {
    hide Lower;
    LowerIsWord(text, "стрсодержит", "СТРСОДЕРЖИТ");
    LowerIsWord(text, "strcontains", "STRCONTAINS");
  }

  /** The role of a word is told by its letters. */
  lemma KindExactly(text: string)
    ensures KindOf(text) == OrWord <==> IsOrWord(text)
    ensures KindOf(text) == AndWord <==> IsAndWord(text)
    ensures KindOf(text) == NotWord <==> IsNotWord(text)
    ensures KindOf(text) == TrueWord <==> IsTrueWord(text)
    ensures KindOf(text) == FalseWord <==> IsFalseWord(text)
    ensures KindOf(text) == UndefinedWord <==> IsUndefinedWord(text)
    ensures KindOf(text) == ValueWord <==> IsValueWord(text)
    ensures KindOf(text) == ContainsWord <==> IsContainsWord(text)
  {
    hide Lower, IsWord, IsOrWord, IsAndWord, IsNotWord, IsTrueWord, IsFalseWord, IsUndefinedWord, IsValueWord;
    hide IsContainsWord;
    OrWordLower(text);
    AndWordLower(text);
    NotWordLower(text);
    TrueWordLower(text);
    FalseWordLower(text);
    UndefinedWordLower(text);
    ValueWordLower(text);
    ContainsWordLower(text);
    KindByLower(text);
  }

  lemma KindByLower(text: string)
    ensures KindOf(text) == OrWord <==> Lower(text) in {"или", "or"}
    ensures KindOf(text) == AndWord <==> Lower(text) in {"и", "and"}
    ensures KindOf(text) == NotWord <==> Lower(text) in {"не", "not"}
    ensures KindOf(text) == TrueWord <==> Lower(text) in {"истина", "true"}
    ensures KindOf(text) == FalseWord <==> Lower(text) in {"ложь", "false"}
    ensures KindOf(text) == UndefinedWord <==> Lower(text) in {"неопределено", "undefined"}
    ensures KindOf(text) == ValueWord <==> Lower(text) in {"значение", "value"}
    ensures KindOf(text) == ContainsWord <==> Lower(text) in {"стрсодержит", "strcontains"}
  {
    hide Lower;
  }

  // ---- the words of directives ----

  predicate IsIfWord(text: string) {
    IsWord(text, "если", "ЕСЛИ") || IsWord(text, "if", "IF")
  }

  predicate IsElsIfWord(text: string) {
    IsWord(text, "иначеесли", "ИНАЧЕЕСЛИ") || IsWord(text, "elsif", "ELSIF")
  }

  predicate IsThenWord(text: string) {
    IsWord(text, "тогда", "ТОГДА") || IsWord(text, "then", "THEN")
  }

  predicate IsElseWord(text: string) {
    IsWord(text, "иначе", "ИНАЧЕ") || IsWord(text, "else", "ELSE")
  }

  predicate IsEndIfWord(text: string) {
    IsWord(text, "конецесли", "КОНЕЦЕСЛИ") || IsWord(text, "endif", "ENDIF")
  }

  lemma IfWordLower(text: string)
    ensures Lower(text) in {"если", "if"} <==> IsIfWord(text)
  {
    hide Lower;
    LowerIsWord(text, "если", "ЕСЛИ");
    LowerIsWord(text, "if", "IF");
  }

  lemma ElsIfWordLower(text: string)
    ensures Lower(text) in {"иначеесли", "elsif"} <==> IsElsIfWord(text)
  {
    hide Lower;
    LowerIsWord(text, "иначеесли", "ИНАЧЕЕСЛИ");
    LowerIsWord(text, "elsif", "ELSIF");
  }

  lemma ThenWordLower(text: string)
    ensures Lower(text) in {"тогда", "then"} <==> IsThenWord(text)
  {
    hide Lower;
    LowerIsWord(text, "тогда", "ТОГДА");
    LowerIsWord(text, "then", "THEN");
  }

  lemma ElseWordLower(text: string)
    ensures Lower(text) in {"иначе", "else"} <==> IsElseWord(text)
  {
    hide Lower;
    LowerIsWord(text, "иначе", "ИНАЧЕ");
    LowerIsWord(text, "else", "ELSE");
  }

  lemma EndIfWordLower(text: string)
    ensures Lower(text) in {"конецесли", "endif"} <==> IsEndIfWord(text)
  {
    hide Lower;
    LowerIsWord(text, "конецесли", "КОНЕЦЕСЛИ");
    LowerIsWord(text, "endif", "ENDIF");
  }

  /** Which name is which directive. */
  lemma DirectiveExactly(text: string)
    ensures DirectiveOf(text) == Some(If) <==> IsIfWord(text)
    ensures DirectiveOf(text) == Some(ElsIf) <==> IsElsIfWord(text)
    ensures DirectiveOf(text) == Some(Then) <==> IsThenWord(text)
    ensures DirectiveOf(text) == Some(Else) <==> IsElseWord(text)
    ensures DirectiveOf(text) == Some(EndIf) <==> IsEndIfWord(text)
  {
    hide Lower, IsIfWord, IsElsIfWord, IsThenWord, IsElseWord, IsEndIfWord;
    IfWordLower(text);
    ElsIfWordLower(text);
    ThenWordLower(text);
    ElseWordLower(text);
    EndIfWordLower(text);
    DirectiveByLower(text);
  }

  lemma DirectiveByLower(text: string)
    ensures DirectiveOf(text) == Some(If) <==> Lower(text) in {"если", "if"}
    ensures DirectiveOf(text) == Some(ElsIf) <==> Lower(text) in {"иначеесли", "elsif"}
    ensures DirectiveOf(text) == Some(Then) <==> Lower(text) in {"тогда", "then"}
    ensures DirectiveOf(text) == Some(Else) <==> Lower(text) in {"иначе", "else"}
    ensures DirectiveOf(text) == Some(EndIf) <==> Lower(text) in {"конецесли", "endif"}
  {
    hide Lower;
  }

  // ---- the names of the current table and right, and of empty references ----

  predicate IsTableName(text: string) {
    || IsWord(text, "имятекущейтаблицы", "ИМЯТЕКУЩЕЙТАБЛИЦЫ")
    || IsWord(text, "currenttablename", "CURRENTTABLENAME")
    || IsWord(text, "текущаятаблица", "ТЕКУЩАЯТАБЛИЦА")
    || IsWord(text, "currenttable", "CURRENTTABLE")
  }

  predicate IsRightName(text: string) {
    || IsWord(text, "имятекущегоправадоступа", "ИМЯТЕКУЩЕГОПРАВАДОСТУПА")
    || IsWord(text, "currentaccessrightname", "CURRENTACCESSRIGHTNAME")
  }

  predicate IsEmptyReference(text: string) {
    IsWord(text, "пустаяссылка", "ПУСТАЯССЫЛКА") || IsWord(text, "emptyref", "EMPTYREF")
  }

  lemma NamePairs0()
    ensures Pairs("имятекущейтаблицы", "ИМЯТЕКУЩЕЙТАБЛИЦЫ")
  {
  }

  lemma NamePairs1()
    ensures Pairs("currenttablename", "CURRENTTABLENAME")
  {
  }

  lemma NamePairs2()
    ensures Pairs("текущаятаблица", "ТЕКУЩАЯТАБЛИЦА")
  {
  }

  lemma NamePairs3()
    ensures Pairs("currenttable", "CURRENTTABLE")
  {
  }

  lemma NamePairs4()
    ensures Pairs("имятекущегоправадоступа", "ИМЯТЕКУЩЕГОПРАВАДОСТУПА")
  {
  }

  lemma NamePairs5()
    ensures Pairs("currentaccessrightname", "CURRENTACCESSRIGHTNAME")
  {
  }

  lemma LongNamesPair()
    ensures Pairs("имятекущейтаблицы", "ИМЯТЕКУЩЕЙТАБЛИЦЫ")
    ensures Pairs("currenttablename", "CURRENTTABLENAME")
    ensures Pairs("текущаятаблица", "ТЕКУЩАЯТАБЛИЦА")
    ensures Pairs("currenttable", "CURRENTTABLE")
    ensures Pairs("имятекущегоправадоступа", "ИМЯТЕКУЩЕГОПРАВАДОСТУПА")
    ensures Pairs("currentaccessrightname", "CURRENTACCESSRIGHTNAME")
  {
    hide Pairs;
    NamePairs0();
    NamePairs1();
    NamePairs2();
    NamePairs3();
    NamePairs4();
    NamePairs5();
  }

  lemma TableNameLower(text: string)
    ensures Lower(text) in {"имятекущейтаблицы", "currenttablename", "текущаятаблица", "currenttable"}
       <==> IsTableName(text)
  {
    hide Lower, IsWord, Pairs;
    LongNamesPair();
    LowerIsWord(text, "имятекущейтаблицы", "ИМЯТЕКУЩЕЙТАБЛИЦЫ");
    LowerIsWord(text, "currenttablename", "CURRENTTABLENAME");
    LowerIsWord(text, "текущаятаблица", "ТЕКУЩАЯТАБЛИЦА");
    LowerIsWord(text, "currenttable", "CURRENTTABLE");
  }

  lemma RightNameLower(text: string)
    ensures Lower(text) in {"имятекущегоправадоступа", "currentaccessrightname"} <==> IsRightName(text)
  {
    hide Lower, IsWord, Pairs;
    LongNamesPair();
    LowerIsWord(text, "имятекущегоправадоступа", "ИМЯТЕКУЩЕГОПРАВАДОСТУПА");
    LowerIsWord(text, "currentaccessrightname", "CURRENTACCESSRIGHTNAME");
  }

  lemma EmptyReferenceLower(text: string)
    ensures Lower(text) in {"пустаяссылка", "emptyref"} <==> IsEmptyReference(text)
  {
    hide Lower;
    LowerIsWord(text, "пустаяссылка", "ПУСТАЯССЫЛКА");
    LowerIsWord(text, "emptyref", "EMPTYREF");
  }

  /** Which name after a hash stands for the table, and which for the right; no other name stands for anything. */
  lemma DirectiveNameExactly(text: string)
    ensures DirectiveName(text) == Ok(CurrentTable) <==> IsTableName(text)
    ensures DirectiveName(text) == Ok(CurrentRight) <==> IsRightName(text)
    ensures DirectiveName(text).Ok? ==> DirectiveName(text).value in {CurrentTable, CurrentRight}
  {
    hide Lower, IsTableName, IsRightName;
    TableNameLower(text);
    RightNameLower(text);
    NamesDiffer(Lower(text));
  }

  lemma NamesDiffer(name: string)
    ensures name in {"имятекущегоправадоступа", "currentaccessrightname"} ==>
              name !in {"имятекущейтаблицы", "currenttablename", "текущаятаблица", "currenttable"}
  {
  }

  // ---- where a name ends ----

  /** The name after a hash runs up to the first character that the table does not count as a letter or digit. */
  predicate NameStops(text: string, o: nat, e: nat, alphanumeric: Table)
    requires o <= |text|
  {
    && o <= e <= |text| && (forall i :: o <= i < e ==> alphanumeric(text[i]))
    && (e < |text| ==> !alphanumeric(text[e]))
  }

  lemma {:induction false} NameEndExactly(text: string, o: nat, e: nat, alphanumeric: Table)
    requires o <= |text|
    ensures NameEnd(text, o, alphanumeric) == e <==> NameStops(text, o, e, alphanumeric)
    decreases |text| - o
  {
    if o < |text| && alphanumeric(text[o]) {
      NameEndExactly(text, o + 1, e, alphanumeric);
    }
  }

  predicate IsDirectiveWord(text: string, d: Directive) {
    match d
    case If => IsIfWord(text)
    case ElsIf => IsElsIfWord(text)
    case Then => IsThenWord(text)
    case Else => IsElseWord(text)
    case EndIf => IsEndIfWord(text)
  }

  lemma DirectiveWordExactly(text: string, d: Directive)
    ensures DirectiveOf(text) == Some(d) <==> IsDirectiveWord(text, d)
  {
    hide DirectiveOf, IsIfWord, IsElsIfWord, IsThenWord, IsElseWord, IsEndIfWord;
    DirectiveExactly(text);
  }

  /** A directive stands at a hash that is not half of a pair, before its whole word. */
  predicate MarkStands(text: string, o: nat, h: nat, e: nat, d: Directive, alphanumeric: Table)
    requires o <= h < |text|
  {
    && text[h] == '#' && (h + 1 < |text| ==> text[h + 1] != '#') && HashesBefore(text, o, h) % 2 == 0
    && NameStops(text, h + 1, e, alphanumeric) && IsDirectiveWord(text[h + 1..e], d)
  }

  lemma OpensExactly(text: string, o: nat, h: nat, e: nat, d: Directive, alphanumeric: Table)
    requires o <= h < |text|
    ensures MarkStands(text, o, h, e, d, alphanumeric) <==>
            && Opens(text, o, h, alphanumeric) && e == NameEnd(text, h + 1, alphanumeric)
            && DirectiveOf(NameAfter(text, h, alphanumeric)) == Some(d)
  {
    hide DirectiveOf, IsDirectiveWord, NameEnd, HashesBefore, NameStops;
    NameEndExactly(text, h + 1, e, alphanumeric);
    DirectiveWordExactly(NameAfter(text, h, alphanumeric), d);
  }

  /** The first directive from a place on. */
  predicate FirstMark(text: string, o: nat, m: Found, alphanumeric: Table)
    requires o <= |text|
  {
    && o <= m.at < |text| && MarkStands(text, o, m.at, m.end, m.directive, alphanumeric)
    && forall h, e, d :: o <= h < m.at && h < e <= |text| ==> !MarkStands(text, o, h, e, d, alphanumeric)
  }

  /** The scan finds a directive exactly when it is the first that stands in the text. */
  lemma MarkExactly(text: string, o: nat, m: Found, alphanumeric: Table)
    requires o <= |text|
    ensures NextMark(text, o, alphanumeric) == Some(m) <==> FirstMark(text, o, m, alphanumeric)
  {
    hide NextMark, Opens, MarkStands, NameEnd, NameAfter, DirectiveOf;
    NextMarkIsFirst(text, o, alphanumeric);
    if o <= m.at < |text| {
      OpensExactly(text, o, m.at, m.end, m.directive, alphanumeric);
    }
    forall h, e, d | o <= h < |text| && MarkStands(text, o, h, e, d, alphanumeric)
      ensures Opens(text, o, h, alphanumeric)
    {
      OpensExactly(text, o, h, e, d, alphanumeric);
    }
    if NextMark(text, o, alphanumeric).Some? {
      var first := NextMark(text, o, alphanumeric).value;
      OpensExactly(text, o, first.at, first.end, first.directive, alphanumeric);
    }
  }
}
