/**
 * What a condition means, operator by operator: when it is true, when it is false, what value
 * it has and which error it ends with, without the functions that compute them.
 */
module ExpressionMeaning {
  import opened Bits
  import opened DirectiveTokens
  import opened Expressions
  import opened Outcomes
  import opened Wording

  /** The operand is that truth value. */
  predicate Is(v: Outcome<Val>, b: bool) {
    v == Ok(BoolVal(b))
  }

  predicate NoBoolean(v: Outcome<Val>) {
    v.Ok? && !v.value.BoolVal?
  }

  // ---- truth ----

  /** One side is enough; the right one is evaluated all the same, but its kind matters only after a false one. */
  lemma OrMeans(l: Expr, w: string, r: Expr, scope: Scope)
    requires Spelled(Or(l, w, r))
    ensures var a, b, v := Eval(l, scope), Eval(r, scope), Eval(Or(l, w, r), scope);
            && (Is(v, true) <==> (Is(a, true) && b.Ok?) || (Is(a, false) && Is(b, true)))
            && (Is(v, false) <==> Is(a, false) && Is(b, false))
            && (v.Ok? ==> v.value.BoolVal?)
            && (a.Err? ==> v == Err(a.error)) && (a.Ok? && b.Err? ==> v == Err(b.error))
            && (b.Ok? && (NoBoolean(a) || (Is(a, false) && NoBoolean(b))) ==> v == Err(Syntax(NotBoolean(OrOperator))))
  {
  }

  /** Both sides are needed. */
  lemma AndMeans(l: Expr, w: string, r: Expr, scope: Scope)
    requires Spelled(And(l, w, r))
    ensures var a, b, v := Eval(l, scope), Eval(r, scope), Eval(And(l, w, r), scope);
            && (Is(v, true) <==> Is(a, true) && Is(b, true))
            && (Is(v, false) <==> (Is(a, false) && b.Ok?) || (Is(a, true) && Is(b, false)))
            && (v.Ok? ==> v.value.BoolVal?)
            && (a.Err? ==> v == Err(a.error)) && (a.Ok? && b.Err? ==> v == Err(b.error))
            && (b.Ok? && (NoBoolean(a) || (Is(a, true) && NoBoolean(b))) ==> v == Err(Syntax(NotBoolean(AndOperator))))
  {
  }

  lemma NotMeans(w: string, x: Expr, scope: Scope)
    requires Spelled(Not(w, x))
    ensures var a, v := Eval(x, scope), Eval(Not(w, x), scope);
            && (Is(v, true) <==> Is(a, false)) && (Is(v, false) <==> Is(a, true))
            && (v.Ok? ==> v.value.BoolVal?)
            && (a.Err? ==> v == Err(a.error)) && (NoBoolean(a) ==> v == Err(Syntax(NotBoolean(NotOperator))))
  {
  }

  // ---- comparison ----

  predicate Refers(v: Val) {
    v.Reference? || v.EmptyReference?
  }

  /** Texts, truth values and references are compared among themselves. */
  predicate OneKind(a: Val, b: Val) {
    (a.StrVal? && b.StrVal?) || (a.BoolVal? && b.BoolVal?) || (Refers(a) && Refers(b))
  }

  /** The same text, the same truth value, both empty, or references with one lower case. */
  predicate Equals(a: Val, b: Val, scope: Scope) {
    a == b || (a.Reference? && b.Reference? && scope.lower(a.spelling) == scope.lower(b.spelling))
  }

  lemma CompareMeans(l: Expr, equal: bool, r: Expr, scope: Scope)
    requires Spelled(Compare(l, equal, r))
    ensures var a, b, v := Eval(l, scope), Eval(r, scope), Eval(Compare(l, equal, r), scope);
            && (a.Err? ==> v == Err(a.error)) && (a.Ok? && b.Err? ==> v == Err(b.error))
            && (a.Ok? && b.Ok? && !OneKind(a.value, b.value) ==> v == Err(Syntax(DifferentKinds)))
            && (a.Ok? && b.Ok? && OneKind(a.value, b.value) ==>
                  v == Ok(BoolVal(Equals(a.value, b.value, scope) <==> equal)))
  {
  }

  // ---- texts ----

  lemma ConcatMeans(l: Expr, r: Expr, scope: Scope)
    requires Spelled(Concat(l, r))
    ensures var a, b, v := Eval(l, scope), Eval(r, scope), Eval(Concat(l, r), scope);
            && (forall t, u :: a == Ok(StrVal(t)) && b == Ok(StrVal(u)) ==> v == Ok(StrVal(t + u)))
            && (a.Err? ==> v == Err(a.error)) && (a.Ok? && b.Err? ==> v == Err(b.error))
            && (a.Ok? && b.Ok? && !(a.value.StrVal? && b.value.StrVal?) ==> v == Err(Syntax(NotString)))
  {
  }

  /** The text is some text, then the other, then some text. */
  predicate Holds(text: string, part: string) {
    exists before: nat, end: nat :: before <= end <= |text| && text[before..end] == part
  }

  lemma OccursExactly(part: string, text: string)
    ensures Occurs(part, text) <==> Holds(text, part)
  {
    if Occurs(part, text) {
      var i :| 0 <= i <= |text| && part <= text[i..];
      assert text[i..i + |part|] == part;
    }
    if Holds(text, part) {
      var before: nat, end: nat :| before <= end <= |text| && text[before..end] == part;
      assert text[before..][..end - before] == part;
      assert part <= text[before..];
    }
  }

  lemma ContainsMeans(w: string, h: Expr, n: Expr, scope: Scope)
    requires Spelled(Contains(w, h, n))
    ensures var a, b, v := Eval(h, scope), Eval(n, scope), Eval(Contains(w, h, n), scope);
            && (forall t, u :: a == Ok(StrVal(t)) && b == Ok(StrVal(u)) ==> v == Ok(BoolVal(Holds(t, u))))
            && (a.Err? ==> v == Err(a.error)) && (a.Ok? && b.Err? ==> v == Err(b.error))
            && (a.Ok? && b.Ok? && !(a.value.StrVal? && b.value.StrVal?) ==> v == Err(Syntax(NotString)))
  {
    hide Occurs, Holds, KindOf;
    var a, b := Eval(h, scope), Eval(n, scope);
    if a.Ok? && b.Ok? && a.value.StrVal? && b.value.StrVal? {
      OccursExactly(b.value.text, a.value.text);
    }
  }

  // ---- operands ----

  /** A name of the session: its text, its truth, "undefined" for null, and a reference by its identifier. */
  predicate Stands(value: Option<SessionValue>, name: string, v: Outcome<Val>) {
    match value
    case Some(TextValue(text)) => v == Ok(StrVal(text))
    case Some(FlagValue(flag)) => v == Ok(BoolVal(flag))
    case Some(NullValue) => v == Ok(StrVal("Неопределено"))
    case Some(ReferenceValue(id)) =>
      if forall i :: 0 <= i < |id| ==> id[i] == 0 then v == Ok(EmptyReference)
      else v.Ok? && v.value.Reference? && WritesBytes(v.value.spelling, id)
    case _ => v == Err(MissingParameter(name))
  }

  const HEX_LETTERS := "0123456789abcdef"

  /** Two hexadecimal letters for every byte, the high half first. */
  predicate WritesBytes(text: string, id: seq<Byte>) {
    |text| == 2 * |id| && forall i :: 0 <= i < |id| ==>
      text[2 * i] == HEX_LETTERS[id[i] / 16] && text[2 * i + 1] == HEX_LETTERS[id[i] % 16]
  }

  lemma {:induction false} HexTextWrites(id: seq<Byte>)
    ensures WritesBytes(HexText(id), id)
  {
    if id != [] {
      HexTextWrites(id[1..]);
      var rest, text := HexText(id[1..]), HexText(id);
      forall i | 0 <= i < |id|
        ensures text[2 * i] == HEX_LETTERS[id[i] / 16] && text[2 * i + 1] == HEX_LETTERS[id[i] % 16]
      {
        if i > 0 {
          assert text[2 * i] == rest[2 * (i - 1)] && text[2 * i + 1] == rest[2 * (i - 1) + 1];
          assert id[i] == id[1..][i - 1];
        }
      }
    }
  }

  /** What an operand without parts stands for. */
  lemma LeafMeans(t: Token, scope: Scope)
    requires IsLeaf(t)
    ensures var v := Eval(Leaf(t), scope);
            && (t.Str? ==> v == Ok(StrVal(t.text)))
            && (t.CurrentTable? ==> v == Ok(StrVal(scope.tableName)))
            && (t.CurrentRight? ==> v == Ok(StrVal(scope.right)))
            && (t.Parameter? ==> Stands(scope.session(t.name), t.name, v))
            && (t.Word? && IsTrueWord(t.word) ==> v == Ok(BoolVal(true)))
            && (t.Word? && IsFalseWord(t.word) ==> v == Ok(BoolVal(false)))
            && (t.Word? && IsUndefinedWord(t.word) ==> v == Ok(StrVal("Неопределено")))
            && (t.Word? ==> IsTrueWord(t.word) || IsFalseWord(t.word) || IsUndefinedWord(t.word))
  {
    hide KindOf, IsTrueWord, IsFalseWord, IsUndefinedWord, HexText, WritesBytes;
    if t.Word? {
      KindExactly(t.word);
    }
    if t.Parameter? && scope.session(t.name).Some? && scope.session(t.name).value.ReferenceValue? {
      HexTextWrites(scope.session(t.name).value.id);
    }
  }

  /** The parts of a path with a dot between each two. */
  ghost predicate Dotted(text: string, parts: seq<string>)
    decreases |parts|
  {
    if |parts| == 0 then text == ""
    else if |parts| == 1 then text == parts[0]
    else
      var n := |parts| - 1;
      exists front :: Dotted(front, parts[..n]) && text == front + "." + parts[n]
  }

  lemma {:induction false} JoinSnoc(parts: seq<string>, last: string)
    requires parts != []
    ensures Join(parts + [last]) == Join(parts) + "." + last
    decreases |parts|
  {
    if |parts| == 1 {
      assert (parts + [last])[1..] == [last];
    } else {
      assert (parts + [last])[1..] == parts[1..] + [last];
      JoinSnoc(parts[1..], last);
    }
  }

  lemma {:induction false} JoinIsDotted(parts: seq<string>)
    ensures Dotted(Join(parts), parts)
    decreases |parts|
  {
    if |parts| > 1 {
      var n := |parts| - 1;
      JoinIsDotted(parts[..n]);
      JoinSnoc(parts[..n], parts[n]);
      assert parts == parts[..n] + [parts[n]];
    }
  }

  /** The parts a path is made of: words as they are, strings by their text. */
  predicate Parts(path: seq<Token>, parts: seq<string>) {
    |parts| == |path| && forall i :: 0 <= i < |path| ==> path[i] == Word(parts[i]) || path[i] == Str(parts[i])
  }

  /** A value is the empty reference if its last part says so, and otherwise a reference by its parts with dots. */
  lemma ValueMeans(w: string, path: seq<Token>, closed: bool, parts: seq<string>, scope: Scope)
    requires Spelled(ValueOf(w, path, closed)) && Parts(path, parts)
    ensures var v := Eval(ValueOf(w, path, closed), scope);
            if parts != [] && IsEmptyReference(parts[|parts| - 1]) then v == Ok(EmptyReference)
            else v.Ok? && v.value.Reference? && Dotted(v.value.spelling, parts)
  {
    hide KindOf, IsEmptyReference, Lower, Dotted, Join;
    assert PathTexts(path) == parts;
    if parts != [] {
      EmptyReferenceLower(parts[|parts| - 1]);
    }
    JoinIsDotted(parts);
  }
}
