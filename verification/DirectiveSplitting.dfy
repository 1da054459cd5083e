/** Splitting a restriction text at its directives. */
module DirectiveSplitting {
  import opened Outcomes
  import opened DirectiveTokens
  import opened Directives
  import DirectiveRuns

  type Table = char -> bool

  /** A directive by its name, in either language and any case. */
  function DirectiveOf(name: string): (d: Option<Directive>)
  {
    var n := Lower(name);
    if n == "если" || n == "if" then Some(If)
    else if n == "иначеесли" || n == "elsif" then Some(ElsIf)
    else if n == "тогда" || n == "then" then Some(Then)
    else if n == "иначе" || n == "else" then Some(Else)
    else if n == "конецесли" || n == "endif" then Some(EndIf)
    else None
  }

  function NameEnd(text: string, o: nat, alphanumeric: Table): (e: nat)
    requires o <= |text|
    ensures o <= e <= |text|
    decreases |text| - o
  {
    if o < |text| && alphanumeric(text[o]) then NameEnd(text, o + 1, alphanumeric) else o
  }

  function NameAfter(text: string, h: nat, alphanumeric: Table): string
    requires h < |text|
  {
    text[h + 1..NameEnd(text, h + 1, alphanumeric)]
  }

  datatype Found = Found(at: nat, directive: Directive, end: nat)

  /** The next directive of a scan; a doubled hash opens none. */
  function NextMark(text: string, o: nat, alphanumeric: Table): (r: Option<Found>)
    requires o <= |text|
    ensures r.Some? ==> o <= r.value.at < r.value.end <= |text|
    decreases |text| - o
  {
    if o == |text| then None
    else if text[o] != '#' then NextMark(text, o + 1, alphanumeric)
    else if o + 1 < |text| && text[o + 1] == '#' then NextMark(text, o + 2, alphanumeric)
    else
      match DirectiveOf(NameAfter(text, o, alphanumeric))
      case Some(d) => Some(Found(o, d, NameEnd(text, o + 1, alphanumeric)))
      case None => NextMark(text, o + 1, alphanumeric)
  }

  function TextPiece(text: string, start: nat, end: nat): (p: seq<Piece>)
    requires start <= end <= |text|
  {
    if start < end then [Text(start, text[start..end])] else []
  }

  /** The pieces from `start` on, when the scan has come to `o`. */
  function SplitFrom(text: string, start: nat, o: nat, alphanumeric: Table): (ps: seq<Piece>)
    requires start <= o <= |text|
    decreases |text| - o
  {
    match NextMark(text, o, alphanumeric)
    case None => TextPiece(text, start, |text|)
    case Some(m) =>
      TextPiece(text, start, m.at) + [Mark(m.at, m.directive)] + SplitFrom(text, m.end, m.end, alphanumeric)
  }

  function Split(text: string, alphanumeric: Table): (ps: seq<Piece>) {
    SplitFrom(text, 0, 0, alphanumeric)
  }

  // ---- the first directive ----

  /** How many hashes stand right before a place, counted back to `o`. */
  function HashesBefore(text: string, o: nat, i: nat): nat
    requires o <= i <= |text|
    decreases i - o
  {
    if o < i && text[i - 1] == '#' then HashesBefore(text, o, i - 1) + 1 else 0
  }

  /** A directive opens at a hash that is not half of a pair and is followed by a directive's name. */
  predicate Opens(text: string, o: nat, i: nat, alphanumeric: Table)
    requires o <= i < |text|
  {
    && text[i] == '#' && (i + 1 < |text| ==> text[i + 1] != '#')
    && HashesBefore(text, o, i) % 2 == 0
    && DirectiveOf(NameAfter(text, i, alphanumeric)).Some?
  }

  lemma {:induction false} HashesFromNext(text: string, o: nat, i: nat)
    requires o + 1 <= i <= |text| && text[o] != '#'
    ensures HashesBefore(text, o, i) == HashesBefore(text, o + 1, i)
    decreases i
  {
    if o + 1 < i && text[i - 1] == '#' {
      HashesFromNext(text, o, i - 1);
    }
  }

  lemma {:induction false} HashesFromPair(text: string, o: nat, i: nat)
    requires o + 2 <= i <= |text| && text[o] == '#' && text[o + 1] == '#'
    ensures HashesBefore(text, o, i) % 2 == HashesBefore(text, o + 2, i) % 2
    decreases i
  {
    if o + 2 == i {
      assert HashesBefore(text, o, o + 1) == 1;
    } else if text[i - 1] == '#' {
      HashesFromPair(text, o, i - 1);
    }
  }

  lemma {:induction false} HashesFromSingle(text: string, o: nat, i: nat)
    requires o + 2 <= i <= |text| && text[o + 1] != '#'
    ensures HashesBefore(text, o, i) == HashesBefore(text, o + 1, i)
    decreases i
  {
    if o + 2 < i && text[i - 1] == '#' {
      HashesFromSingle(text, o, i - 1);
    }
  }

  /** Moving the scan does not change which of the later hashes open a directive. */
  lemma OpensFromStep(text: string, o: nat, next: nat, i: nat, alphanumeric: Table)
    requires o < next <= i < |text|
    requires next == if text[o] == '#' && o + 1 < |text| && text[o + 1] == '#' then o + 2 else o + 1
    ensures Opens(text, o, i, alphanumeric) == Opens(text, next, i, alphanumeric)
  {
    hide DirectiveOf, NameAfter;
    if text[o] != '#' {
      HashesFromNext(text, o, i);
    } else if next == o + 2 {
      HashesFromPair(text, o, i);
    } else if i > o + 1 {
      HashesFromSingle(text, o, i);
    }
  }

  /** The scan finds the first directive, and its name is the longest run of letters and digits. */
  lemma {:induction false} NextMarkIsFirst(text: string, o: nat, alphanumeric: Table)
    requires o <= |text|
    ensures match NextMark(text, o, alphanumeric)
            case None => forall i :: o <= i < |text| ==> !Opens(text, o, i, alphanumeric)
            case Some(m) =>
              && Opens(text, o, m.at, alphanumeric) && (forall i :: o <= i < m.at ==> !Opens(text, o, i, alphanumeric))
              && DirectiveOf(NameAfter(text, m.at, alphanumeric)) == Some(m.directive)
              && m.end == NameEnd(text, m.at + 1, alphanumeric)
    decreases |text| - o
  {
    hide DirectiveOf, NameAfter, NameEnd, HashesBefore;
    if o < |text| {
      NotAtOnce(text, o, alphanumeric);
      if !Opens(text, o, o, alphanumeric) {
        var next := if text[o] == '#' && o + 1 < |text| && text[o + 1] == '#' then o + 2 else o + 1;
        NextMarkIsFirst(text, next, alphanumeric);
        forall i | next <= i < |text|
          ensures Opens(text, o, i, alphanumeric) == Opens(text, next, i, alphanumeric)
        {
          OpensFromStep(text, o, next, i, alphanumeric);
        }
      }
    }
  }

  lemma NotAtOnce(text: string, o: nat, alphanumeric: Table)
    requires o < |text|
    ensures HashesBefore(text, o, o) == 0
    ensures o + 1 < |text| && text[o] == '#' ==> HashesBefore(text, o, o + 1) == 1
  {
  }

  // ---- the pieces tile the text ----

  /** The pieces cover the text from `o` on, each from its own offset to the next one. */
  ghost predicate Tiles(ps: seq<Piece>, text: string, o: nat, alphanumeric: Table)
    requires o <= |text|
    decreases |ps|
  {
    if ps == [] then o == |text|
    else match ps[0]
         case Text(at, piece) =>
           && at == o && piece != [] && o + |piece| <= |text| && piece == text[o..o + |piece|]
           && (forall i :: o <= i < o + |piece| ==> !Opens(text, o, i, alphanumeric))
           && (|ps| > 1 ==> ps[1].Mark?)
           && Tiles(ps[1..], text, o + |piece|, alphanumeric)
         case Mark(at, directive) =>
           && at == o < |text| && text[o] == '#' && DirectiveOf(NameAfter(text, o, alphanumeric)) == Some(directive)
           && Tiles(ps[1..], text, NameEnd(text, o + 1, alphanumeric), alphanumeric)
  }

  lemma {:induction false} SplitTiles(text: string, o: nat, alphanumeric: Table)
    requires o <= |text|
    ensures Tiles(SplitFrom(text, o, o, alphanumeric), text, o, alphanumeric)
    decreases |text| - o
  {
    hide DirectiveOf, NameAfter, NameEnd, Opens, Tiles, NextMark, TextPiece;
    NextMarkIsFirst(text, o, alphanumeric);
    match NextMark(text, o, alphanumeric)
    case None =>
      NothingTiles(text, alphanumeric);
      TextTiles(text, o, |text|, [], alphanumeric);
      assert TextPiece(text, o, |text|) + [] == TextPiece(text, o, |text|);
    case Some(m) =>
      var rest := SplitFrom(text, m.end, m.end, alphanumeric);
      SplitTiles(text, m.end, alphanumeric);
      MarkTiles(text, o, m, rest, alphanumeric);
      TextTiles(text, o, m.at, [Mark(m.at, m.directive)] + rest, alphanumeric);
      assert TextPiece(text, o, m.at) + ([Mark(m.at, m.directive)] + rest)
          == TextPiece(text, o, m.at) + [Mark(m.at, m.directive)] + rest;
  }

  lemma NothingTiles(text: string, alphanumeric: Table)
    ensures Tiles([], text, |text|, alphanumeric)
  {
  }

  lemma TextTiles(text: string, o: nat, end: nat, rest: seq<Piece>, alphanumeric: Table)
    requires o <= end <= |text| && (forall i :: o <= i < end ==> !Opens(text, o, i, alphanumeric))
    requires Tiles(rest, text, end, alphanumeric) && (rest == [] || rest[0].Mark?)
    ensures Tiles(TextPiece(text, o, end) + rest, text, o, alphanumeric)
  {
    hide DirectiveOf, NameAfter, NameEnd, Opens;
    if o < end {
      assert ([Text(o, text[o..end])] + rest)[1..] == rest;
    } else {
      assert TextPiece(text, o, end) + rest == rest;
    }
  }

  lemma MarkTiles(text: string, o: nat, m: Found, rest: seq<Piece>, alphanumeric: Table)
    requires m.at < m.end <= |text| && o <= m.at && Opens(text, o, m.at, alphanumeric)
    requires DirectiveOf(NameAfter(text, m.at, alphanumeric)) == Some(m.directive)
    requires m.end == NameEnd(text, m.at + 1, alphanumeric)
    requires Tiles(rest, text, m.end, alphanumeric)
    ensures Tiles([Mark(m.at, m.directive)] + rest, text, m.at, alphanumeric)
  {
    hide DirectiveOf, NameAfter, NameEnd, HashesBefore;
    assert ([Mark(m.at, m.directive)] + rest)[1..] == rest;
  }

  // ---- the loop ----

  method FindHash(text: string, start: nat) returns (h: nat)
    requires start <= |text|
    ensures start <= h <= |text| && (h < |text| ==> text[h] == '#')
    ensures forall i :: start <= i < h ==> text[i] != '#'
  {
    h := start;
    while h < |text| && text[h] != '#'
      invariant start <= h <= |text| && forall i :: start <= i < h ==> text[i] != '#'
    {
      h := h + 1;
    }
  }

  lemma {:induction false} NextMarkFromHash(text: string, o: nat, h: nat, alphanumeric: Table)
    requires o <= h <= |text| && (forall i :: o <= i < h ==> text[i] != '#')
    ensures NextMark(text, o, alphanumeric) == NextMark(text, h, alphanumeric)
    decreases h - o
  {
    if o < h {
      NextMarkFromHash(text, o + 1, h, alphanumeric);
    }
  }

  /** What the scan does at the next hash. */
  lemma SplitSteps(text: string, start: nat, o: nat, h: nat, alphanumeric: Table)
    requires start <= o <= h <= |text| && (forall i :: o <= i < h ==> text[i] != '#') && (h < |text| ==> text[h] == '#')
    ensures var goal := SplitFrom(text, start, o, alphanumeric);
            if h == |text| then goal == TextPiece(text, start, |text|)
            else if h + 1 < |text| && text[h + 1] == '#' then goal == SplitFrom(text, start, h + 2, alphanumeric)
            else
              var end := NameEnd(text, h + 1, alphanumeric);
              match DirectiveOf(text[h + 1..end])
              case None => goal == SplitFrom(text, start, h + 1, alphanumeric)
              case Some(d) => goal == TextPiece(text, start, h) + [Mark(h, d)] + SplitFrom(text, end, end, alphanumeric)
  {
    hide NameEnd, DirectiveOf, TextPiece;
    NextMarkFromHash(text, o, h, alphanumeric);
  }

  method FindNameEnd(text: string, start: nat, alphanumeric: Table) returns (e: nat)
    requires start <= |text|
    ensures e == NameEnd(text, start, alphanumeric)
  {
    e := start;
    while e < |text| && alphanumeric(text[e])
      invariant start <= e <= |text| && NameEnd(text, e, alphanumeric) == NameEnd(text, start, alphanumeric)
    {
      e := e + 1;
    }
  }

  lemma RegroupFour(a: seq<Piece>, b: seq<Piece>, c: seq<Piece>, d: seq<Piece>)
    ensures a + (b + c + d) == a + b + c + d && a + [] == a
  {
  }

  method SplitDirectives(text: string, alphanumeric: Table) returns (pieces: seq<Piece>)
    ensures pieces == Split(text, alphanumeric)
    ensures Tiles(pieces, text, 0, alphanumeric)
  {
    hide Tiles, NameEnd, DirectiveOf, SplitFrom;
    SplitTiles(text, 0, alphanumeric);
    pieces := [];
    var start, rest := 0, 0;
    while true
      invariant start <= rest <= |text|
      invariant pieces + SplitFrom(text, start, rest, alphanumeric) == Split(text, alphanumeric)
      decreases |text| - rest
    {
      var hash := FindHash(text, rest);
      SplitSteps(text, start, rest, hash, alphanumeric);
      if hash == |text| {
        break;
      }
      if hash + 1 < |text| && text[hash + 1] == '#' {
        rest := hash + 2;
        continue;
      }
      var end := FindNameEnd(text, hash + 1, alphanumeric);
      var directive := DirectiveOf(text[hash + 1..end]);
      if directive.Some? {
        RegroupFour(pieces, TextPiece(text, start, hash), [Mark(hash, directive.value)],
                    SplitFrom(text, end, end, alphanumeric));
        if start < hash {
          pieces := pieces + [Text(start, text[start..hash])];
        }
        pieces := pieces + [Mark(hash, directive.value)];
        rest := end;
        start := end;
      } else {
        rest := hash + 1;
      }
    }
    assert text[start..] == text[start..|text|] && pieces + [] == pieces;
    if start < |text| {
      pieces := pieces + [Text(start, text[start..])];
    }
  }

  /** The text whose directives hold. */
  method EvaluateText(text: string, scope: Scope) returns (r: Outcome<string>)
    ensures r == EvaluateDirectives(Split(text, scope.alphanumeric), scope)
  {
    var pieces := SplitDirectives(text, scope.alphanumeric);
    r := DirectiveRuns.Evaluate(pieces, scope);
  }
}
