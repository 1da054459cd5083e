/**
 * Every text of the brace format and what it means: white space between tokens, quoted
 * strings, bare atoms, omitted values and nested lists, without the parser that reads them.
 */
module BraceForms {
  import opened BraceText
  import opened Outcomes
  import opened Slices
  import opened ValueTree
  import opened WhiteSpace

  // ---- white space ----

  /** What may stand between tokens: the white space of Unicode without the vertical tab. */
  const BLANKS := "\t\n\U{000C}\r \U{0085}\U{00A0}\U{1680}\U{2000}\U{2001}\U{2002}\U{2003}\U{2004}\U{2005}"
                  + "\U{2006}\U{2007}\U{2008}\U{2009}\U{200A}\U{2028}\U{2029}\U{202F}\U{205F}\U{3000}"

  const VERTICAL_TAB := '\U{000B}'

  predicate IsBlank(c: char) {
    c in BLANKS
  }

  predicate IsWhite(c: char) {
    c in BLANKS || c == VERTICAL_TAB
  }

  lemma SkippableExactly(c: char)
    ensures Skippable(c) <==> IsBlank(c)
  {
    BlanksAreThese(c);
  }

  lemma SpaceExactly(c: char)
    ensures IsSpace(c) <==> IsWhite(c)
  {
    BlanksAreThese(c);
  }

  lemma BlanksAreThese(c: char)
    ensures var n := c as int;
            IsBlank(c) <==>
              || n in {9, 10, 12, 13, 32, 0x85, 0xA0, 0x1680, 0x2028, 0x2029, 0x202F, 0x205F, 0x3000}
              || 0x2000 <= n <= 0x200A
  {
    var narrow := "\t\n\U{000C}\r \U{0085}\U{00A0}\U{1680}\U{2000}\U{2001}\U{2002}\U{2003}\U{2004}\U{2005}";
    var wide := "\U{2006}\U{2007}\U{2008}\U{2009}\U{200A}\U{2028}\U{2029}\U{202F}\U{205F}\U{3000}";
    assert c in BLANKS <==> c in narrow || c in wide;
  }

  predicate AllBlank(s: string) {
    forall i :: 0 <= i < |s| ==> IsBlank(s[i])
  }

  predicate AllWhite(s: string) {
    forall i :: 0 <= i < |s| ==> IsWhite(s[i])
  }

  // ---- forms ----

  /** A value as it is written. */
  datatype Form =
    | Braces(parts: seq<Part>)
    | Quoted(text: string)
    | Bare(lead: string, text: string, trail: string)

  /** What stands between two commas: nothing, or a value, with white space around it. */
  datatype Part = Omitted(gap: string) | Given(before: string, form: Form, after: string)

  function Spell(f: Form): (s: string)
    decreases f, 2
  {
    match f
    case Braces(parts) => "{" + (SpellParts(parts) + "}")
    case Quoted(text) => "\"" + (DoubleQuotes(text) + "\"")
    case Bare(lead, text, trail) => lead + (text + trail)
  }

  function SpellPart(p: Part): (s: string)
    decreases p, 1
  {
    match p
    case Omitted(gap) => gap
    case Given(before, form, after) => before + (Spell(form) + after)
  }

  function SpellParts(parts: seq<Part>): (s: string)
    decreases parts, 0
  {
    if parts == [] then "" else SpellPart(parts[0]) + SpellRest(parts[1..])
  }

  function SpellRest(parts: seq<Part>): (s: string)
    decreases parts, 1
  {
    if parts == [] then "" else "," + SpellParts(parts)
  }

  /** A list that holds nothing but white space has no values; every other omission is a value. */
  function Meaning(f: Form): (v: Value)
    decreases f, 2
  {
    match f
    case Braces(parts) => List(if |parts| == 1 && parts[0].Omitted? then [] else Meanings(parts))
    case Quoted(text) => Str(text)
    case Bare(_, text, _) => Atom(text)
  }

  function Meanings(parts: seq<Part>): (vs: seq<Value>)
    ensures |vs| == |parts|
    decreases parts, 0
  {
    if parts == [] then [] else [PartMeaning(parts[0])] + Meanings(parts[1..])
  }

  function PartMeaning(p: Part): (v: Value)
    decreases p, 1
  {
    match p
    case Omitted(_) => Null
    case Given(_, form, _) => Meaning(form)
  }

  /** No comma, no brace. */
  predicate IsInside(c: char) {
    c != ',' && c != '{' && c != '}'
  }

  /**
   * At most 512 lists stand around one another. A bare atom is trimmed, starts with neither a
   * quote nor white space that is skipped, and runs up to the comma or brace behind it.
   */
  predicate Proper(f: Form, depth: nat)
    decreases f, 2
  {
    match f
    case Braces(parts) => depth < 512 && parts != [] && ProperParts(parts, depth + 1)
    case Quoted(_) => true
    case Bare(lead, text, trail) => ProperBare(lead, text, trail)
  }

  predicate ProperBare(lead: string, text: string, trail: string) {
    && AllWhite(lead) && AllWhite(trail) && (forall i :: 0 <= i < |text| ==> IsInside(text[i]))
    && text != "" && !IsWhite(text[0]) && !IsWhite(text[|text| - 1])
    && (if lead == "" then text[0] != '"' else lead[0] == VERTICAL_TAB)
  }

  predicate ProperParts(parts: seq<Part>, depth: nat)
    decreases parts, 0
  {
    parts != [] ==> ProperPart(parts[0], depth) && ProperParts(parts[1..], depth)
  }

  predicate ProperPart(p: Part, depth: nat)
    decreases p, 1
  {
    match p
    case Omitted(gap) => AllBlank(gap)
    case Given(before, form, after) =>
      AllBlank(before) && Proper(form, depth) && AllBlank(after) && (form.Bare? ==> after == "")
  }

  // ---- gaps ----

  lemma {:induction false} GapSkipped(t: string, o: nat, gap: string)
    requires AllBlank(gap) && StandsAt(t, o, gap) && (o + |gap| < |t| ==> !IsBlank(t[o + |gap|]))
    ensures SkipSpaces(t, o) == o + |gap|
    decreases |gap|
  {
    hide IsBlank, Skippable;
    if o < |t| {
      SkippableExactly(t[o]);
    }
    if gap != "" {
      StandsAtHead(t, o, gap);
      assert gap == [gap[0]] + gap[1..];
      StandsAtConcat(t, o, [gap[0]], gap[1..]);
      GapSkipped(t, o + 1, gap[1..]);
    }
  }

  lemma {:induction false} SkippedIsGap(t: string, o: nat)
    requires o <= |t|
    ensures AllBlank(t[o..SkipSpaces(t, o)])
    decreases |t| - o
  {
    hide IsBlank, Skippable;
    if o < |t| && Skippable(t[o]) {
      SkippableExactly(t[o]);
      SkippedIsGap(t, o + 1);
      assert t[o..SkipSpaces(t, o)] == [t[o]] + t[o + 1..SkipSpaces(t, o)];
    }
  }

  // ---- atoms ----

  lemma {:induction false} LeadTrimmed(lead: string, s: string)
    requires AllWhite(lead) && s != "" && !IsWhite(s[0])
    ensures TrimStart(lead + s) == s
    decreases |lead|
  {
    hide IsWhite, IsSpace;
    if lead == "" {
      assert lead + s == s;
      SpaceExactly(s[0]);
    } else {
      SpaceExactly(lead[0]);
      assert (lead + s)[1..] == lead[1..] + s;
      LeadTrimmed(lead[1..], s);
    }
  }

  lemma {:induction false} TrailTrimmed(s: string, trail: string)
    requires AllWhite(trail) && s != "" && !IsWhite(s[|s| - 1])
    ensures TrimEnd(s + trail) == s
    decreases |trail|
  {
    hide IsWhite, IsSpace;
    if trail == "" {
      assert s + trail == s;
      SpaceExactly(s[|s| - 1]);
    } else {
      var n := |trail| - 1;
      SpaceExactly(trail[n]);
      assert (s + trail)[..|s| + n] == s + trail[..n];
      TrailTrimmed(s, trail[..n]);
    }
  }

  lemma {:induction false} StartIsWhite(s: string)
    ensures |TrimStart(s)| <= |s| && AllWhite(s[..|s| - |TrimStart(s)|]) && s[|s| - |TrimStart(s)|..] == TrimStart(s)
    decreases |s|
  {
    hide IsWhite, IsSpace;
    if s != "" && IsSpace(s[0]) {
      SpaceExactly(s[0]);
      StartIsWhite(s[1..]);
      var n := |s| - |TrimStart(s)|;
      assert s[..n] == [s[0]] + s[1..][..n - 1];
      assert s[n..] == s[1..][n - 1..];
    }
  }

  lemma {:induction false} EndIsWhite(s: string)
    ensures AllWhite(s[|TrimEnd(s)|..])
    decreases |s|
  {
    hide IsWhite, IsSpace;
    if s != "" && IsSpace(s[|s| - 1]) {
      var n := |s| - 1;
      SpaceExactly(s[n]);
      EndIsWhite(s[..n]);
      var k := |TrimEnd(s)|;
      assert s[k..] == s[..n][k..] + [s[n]];
    }
  }

  lemma BareTrimmed(lead: string, text: string, trail: string)
    requires ProperBare(lead, text, trail)
    ensures Trim(lead + (text + trail)) == text
  {
    hide IsWhite, IsSpace, TrimStart, TrimEnd;
    LeadTrimmed(lead, text + trail);
    TrailTrimmed(text, trail);
  }

  lemma BareRead(t: string, o: nat, depth: nat, lead: string, text: string, trail: string)
    requires ProperBare(lead, text, trail) && StandsAt(t, o, lead + (text + trail))
    requires var p := o + |lead + (text + trail)|; p == |t| || !IsInside(t[p])
    ensures ParseValue(t, o, depth) == Ok((Atom(text), o + |lead + (text + trail)|))
  {
    hide IsBlank, Trim, ProperBare;
    var w := lead + (text + trail);
    forall i | 0 <= i < |w|
      ensures IsInside(w[i])
    {
      BareInside(lead, text, trail, i);
    }
    forall i | o <= i < o + |w|
      ensures !IsDelimiter(t[i])
    {
      assert t[i] == t[o..o + |w|][i - o] == w[i - o];
    }
    AtomEndAt(t, o, o + |w|);
    BareTrimmed(lead, text, trail);
    BareFirst(lead, text, trail);
    StandsAtHead(t, o, w);
    hide AtomEnd;
    assert text != "" by {
      TextNotEmpty(lead, text, trail);
    }
  }

  lemma TextNotEmpty(lead: string, text: string, trail: string)
    requires ProperBare(lead, text, trail)
    ensures text != ""
  {
  }

  lemma BareInside(lead: string, text: string, trail: string, i: nat)
    requires ProperBare(lead, text, trail) && i < |lead + (text + trail)|
    ensures IsInside((lead + (text + trail))[i])
  {
    var w := lead + (text + trail);
    BlanksAreThese(w[i]);
    if i < |lead| {
      assert w[i] == lead[i];
    } else if i < |lead| + |text| {
      assert w[i] == text[i - |lead|];
    } else {
      assert w[i] == trail[i - |lead| - |text|];
    }
  }

  lemma BareFirst(lead: string, text: string, trail: string)
    requires ProperBare(lead, text, trail)
    ensures var w := lead + (text + trail);
            w != "" && w[0] != '"' && IsInside(w[0]) && !IsBlank(w[0])
  {
    var w := lead + (text + trail);
    if lead == "" {
      assert w[0] == text[0];
    } else {
      assert w[0] == lead[0] == VERTICAL_TAB;
      BlanksAreThese(VERTICAL_TAB);
    }
  }

  /** What is read as an atom is a bare form. */
  lemma AtomIsBare(t: string, o: nat) returns (f: Form)
    requires o < |t| && !IsBlank(t[o]) && IsInside(t[o]) && t[o] != '"' && AtomText(t, o).Ok?
    ensures var (text, p) := AtomText(t, o).value;
            f.Bare? && f.text == text && Proper(f, 0) && p == o + |Spell(f)| && StandsAt(t, o, Spell(f))
  {
    hide IsBlank, IsWhite, IsSpace;
    var w := t[o..AtomEnd(t, o)];
    forall i | 0 <= i < |w|
      ensures IsInside(w[i])
    {
      assert w[i] == t[o + i];
    }
    assert w[0] == t[o];
    var lead, text, trail := TrimmedIsBare(w);
    f := Bare(lead, text, trail);
  }

  lemma TrimmedIsBare(w: string) returns (lead: string, text: string, trail: string)
    requires Trim(w) != "" && !IsBlank(w[0]) && w[0] != '"' && forall i :: 0 <= i < |w| ==> IsInside(w[i])
    ensures w == lead + (text + trail) && text == Trim(w) && ProperBare(lead, text, trail)
  {
    hide IsBlank, IsWhite, IsSpace, IsInside, TrimStart, TrimEnd, AllWhite;
    StartIsWhite(w);
    var rest := TrimStart(w);
    EndIsWhite(rest);
    text := TrimEnd(rest);
    lead, trail := w[..|w| - |rest|], rest[|text|..];
    InThree(w, lead, rest, text, trail);
    TrimmedEnds(rest);
    SpaceExactly(text[0]);
    SpaceExactly(text[|text| - 1]);
    if lead != "" {
      WhiteFirst(lead);
    }
  }

  lemma InThree(w: string, lead: string, rest: string, text: string, trail: string)
    requires |rest| <= |w| && lead == w[..|w| - |rest|] && rest == w[|w| - |rest|..]
    requires text != "" && text <= rest && trail == rest[|text|..]
    requires forall i :: 0 <= i < |w| ==> IsInside(w[i])
    ensures w == lead + (text + trail) && (if lead == "" then text[0] == w[0] else lead[0] == w[0])
    ensures forall i :: 0 <= i < |text| ==> IsInside(text[i])
  {
    hide IsInside;
    assert rest == text + trail && w == lead + rest;
    forall i | 0 <= i < |text|
      ensures IsInside(text[i])
    {
      assert text[i] == rest[i] == w[|lead| + i];
    }
  }

  lemma WhiteFirst(lead: string)
    requires AllWhite(lead) && lead != "" && !IsBlank(lead[0])
    ensures lead[0] == VERTICAL_TAB
  {
    hide IsBlank;
    WhiteNotBlank(lead[0]);
  }

  lemma TrimmedEnds(rest: string)
    requires TrimEnd(rest) != "" && !IsSpace(rest[0])
    ensures TrimEnd(rest)[0] == rest[0] && !IsSpace(TrimEnd(rest)[|TrimEnd(rest)| - 1])
  {
    hide IsSpace;
  }

  lemma WhiteNotBlank(c: char)
    requires IsWhite(c) && !IsBlank(c)
    ensures c == VERTICAL_TAB
  {
  }

  // ---- every form is read ----

  /** The value ends where its writing does. */
  predicate Ended(t: string, p: nat, f: Form)
    requires p <= |t|
  {
    match f
    case Braces(_) => true
    case Quoted(_) => p < |t| ==> t[p] != '"'
    case Bare(_, _, _) => p < |t| ==> !IsInside(t[p])
  }

  lemma FirstOfForm(f: Form, depth: nat)
    requires Proper(f, depth)
    ensures Spell(f) != "" && !IsBlank(Spell(f)[0]) && Spell(f)[0] != ',' && Spell(f)[0] != '}'
  {
    BlanksAreThese('{');
    BlanksAreThese('"');
    if f.Bare? {
      BareFirst(f.lead, f.text, f.trail);
    }
  }

  lemma {:induction false} FormRead(t: string, o: nat, depth: nat, f: Form)
    requires Proper(f, depth) && StandsAt(t, o, Spell(f)) && Ended(t, o + |Spell(f)|, f)
    ensures ParseValue(t, o, depth) == Ok((Meaning(f), o + |Spell(f)|))
    decreases f, 2
  {
    hide AtomText, StringTail, ParseItems, SpellParts, ProperParts, ProperBare, IsBlank, DoubleQuotes, Meanings;
    FirstOfForm(f, depth);
    StandsAtHead(t, o, Spell(f));
    match f {
      case Braces(parts) =>
        StandsAtConcat(t, o, "{", SpellParts(parts) + "}");
        PartsRead(t, o + 1, depth, [], parts);
        SkippedFirst(t, o + 1, depth);
        assert [] + Meanings(parts) == Meanings(parts);
      case Quoted(text) =>
        StandsAtConcat(t, o, "\"", DoubleQuotes(text) + "\"");
        StandsAtConcat(t, o + 1, DoubleQuotes(text), "\"");
        StandsAtOne(t, o + 1 + |DoubleQuotes(text)|, '"');
        StringWritten(t, o + 1, text);
      case Bare(lead, text, trail) =>
        BareRead(t, o, depth, lead, text, trail);
    }
  }

  /** Skipping white space before the items changes nothing. */
  lemma SkippedFirst(t: string, o: nat, depth: nat)
    requires o <= |t|
    ensures ParseItems(t, SkipSpaces(t, o), depth, [], true) == ParseItems(t, o, depth, [], true)
  {
    hide ParseValue;
    SkipTwice(t, o);
  }

  lemma SkipTwice(t: string, o: nat)
    requires o <= |t|
    ensures SkipSpaces(t, SkipSpaces(t, o)) == SkipSpaces(t, o)
  {
  }

  /** The values of a list, after some that were read before. */
  function Gathered(values: seq<Value>, parts: seq<Part>): (vs: seq<Value>) {
    if values == [] && |parts| == 1 && parts[0].Omitted? then [] else values + Meanings(parts)
  }

  lemma {:induction false} PartsRead(t: string, o: nat, depth: nat, values: seq<Value>, parts: seq<Part>)
    requires parts != [] && ProperParts(parts, depth + 1) && StandsAt(t, o, SpellParts(parts) + "}")
    ensures ParseItems(t, o, depth, values, true)
         == Ok((Gathered(values, parts), o + |SpellParts(parts) + "}"|))
    decreases parts, 0
  {
    hide ParseItems, SpellPart, SpellParts, SpellRest, ProperPart, PartMeaning, StandsAt, Meanings;
    var first, rest := parts[0], SpellRest(parts[1..]) + "}";
    PartsInTurn(parts);
    StandsAtConcat(t, o, SpellPart(first), rest);
    var p := o + |SpellPart(first)|;
    StandsAtHead(t, p, rest);
    PartRead(t, o, depth, values, first);
    if |parts| > 1 {
      StandsAtConcat(t, p, ",", SpellParts(parts[1..]) + "}");
      PartsRead(t, p + 1, depth, values + [PartMeaning(first)], parts[1..]);
      assert values + [PartMeaning(first)] + Meanings(parts[1..]) == values + Meanings(parts);
    } else {
      assert Meanings(parts) == [PartMeaning(first)];
    }
  }

  lemma PartsInTurn(parts: seq<Part>)
    requires parts != []
    ensures var rest := SpellRest(parts[1..]) + "}";
            && SpellParts(parts) + "}" == SpellPart(parts[0]) + rest && rest[0] == (if |parts| == 1 then '}' else ',')
            && (|parts| > 1 ==> rest == "," + (SpellParts(parts[1..]) + "}"))
            && (|parts| == 1 ==> rest == "}")
    ensures Meanings(parts) == [PartMeaning(parts[0])] + Meanings(parts[1..])
  {
    hide SpellPart, PartMeaning;
    RestInTurn(parts[1..]);
    assert SpellParts(parts) == SpellPart(parts[0]) + SpellRest(parts[1..]);
    hide SpellParts, SpellRest, Meanings;
    Regroup(SpellPart(parts[0]), SpellRest(parts[1..]), "}");
  }

  lemma RestInTurn(rest: seq<Part>)
    ensures rest == [] ==> SpellRest(rest) + "}" == "}"
    ensures rest != [] ==> SpellRest(rest) + "}" == "," + (SpellParts(rest) + "}")
    ensures (SpellRest(rest) + "}")[0] == if rest == [] then '}' else ','
  {
    hide SpellParts;
  }

  /** One part, up to the comma or brace behind it. */
  lemma {:induction false} PartRead(t: string, o: nat, depth: nat, values: seq<Value>, part: Part)
    requires ProperPart(part, depth + 1) && StandsAt(t, o, SpellPart(part))
    requires var p := o + |SpellPart(part)|; p < |t| && (t[p] == ',' || t[p] == '}')
    ensures var p, more := o + |SpellPart(part)|, values + [PartMeaning(part)];
            ParseItems(t, o, depth, values, true)
            == if t[p] == ',' then ParseItems(t, p + 1, depth, more, true)
               else Ok((if part.Omitted? && values == [] then values else more, p + 1))
    decreases part, 1
  {
    hide ParseItems, Proper, Spell, Meaning, IsBlank, AllBlank, StandsAt;
    var p := o + |SpellPart(part)|;
    CommaNotBlank();
    match part {
      case Omitted(gap) =>
        GapSkipped(t, o, gap);
        OmittedAt(t, o, p, depth, values);
      case Given(before, form, after) =>
        var q := o + |before|;
        StandsAtConcat(t, o, before, Spell(form) + after);
        StandsAtConcat(t, q, Spell(form), after);
        FirstOfForm(form, depth + 1);
        StandsAtHead(t, q, Spell(form));
        GapSkipped(t, o, before);
        var e := q + |Spell(form)|;
        EndOfForm(t, e, form, after);
        FormRead(t, q, depth + 1, form);
        GapSkipped(t, e, after);
        Stepped(t, o, q, e, depth, values, Meaning(form));
        Continued(t, e, p, depth, values + [Meaning(form)]);
    }
  }

  lemma OmittedAt(t: string, o: nat, p: nat, depth: nat, values: seq<Value>)
    requires o <= |t| && SkipSpaces(t, o) == p < |t| && (t[p] == ',' || t[p] == '}')
    ensures ParseItems(t, o, depth, values, true)
         == if t[p] == ',' then ParseItems(t, p + 1, depth, values + [Null], true)
            else Ok((if values == [] then values else values + [Null], p + 1))
  {
    hide ParseValue;
  }

  lemma Continued(t: string, o: nat, p: nat, depth: nat, values: seq<Value>)
    requires o <= |t| && SkipSpaces(t, o) == p < |t| && (t[p] == ',' || t[p] == '}')
    ensures ParseItems(t, o, depth, values, false)
         == if t[p] == ',' then ParseItems(t, p + 1, depth, values, true) else Ok((values, p + 1))
  {
    hide ParseValue;
  }

  lemma CommaNotBlank()
    ensures !IsBlank(',') && !IsBlank('}')
  {
    BlanksAreThese(',');
    BlanksAreThese('}');
  }

  lemma EndOfForm(t: string, e: nat, form: Form, after: string)
    requires StandsAt(t, e, after) && AllBlank(after) && (form.Bare? ==> after == "")
    requires var p := e + |after|; p < |t| && (t[p] == ',' || t[p] == '}')
    ensures Ended(t, e, form)
  {
    if after != "" {
      StandsAtHead(t, e, after);
      BlanksAreThese('"');
    }
  }

  lemma Stepped(t: string, o: nat, q: nat, e: nat, depth: nat, values: seq<Value>, v: Value)
    requires o <= |t| && SkipSpaces(t, o) == q < |t| && t[q] != ',' && t[q] != '}'
    requires ParseValue(t, q, depth + 1) == Ok((v, e))
    ensures ParseItems(t, o, depth, values, true) == ParseItems(t, e, depth, values + [v], false)
  {
    hide ParseValue;
  }

  // ---- what is read is a form ----

  lemma {:induction false} ValueIsForm(t: string, o: nat, depth: nat) returns (f: Form)
    requires o < |t| && !IsBlank(t[o]) && t[o] != ',' && t[o] != '}' && ParseValue(t, o, depth).Ok?
    ensures var (v, p) := ParseValue(t, o, depth).value;
            && Proper(f, depth) && v == Meaning(f) && p == o + |Spell(f)| && StandsAt(t, o, Spell(f))
            && (f.Bare? && p < |t| ==> IsDelimiter(t[p]))
    decreases |t| - o, 1
  {
    hide AtomText, StringTail, ParseList, ProperParts, ProperBare, IsBlank, Spell, Meanings, StandsAt;
    if t[o] == '{' {
      f := ListIsForm(t, o, depth);
    } else if t[o] == '"' {
      f := StringIsForm(t, o);
    } else {
      f := AtomIsBare(t, o);
      AtomStops(t, o);
    }
  }

  lemma {:induction false} ListIsForm(t: string, o: nat, depth: nat) returns (f: Form)
    requires o < |t| && t[o] == '{' && ParseList(t, o, depth).Ok?
    ensures var (items, p) := ParseList(t, o, depth).value;
            && f.Braces? && Proper(f, depth) && Meaning(f) == List(items) && p == o + |Spell(f)|
            && StandsAt(t, o, Spell(f))
    decreases |t| - o, 0
  {
    hide ParseItems, SpellParts, ProperParts, Meanings, StandsAt;
    SkippedFirst(t, o + 1, depth);
    var parts := ItemsAreParts(t, o + 1, depth, []);
    f := Braces(parts);
    assert [] + Meanings(parts) == Meanings(parts);
    StandsAtOne(t, o, '{');
    StandsAtConcat(t, o, "{", SpellParts(parts) + "}");
  }

  lemma StringIsForm(t: string, o: nat) returns (f: Form)
    requires o < |t| && t[o] == '"' && StringTail(t, o + 1).Ok?
    ensures var (text, p) := StringTail(t, o + 1).value;
            f == Quoted(text) && p == o + |Spell(f)| && StandsAt(t, o, Spell(f))
  {
    hide StringTail, DoubleQuotes, StandsAt;
    WrittenIsString(t, o + 1);
    var (text, p) := StringTail(t, o + 1).value;
    f := Quoted(text);
    StandsAtOne(t, o, '"');
    StandsAtOne(t, p - 1, '"');
    StandsAtConcat(t, o + 1, DoubleQuotes(text), "\"");
    StandsAtConcat(t, o, "\"", DoubleQuotes(text) + "\"");
  }

  lemma AtomStops(t: string, o: nat)
    requires o <= |t| && AtomText(t, o).Ok?
    ensures var p := AtomText(t, o).value.1; p < |t| ==> IsDelimiter(t[p])
  {
  }

  /** The items of a list, up to its closing brace, are parts. */
  lemma {:induction false} ItemsAreParts(t: string, o: nat, depth: nat, values: seq<Value>) returns (parts: seq<Part>)
    requires o <= |t| && depth < 512 && ParseItems(t, o, depth, values, true).Ok?
    ensures var (vs, q) := ParseItems(t, o, depth, values, true).value;
            && parts != [] && ProperParts(parts, depth + 1) && vs == Gathered(values, parts)
            && q == o + |SpellParts(parts) + "}"| && StandsAt(t, o, SpellParts(parts) + "}")
    decreases |t| - o, 3
  {
    hide ParseItems, ParseValue, ProperPart, SpellPart, PartMeaning, IsBlank, AllBlank, StandsAt, SpellParts, SpellRest,
         Meanings;
    var p := SkipSpaces(t, o);
    ItemsGoOn(t, o, depth, values);
    var first: Part;
    if t[p] == '}' || t[p] == ',' {
      first := OmittedPart(t, o, depth, values);
    } else {
      p, first := GivenPart(t, o, depth, values);
    }
    var more := values + [PartMeaning(first)];
    var rest := RestIsParts(t, p, depth, more);
    parts := [first] + rest;
    assert parts[0] == first && parts[1..] == rest;
    PartsInTurn(parts);
    StandsAtConcat(t, o, SpellPart(first), SpellRest(rest) + "}");
    assert values + [PartMeaning(first)] + Meanings(rest) == values + Meanings(parts);
  }

  lemma ItemsGoOn(t: string, o: nat, depth: nat, values: seq<Value>)
    requires o <= |t| && ParseItems(t, o, depth, values, true).Ok?
    ensures var p := SkipSpaces(t, o);
            && p < |t| && !IsBlank(t[p])
            && (t[p] != ',' && t[p] != '}' ==> ParseValue(t, p, depth + 1).Ok?)
  {
    hide ParseValue, IsBlank, Skippable;
    var p := SkipSpaces(t, o);
    SkippableExactly(t[p]);
  }

  lemma OmittedPart(t: string, o: nat, depth: nat, values: seq<Value>) returns (part: Part)
    requires o <= |t| && SkipSpaces(t, o) < |t| && t[SkipSpaces(t, o)] in [',', '}']
    ensures var p := SkipSpaces(t, o);
            && part.Omitted? && ProperPart(part, depth + 1) && p == o + |SpellPart(part)|
            && StandsAt(t, o, SpellPart(part))
            && ParseItems(t, o, depth, values, true)
               == if t[p] == ',' then ParseItems(t, p + 1, depth, values + [PartMeaning(part)], true)
                  else Ok((if values == [] then values else values + [PartMeaning(part)], p + 1))
  {
    hide ParseItems, IsBlank;
    var p := SkipSpaces(t, o);
    SkippedIsGap(t, o);
    OmittedAt(t, o, p, depth, values);
    part := Omitted(t[o..p]);
  }

  lemma {:induction false} GivenPart(t: string, o: nat, depth: nat, values: seq<Value>) returns (n: nat, part: Part)
    requires o <= |t| && ParseItems(t, o, depth, values, true).Ok?
    requires t[SkipSpaces(t, o)] != ',' && t[SkipSpaces(t, o)] != '}'
    ensures o < n < |t| && t[n] in [',', '}']
    ensures part.Given? && ProperPart(part, depth + 1) && n == o + |SpellPart(part)| && StandsAt(t, o, SpellPart(part))
    ensures ParseItems(t, o, depth, values, true)
         == if t[n] == ',' then ParseItems(t, n + 1, depth, values + [PartMeaning(part)], true)
            else Ok((values + [PartMeaning(part)], n + 1))
    decreases |t| - o, 2
  {
    hide ParseItems, ParseValue, Proper, Spell, Meaning, IsBlank, AllBlank, StandsAt;
    ItemsGoOn(t, o, depth, values);
    var p := SkipSpaces(t, o);
    SkippedIsGap(t, o);
    var form := ValueIsForm(t, p, depth + 1);
    var e := p + |Spell(form)|;
    FirstOfForm(form, depth + 1);
    Stepped(t, o, p, e, depth, values, Meaning(form));
    n := AfterValue(t, e, depth, values + [Meaning(form)]);
    if form.Bare? {
      NoGap(t, e);
    }
    part := Given(t[o..p], form, t[e..n]);
    assert SpellPart(part) == t[o..p] + (Spell(form) + t[e..n]);
    StandsThere(t, o, p);
    StandsThere(t, e, n);
    StandsAtConcat(t, p, Spell(form), t[e..n]);
    StandsAtConcat(t, o, t[o..p], Spell(form) + t[e..n]);
  }

  lemma StandsThere(t: string, o: nat, p: nat)
    requires o <= p <= |t|
    ensures StandsAt(t, o, t[o..p])
  {
  }

  /** Behind a value stand white space and a comma or the closing brace. */
  lemma AfterValue(t: string, e: nat, depth: nat, values: seq<Value>) returns (n: nat)
    requires e <= |t| && ParseItems(t, e, depth, values, false).Ok?
    ensures e <= n < |t| && n == SkipSpaces(t, e) && t[n] in [',', '}'] && AllBlank(t[e..n])
    ensures ParseItems(t, e, depth, values, false)
         == if t[n] == ',' then ParseItems(t, n + 1, depth, values, true) else Ok((values, n + 1))
  {
    hide ParseValue, IsBlank;
    n := SkipSpaces(t, e);
    SkippedIsGap(t, e);
    Continued(t, e, n, depth, values);
  }

  lemma NoGap(t: string, e: nat)
    requires e < |t| && IsDelimiter(t[e])
    ensures SkipSpaces(t, e) == e
  {
    SkippableExactly(t[e]);
    BlanksAreThese(t[e]);
  }

  lemma {:induction false} RestIsParts(t: string, p: nat, depth: nat, more: seq<Value>) returns (rest: seq<Part>)
    requires p < |t| && t[p] in [',', '}'] && depth < 512 && more != []
    requires t[p] == ',' ==> ParseItems(t, p + 1, depth, more, true).Ok?
    ensures ProperParts(rest, depth + 1) && (rest == [] <==> t[p] == '}') && StandsAt(t, p, SpellRest(rest) + "}")
    ensures t[p] == ',' ==>
              ParseItems(t, p + 1, depth, more, true) == Ok((more + Meanings(rest), p + |SpellRest(rest) + "}"|))
    decreases |t| - p, 0
  {
    hide ParseItems, ProperPart, SpellPart, PartMeaning, StandsAt, Meanings;
    if t[p] == '}' {
      rest := [];
      StandsAtOne(t, p, '}');
      assert SpellRest(rest) + "}" == "}";
    } else {
      rest := ItemsAreParts(t, p + 1, depth, more);
      StandsAtOne(t, p, ',');
      assert SpellRest(rest) + "}" == "," + (SpellParts(rest) + "}");
      StandsAtConcat(t, p, ",", SpellParts(rest) + "}");
    }
  }

  // ---- whole texts ----

  /** The text is the form with white space around it. */
  predicate Lays(t: string, front: string, form: Form, back: string) {
    && t == front + (Spell(form) + back) && AllBlank(front) && AllBlank(back) && Proper(form, 0)
    && (form.Bare? ==> back == "")
  }

  /** A text is read as a value exactly when it writes that value. */
  lemma ReadsExactly(t: string, v: Value)
    ensures ParseSerialized(t) == Ok(v)
       <==> exists front, form, back :: Lays(t, front, form, back) && Meaning(form) == v
  {
    hide ParseValue, Spell, Meaning, Proper;
    if ParseSerialized(t) == Ok(v) {
      var front, form, back := TextIsForm(t);
      assert Lays(t, front, form, back);
    }
    if exists front, form, back :: Lays(t, front, form, back) && Meaning(form) == v {
      var front, form, back :| Lays(t, front, form, back) && Meaning(form) == v;
      FormIsRead(t, front, form, back);
    }
  }

  lemma FormIsRead(t: string, front: string, form: Form, back: string)
    requires Lays(t, front, form, back)
    ensures ParseSerialized(t) == Ok(Meaning(form))
  {
    hide ParseValue, Spell, Meaning, Proper, IsBlank, AllBlank, StandsAt;
    var o, w := |front|, Spell(form);
    StandsWhole(t);
    StandsAtConcat(t, 0, front, w + back);
    StandsAtConcat(t, o, w, back);
    FirstOfForm(form, 0);
    StandsAtHead(t, o, w);
    GapSkipped(t, 0, front);
    EndOfText(t, o + |w|, form, back);
    FormRead(t, o, 0, form);
    GapSkipped(t, o + |w|, back);
  }

  lemma StandsWhole(t: string)
    ensures StandsAt(t, 0, t)
  {
  }

  lemma EndOfText(t: string, e: nat, form: Form, back: string)
    requires StandsAt(t, e, back) && e + |back| == |t| && AllBlank(back) && (form.Bare? ==> back == "")
    ensures Ended(t, e, form)
  {
    if back != "" {
      StandsAtHead(t, e, back);
      BlanksAreThese('"');
    }
  }

  lemma TextIsForm(t: string) returns (front: string, form: Form, back: string)
    requires ParseSerialized(t).Ok?
    ensures Lays(t, front, form, back) && Meaning(form) == ParseSerialized(t).value
  {
    hide ParseValue, Spell, Meaning, Proper, IsBlank, AllBlank;
    var o := SkipSpaces(t, 0);
    SkippedIsGap(t, 0);
    TextGoesOn(t, o);
    form := ValueIsForm(t, o, 0);
    var e := o + |Spell(form)|;
    SkippedIsGap(t, e);
    front, back := t[..o], t[e..];
    assert t[0..o] == front && t[o..e] == Spell(form) && t[e..|t|] == back;
    assert t == front + (t[o..e] + back);
    if form.Bare? && e < |t| {
      NoGap(t, e);
    }
  }

  lemma TextGoesOn(t: string, o: nat)
    requires o == SkipSpaces(t, 0) && ParseSerialized(t).Ok?
    ensures o < |t| && !IsBlank(t[o]) && t[o] != ',' && t[o] != '}' && ParseValue(t, o, 0).Ok?
  {
    hide IsBlank, Skippable;
    SkippableExactly(t[o]);
    SkipTwice(t, 0);
    OmittedHere(t, o);
  }

  lemma OmittedHere(t: string, o: nat)
    requires o < |t|
    ensures t[o] == ',' || t[o] == '}' ==> ParseValue(t, o, 0) == Ok((Null, o))
  {
  }

  /** Lists nested more than 512 deep fail where the 513th one opens. */
  lemma {:induction false} DeepListFails(t: string, o: nat)
    requires o <= 512 && |t| > 512 && forall i :: 0 <= i <= 512 ==> t[i] == '{'
    ensures ParseValue(t, o, o) == Err(ParseError(512, NestingTooDeep))
    decreases 512 - o
  {
    BlanksAreThese('{');
    if o < 512 {
      SkippableExactly('{');
      assert SkipSpaces(t, o + 1) == o + 1;
      DeepListFails(t, o + 1);
      OpenFails(t, o, ParseError(512, NestingTooDeep));
    }
  }

  /** The fault of a list that opens right behind a brace is that of the list around it. */
  lemma OpenFails(t: string, o: nat, e: ParseError)
    requires o < 512 && o + 1 < |t| && t[o] == t[o + 1] == '{' && SkipSpaces(t, o + 1) == o + 1
    requires ParseValue(t, o + 1, o + 1) == Err(e)
    ensures ParseValue(t, o, o) == Err(e)
  {
    assert ParseItems(t, o + 1, o, [], true) == Err(e) by {
      hide ParseValue;
    }
    assert ParseList(t, o, o) == Err(e) by {
      hide ParseItems;
    }
    hide ParseList;
  }

  lemma DeepTextFails(t: string)
    requires |t| > 512 && forall i :: 0 <= i <= 512 ==> t[i] == '{'
    ensures ParseSerialized(t) == Err(ParseError(512, NestingTooDeep))
  {
    hide ParseValue;
    BlanksAreThese('{');
    SkippableExactly('{');
    DeepListFails(t, 0);
  }
}
