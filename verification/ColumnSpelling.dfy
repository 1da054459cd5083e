/**
 * The canonical spelling and the logical name of every physical name: where a word may stand,
 * what is taken for a tail, and which mark is dropped.
 */
module ColumnSpelling {
  import opened ColumnNames
  import opened Outcomes
  import opened Recasing
  import opened Scalars
  import opened ScalarText
  import LogicalFields

  // ---- where a word stands ----

  /** The same letter, in any case. */
  predicate SameLetter(c: char, d: char) {
    c == d || Lowers(c, d) || Lowers(d, c)
  }

  predicate Reads(s: string, o: nat, w: string) {
    o + |w| <= |s| && forall i :: 0 <= i < |w| ==> SameLetter(s[o + i], w[i])
  }

  /**
   * A word stands at the start, behind an underscore, and if it is the mark of a reference at the
   * end too; the words for a part of a table and for changes stand anywhere.
   */
  predicate Stands(s: string, o: nat, w: string) {
    && w in WORDS && Reads(s, o, w)
    && (|| o == 0 || s[o - 1] == '_' || w == "VT" || w == "ChngR"
        || ((w == "RRef" || w == "TRef") && o + |w| == |s|))
  }

  ghost predicate Longest(s: string, o: nat, w: string) {
    Stands(s, o, w) && forall v :: Stands(s, o, v) ==> |v| <= |w|
  }

  /** An underscore and one of five letters, up to the next underscore or the end. */
  predicate TailStands(s: string, o: nat) {
    && o + 1 < |s| && s[o] == '_' && s[o + 1] in "SRLNTsrlnt" && (o + 2 == |s| || s[o + 2] == '_')
  }

  /** What a step writes: the longest word, or a tail with its letter in capital, or the character itself. */
  ghost predicate Writes(s: string, o: nat, p: string)
    requires o < |s|
  {
    if exists w :: Stands(s, o, w) then Longest(s, o, p) && 0 < |p| <= |s| - o
    else if TailStands(s, o) then |p| == 2 && p[0] == '_' && p[1] in "SRLNT" && SameLetter(s[o + 1], p[1])
    else p == [s[o]]
  }

  /** The text is what the steps from a place on write. */
  ghost predicate Spelt(s: string, o: nat, t: string)
    requires o <= |s|
    decreases |s| - o
  {
    if o == |s| then t == ""
    else exists p :: Writes(s, o, p) && 0 < |p| <= |s| - o && p <= t && Spelt(s, o + |p|, t[|p|..])
  }

  lemma SameLetterExactly(c: char, d: char)
    ensures SameLetter(c, d) <==> AsciiLower(c) == AsciiLower(d)
  {
  }

  lemma ReadsExactly(s: string, o: nat, w: string)
    requires o <= |s|
    ensures Reads(s, o, w) <==> AsciiLowerAll(w) <= AsciiLowerAll(s)[o..]
  {
    hide SameLetter, AsciiLower;
    var lower := AsciiLowerAll(s);
    if AsciiLowerAll(w) <= lower[o..] {
      StandsLetterByLetter(lower, o, w);
      forall i | 0 <= i < |w|
        ensures SameLetter(s[o + i], w[i])
      {
        SameLetterExactly(s[o + i], w[i]);
      }
    }
    if Reads(s, o, w) {
      forall i | 0 <= i < |w|
        ensures AsciiLowerAll(w)[i] == lower[o..][i]
      {
        SameLetterExactly(s[o + i], w[i]);
      }
    }
  }

  lemma StandsExactly(s: string, o: nat, w: string)
    requires o <= |s| && w in WORDS
    ensures Stands(s, o, w) <==> WordMatches(AsciiLowerAll(s), o, w)
  {
    hide WORDS, Reads;
    ReadsExactly(s, o, w);
    if o > 0 {
      UnderscoreLower(s[o - 1]);
    }
  }

  lemma UnderscoreLower(c: char)
    ensures AsciiLower(c) == '_' <==> c == '_'
  {
  }

  lemma TailExactly(s: string, o: nat)
    ensures TailStands(s, o) <==> IsTail(AsciiLowerAll(s), o)
  {
    if o + 1 < |s| {
      UnderscoreLower(s[o]);
      if o + 2 < |s| {
        UnderscoreLower(s[o + 2]);
      }
      TailLetter(s[o + 1]);
    }
  }

  lemma TailLetter(c: char)
    ensures c in "SRLNTsrlnt" <==> AsciiLower(c) in "srlnt"
    ensures c in "SRLNTsrlnt" ==>
              AsciiUpper(AsciiLower(c)) in "SRLNT" && SameLetter(c, AsciiUpper(AsciiLower(c)))
    ensures forall d :: d in "SRLNT" && SameLetter(c, d) ==> d == AsciiUpper(AsciiLower(c))
  {
  }

  /** The word found is the longest that stands, and none is found exactly where none stands. */
  lemma FoundExactly(s: string, o: nat)
    requires o <= |s|
    ensures match FindWord(AsciiLowerAll(s), o, WORDS)
            case None => forall w :: !Stands(s, o, w)
            case Some(f) => Longest(s, o, f) && |f| > 0 && forall w :: Longest(s, o, w) ==> w == f
  {
    hide WORDS, FindWord, WordMatches, Stands;
    var lower, found := AsciiLowerAll(s), FindWord(AsciiLowerAll(s), o, WORDS);
    forall w | Stands(s, o, w)
      ensures found.Some? && |w| <= |found.value|
    {
      InWords(s, o, w);
      StandsExactly(s, o, w);
      LongestWordChosen(lower, o, w);
    }
    if found.Some? {
      var f := found.value;
      StandsExactly(s, o, f);
      WordsAreLetters(f);
      forall w | Longest(s, o, w)
        ensures w == f
      {
        InWords(s, o, w);
        BothStand(s, o, w, f);
      }
    }
  }

  lemma InWords(s: string, o: nat, w: string)
    requires Stands(s, o, w)
    ensures w in WORDS
  {
    hide WORDS;
  }

  lemma BothStand(s: string, o: nat, v: string, w: string)
    requires Stands(s, o, v) && Stands(s, o, w) && |v| == |w|
    ensures v == w
  {
    hide WORDS, AsciiLower;
    forall i | 0 <= i < |v|
      ensures AsciiLowerAll(v)[i] == AsciiLowerAll(w)[i]
    {
      SameLetterExactly(s[o + i], v[i]);
      SameLetterExactly(s[o + i], w[i]);
    }
    assert AsciiLowerAll(v) == AsciiLowerAll(w);
    SameSpelling(v, w);
  }

  lemma PieceExactly(s: string, o: nat, p: string)
    requires o < |s|
    ensures Piece(AsciiLowerAll(s), s, o) == p <==> Writes(s, o, p)
  {
    hide WORDS, FindWord, Stands, IsTail, AsciiLower, SameLetter, AsciiUpper;
    var lower := AsciiLowerAll(s);
    FoundExactly(s, o);
    TailExactly(s, o);
    var found := FindWord(lower, o, WORDS);
    if found.Some? {
      assert Stands(s, o, found.value);
    } else if IsTail(lower, o) {
      TailPiece(s, o, p);
    }
  }

  lemma TailPiece(s: string, o: nat, p: string)
    requires o + 1 < |s| && s[o + 1] in "SRLNTsrlnt"
    ensures p == ['_', AsciiUpper(AsciiLowerAll(s)[o + 1])] <==>
            |p| == 2 && p[0] == '_' && p[1] in "SRLNT" && SameLetter(s[o + 1], p[1])
  {
    hide AsciiUpper, AsciiLower, SameLetter;
    TailLetter(s[o + 1]);
    if |p| == 2 {
      assert p == [p[0], p[1]];
    }
  }

  lemma RecasedStep(lower: string, s: string, o: nat)
    requires |lower| == |s| && o < |s|
    ensures var p := Piece(lower, s, o);
            0 < |p| <= |s| - o && Recased(lower, s, o) == p + Recased(lower, s, o + |p|)
  {
    hide Piece;
  }

  lemma SpeltStep(s: string, o: nat, p: string, r: string)
    requires o < |s| && Writes(s, o, p) && 0 < |p| <= |s| - o && Spelt(s, o + |p|, r)
    ensures Spelt(s, o, p + r)
  {
    hide Writes;
    assert (p + r)[|p|..] == r;
  }

  lemma SpeltAtEnd(lower: string, s: string, t: string)
    requires |lower| == |s|
    ensures Recased(lower, s, |s|) == "" && (Spelt(s, |s|, t) <==> t == "")
  {
  }

  lemma {:induction false} RecasedIsSpelt(lower: string, s: string, o: nat)
    requires lower == AsciiLowerAll(s) && o <= |s|
    ensures Spelt(s, o, Recased(lower, s, o))
    decreases |s| - o
  {
    hide *;
    if o == |s| {
      SpeltAtEnd(lower, s, "");
    } else {
      RecasedStep(lower, s, o);
      var p := Piece(lower, s, o);
      PieceExactly(s, o, p);
      RecasedIsSpelt(lower, s, o + |p|);
      SpeltStep(s, o, p, Recased(lower, s, o + |p|));
    }
  }

  lemma FirstStep(s: string, o: nat, t: string) returns (p: string)
    requires o < |s| && Spelt(s, o, t)
    ensures Writes(s, o, p) && 0 < |p| <= |s| - o && p <= t && Spelt(s, o + |p|, t[|p|..])
  {
    hide Writes;
    p :| Writes(s, o, p) && 0 < |p| <= |s| - o && p <= t && Spelt(s, o + |p|, t[|p|..]);
  }

  lemma {:induction false} SpeltIsRecased(lower: string, s: string, o: nat, t: string)
    requires lower == AsciiLowerAll(s) && o <= |s| && Spelt(s, o, t)
    ensures Recased(lower, s, o) == t
    decreases |s| - o
  {
    hide *;
    if o == |s| {
      SpeltAtEnd(lower, s, t);
    } else {
      var p := FirstStep(s, o, t);
      RecasedStep(lower, s, o);
      PieceExactly(s, o, p);
      SpeltIsRecased(lower, s, o + |p|, t[|p|..]);
      Prepended(p, Recased(lower, s, o + |p|), t);
    }
  }

  lemma Prepended(p: string, r: string, t: string)
    ensures p + r == t <==> p <= t && r == t[|p|..]
  {
    if p <= t && r == t[|p|..] {
      assert t == p + t[|p|..];
    }
  }

  /** The canonical spelling of a name is the one that is spelt from its start. */
  lemma CanonicalExactly(s: string, t: string)
    ensures Canonical(s) == t <==> Spelt(s, 0, t)
  {
    hide Recased, Spelt;
    var lower := AsciiLowerAll(s);
    RecasedIsSpelt(lower, s, 0);
    if Spelt(s, 0, t) {
      SpeltIsRecased(lower, s, 0, t);
    }
  }

  // ---- logical names ----

  /** The marks of compound members and references. */
  predicate IsMark(mark: string) {
    mark in COMPOUND_MEMBERS || mark in REFERENCE_MARKS
  }

  /** A column with its longest mark taken off. */
  predicate Bears(column: string, base: string, mark: string) {
    && column == base + mark && (mark == "" || IsMark(mark))
    && forall k, longer :: 0 <= k <= |column| && longer == column[k..] && IsMark(longer) ==> |longer| <= |mark|
  }

  /** The name of a base: without the underscore before it, and "Type" if nothing is left. */
  predicate NamesField(base: string, name: string) {
    if base == "" || base == "_" then name == "Type"
    else if base[0] == '_' then name == base[1..] else name == base
  }

  lemma MarksAreSuffixes(mark: string)
    ensures IsMark(mark) <==> mark in LogicalFields.SUFFIXES
  {
  }

  lemma EndsExactly(s: string, mark: string)
    ensures LogicalFields.EndsWith(s, mark) <==> |mark| <= |s| && s == s[..|s| - |mark|] + mark
  {
    if LogicalFields.EndsWith(s, mark) {
      assert s == s[..|s| - |mark|] + s[|s| - |mark|..];
    }
    if |mark| <= |s| && s == s[..|s| - |mark|] + mark {
      assert s[|s| - |mark|..] == mark;
    }
  }

  /** The first suffix of the rest of the list that a column ends with is taken off. */
  lemma {:induction false} Dropped(column: string, k: nat) returns (j: nat)
    requires k <= |LogicalFields.SUFFIXES|
    ensures k <= j <= |LogicalFields.SUFFIXES|
    ensures forall i :: k <= i < j ==> !LogicalFields.EndsWith(column, LogicalFields.SUFFIXES[i])
    ensures var base := LogicalFields.WithoutSuffix(column, LogicalFields.SUFFIXES[k..]);
            if j == |LogicalFields.SUFFIXES| then base == column
            else LogicalFields.EndsWith(column, LogicalFields.SUFFIXES[j])
                 && base == column[..|column| - |LogicalFields.SUFFIXES[j]|]
    decreases |LogicalFields.SUFFIXES| - k
  {
    hide LogicalFields.SUFFIXES, LogicalFields.EndsWith;
    j := k;
    if k < |LogicalFields.SUFFIXES| {
      var rest := LogicalFields.SUFFIXES[k..];
      assert rest[0] == LogicalFields.SUFFIXES[k] && rest[1..] == LogicalFields.SUFFIXES[k + 1..];
      if !LogicalFields.EndsWith(column, rest[0]) {
        j := Dropped(column, k + 1);
      }
    }
  }

  /** Of two suffixes a column ends with, the longer one ends with the shorter one. */
  lemma LongerEnds(column: string, a: string, b: string)
    requires LogicalFields.EndsWith(column, a) && LogicalFields.EndsWith(column, b) && |a| <= |b|
    ensures LogicalFields.EndsWith(b, a)
  {
    var n := |column| - |b|;
    assert b[|b| - |a|..] == column[n..][|b| - |a|..] == column[|column| - |a|..];
  }

  /** A column bears what is left of it when the first suffix of the list is taken off. */
  lemma FirstIsLongest(column: string) returns (base: string, mark: string)
    ensures base == LogicalFields.WithoutSuffix(column, LogicalFields.SUFFIXES) && Bears(column, base, mark)
  {
    hide LogicalFields.SUFFIXES, LogicalFields.EndsWith, LogicalFields.WithoutSuffix, IsMark;
    var all := LogicalFields.SUFFIXES;
    var j := Dropped(column, 0);
    assert all[0..] == all;
    base := LogicalFields.WithoutSuffix(column, all);
    mark := if j < |all| then all[j] else "";
    EndsExactly(column, mark);
    MarksAreSuffixes(mark);
    NoEarlierOne();
    forall k, longer | 0 <= k <= |column| && longer == column[k..] && IsMark(longer)
      ensures |longer| <= |mark|
    {
      MarksAreSuffixes(longer);
      TailEnds(column, k);
      var i :| 0 <= i < |all| && all[i] == longer;
      if |mark| < |longer| && j < i {
        LongerEnds(column, mark, longer);
      }
    }
  }

  lemma TailEnds(column: string, k: nat)
    requires k <= |column|
    ensures LogicalFields.EndsWith(column, column[k..])
  {
  }

  lemma OneBase(column: string, a: string, m: string, b: string, n: string)
    requires Bears(column, a, m) && Bears(column, b, n)
    ensures a == b
  {
    hide IsMark;
    assert column[|a|..] == m && column[|b|..] == n;
    assert |m| > 0 ==> IsMark(m);
    assert |m| == |n|;
    assert column[..|a|] == a && column[..|b|] == b;
  }

  /** The logical name of a column is the one its base names. */
  lemma LogicalNameExactly(column: string, name: string)
    ensures LogicalFields.LogicalName(column) == name
       <==> exists base, mark :: Bears(column, base, mark) && NamesField(base, name)
  {
    hide LogicalFields.SUFFIXES, LogicalFields.WithoutSuffix, Bears;
    var base, mark := FirstIsLongest(column);
    if base == "_" {
      assert base[1..] == "";
    } else if base != "" && base[0] == '_' {
      assert |base[1..]| > 0;
    }
    if exists b, m :: Bears(column, b, m) && NamesField(b, name) {
      var b, m :| Bears(column, b, m) && NamesField(b, name);
      OneBase(column, base, mark, b, m);
    }
  }
}
