/**
 * Physical names as they are written: known words, numbers, tails and reference marks, each
 * after an underscore. Any spelling of such a name is recased to it, and its compound members
 * share one logical name.
 */
module ColumnNames {
  import opened Outcomes
  import opened Recasing
  import opened Scalars
  import opened ScalarText
  import LogicalFields

  // ---- names ----

  /** What follows an underscore: a known word and a number, or the letter of a compound member. */
  datatype Part = Named(word: string, digits: string) | Member(letter: char)

  predicate Proper(p: Part) {
    if p.Named? then p.word in WORDS && AllDigits(p.digits) else p.letter in "SRLNT"
  }

  function PartText(p: Part): (t: string)
    ensures |t| >= 1
  {
    if p.Named? then "_" + p.word + p.digits else ['_', p.letter]
  }

  /** Parts, and at the very end perhaps the mark of a reference, right behind a number. */
  function NameText(parts: seq<Part>, mark: string): (t: string) {
    if parts == [] then mark else PartText(parts[0]) + NameText(parts[1..], mark)
  }

  predicate ProperName(parts: seq<Part>, mark: string) {
    && (forall i :: 0 <= i < |parts| ==> Proper(parts[i]))
    && (mark == "" || ((mark == "RRef" || mark == "TRef") && parts != [] && parts[|parts| - 1].Named?
                       && parts[|parts| - 1].digits != ""))
  }

  predicate IsLetter(c: char) {
    'a' <= c <= 'z' || 'A' <= c <= 'Z'
  }

  predicate AllLetters(w: string) {
    |w| >= 2 && forall i :: 0 <= i < |w| ==> IsLetter(w[i])
  }

  lemma LettersFrom0()
    ensures |WORDS| == 40 && forall k :: 0 <= k < 5 ==> AllLetters(WORDS[k])
  {
  }

  lemma LettersFrom5()
    ensures |WORDS| == 40 && forall k :: 5 <= k < 15 ==> AllLetters(WORDS[k])
  {
  }

  lemma LettersFrom15()
    ensures |WORDS| == 40 && forall k :: 15 <= k < 27 ==> AllLetters(WORDS[k])
  {
  }

  lemma LettersFrom27()
    ensures |WORDS| == 40 && forall k :: 27 <= k < 40 ==> AllLetters(WORDS[k])
  {
  }

  lemma WordsAreLetters(w: string)
    requires w in WORDS
    ensures AllLetters(w)
  {
    hide WORDS, AllLetters;
    LettersFrom0();
    LettersFrom5();
    LettersFrom15();
    LettersFrom27();
  }

  // ---- the words ----

  /** The place of a word in the list. */
  predicate Listed(w: string, k: nat) {
    k < |WORDS| && WORDS[k] == w
  }

  /** Kinds of objects. */
  lemma ObjectWords()
    ensures Listed("Reference", 6) && Listed("Document", 7) && Listed("DocumentJournal", 1) && Listed("Enum", 32)
    ensures Listed("Const", 19) && Listed("Chrc", 25) && Listed("Acc", 31) && Listed("CKinds", 12)
    ensures Listed("BPr", 36) && Listed("Task", 34) && Listed("Node", 33) && Listed("Seq", 37)
    ensures Listed("UsersWorkHistory", 0)
  {
  }

  /** Registers and parts of tables. */
  lemma RegisterWords()
    ensures Listed("InfoRg", 9) && Listed("AccumRg", 8) && Listed("AccRg", 13) && Listed("CRg", 30)
    ensures Listed("VT", 39) && Listed("ChngR", 16) && Listed("Fld", 38) && Listed("SeqB", 21)
    ensures Listed("Recorder", 5) && Listed("LineNo", 11) && Listed("Period", 27) && Listed("Active", 29)
    ensures Listed("RecordKey", 20) && Listed("NumberPrefix", 4)
  {
  }

  /** Standard columns. */
  lemma StandardWords()
    ensures Listed("IDRRef", 10) && Listed("Version", 17) && Listed("Marked", 18) && Listed("PredefinedID", 3)
    ensures Listed("Description", 2) && Listed("Code", 35) && Listed("Number", 26) && Listed("Posted", 28)
  {
  }

  /** Members of compound columns. */
  lemma MemberWords()
    ensures Listed("TYPE", 24) && Listed("RTRef", 15) && Listed("RRRef", 14) && Listed("TRef", 22)
    ensures Listed("RRef", 23)
  {
  }

  /** There are no other words. */
  lemma FortyWords()
    ensures |WORDS| == 40
  {
  }

  // ---- one word ----

  lemma SameSpelling(v: string, w: string)
    requires v in WORDS && w in WORDS && AsciiLowerAll(v) == AsciiLowerAll(w)
    ensures v == w
  {
    hide WORDS, AsciiLower;
    WordsAreLongestFirst();
    var i :| 0 <= i < |WORDS| && WORDS[i] == v;
    var j :| 0 <= j < |WORDS| && WORDS[j] == w;
    if i < j {
      Differ(v, w);
    } else if j < i {
      Differ(w, v);
    }
  }

  lemma Differ(a: string, b: string)
    requires NoPrefix(a, b)
    ensures AsciiLowerAll(a) != AsciiLowerAll(b)
  {
    if |a| <= |b| {
      var k :| 0 <= k < |a| && AsciiLower(a[k]) != AsciiLower(b[k]);
      assert |a| == |b| ==> AsciiLowerAll(a)[k] != AsciiLowerAll(b)[k];
    }
  }

  lemma LettersLower(c: char)
    ensures IsLetter(AsciiLower(c)) <==> IsLetter(c)
    ensures !IsLetter(c) ==> AsciiLower(c) == c
  {
  }

  /** A word with no letter behind it is the one found. */
  lemma WordIsFound(lower: string, o: nat, w: string)
    requires o <= |lower| && w in WORDS && WordMatches(lower, o, w)
    requires o + |w| <= |lower| && (o + |w| == |lower| || !IsLetter(lower[o + |w|]))
    ensures FindWord(lower, o, WORDS) == Some(w)
  {
    hide WORDS, FindWord, IsLetter, AsciiLower;
    LongestWordChosen(lower, o, w);
    var f := FindWord(lower, o, WORDS).value;
    WordsAreLetters(f);
    StandsLetterByLetter(lower, o, f);
    if |f| > |w| {
      LettersLower(f[|w|]);
    }
    assert AsciiLowerAll(f) == lower[o..][..|w|] == AsciiLowerAll(w);
    SameSpelling(f, w);
  }

  /** No word begins with anything but a letter. */
  lemma NoWordAt(lower: string, o: nat)
    requires o < |lower| && !IsLetter(lower[o])
    ensures FindWord(lower, o, WORDS) == None
  {
    hide WORDS, FindWord, IsLetter, AsciiLower;
    if FindWord(lower, o, WORDS).Some? {
      var f := FindWord(lower, o, WORDS).value;
      WordsAreLetters(f);
      StandsLetterByLetter(lower, o, f);
      LettersLower(f[0]);
    }
  }

  // ---- whole names ----

  /** A character that is no letter and begins no tail is kept. */
  lemma MarkKept(lower: string, s: string, o: nat)
    requires lower == AsciiLowerAll(s) && o < |s| && !IsLetter(lower[o]) && !IsTail(lower, o)
    ensures s[o] == lower[o] && Recased(lower, s, o) == [lower[o]] + Recased(lower, s, o + 1)
  {
    hide WORDS, FindWord, IsTail;
    NoWordAt(lower, o);
    LettersLower(s[o]);
  }

  lemma {:induction false} DigitsKept(lower: string, s: string, o: nat, digits: string)
    requires lower == AsciiLowerAll(s) && AllDigits(digits) && o <= |s| && digits <= lower[o..]
    ensures o + |digits| <= |s| && Recased(lower, s, o) == digits + Recased(lower, s, o + |digits|)
    decreases |digits|
  {
    hide Recased;
    if digits == "" {
      assert digits + Recased(lower, s, o) == Recased(lower, s, o);
    } else {
      assert lower[o..][0] == digits[0] == lower[o];
      MarkKept(lower, s, o);
      assert digits[1..] <= lower[o + 1..] by {
        assert lower[o..][1..] == lower[o + 1..];
      }
      DigitsKept(lower, s, o + 1, digits[1..]);
      assert digits == [digits[0]] + digits[1..];
    }
  }

  lemma WordRecased(lower: string, s: string, o: nat, w: string)
    requires lower == AsciiLowerAll(s) && o <= |s| && w in WORDS && WordMatches(lower, o, w)
    requires o + |w| <= |lower| && (o + |w| == |lower| || !IsLetter(lower[o + |w|]))
    ensures Recased(lower, s, o) == w + Recased(lower, s, o + |w|)
  {
    hide WORDS, FindWord, WordMatches;
    WordIsFound(lower, o, w);
    WordsAreLetters(w);
  }

  lemma LowerAppend(a: string, b: string)
    ensures AsciiLowerAll(a + b) == AsciiLowerAll(a) + AsciiLowerAll(b)
  {
  }

  lemma LowerDigits(digits: string)
    requires AllDigits(digits)
    ensures AsciiLowerAll(digits) == digits
  {
  }

  lemma MarkRecased(lower: string, s: string, o: nat, mark: string)
    requires lower == AsciiLowerAll(s) && o <= |s| && lower[o..] == AsciiLowerAll(mark)
    requires mark == "RRef" || mark == "TRef"
    ensures Recased(lower, s, o) == mark
  {
    hide WORDS, FindWord, Recased, AsciiLowerAll;
    MarksAreWords(mark);
    assert |AsciiLowerAll(mark)| == |mark|;
    assert WordMatches(lower, o, mark);
    WordRecased(lower, s, o, mark);
    AtEnd(lower, s, o + |mark|);
    assert mark + [] == mark;
  }

  lemma MarksAreWords(mark: string)
    requires mark == "RRef" || mark == "TRef"
    ensures mark in WORDS
  {
    hide WORDS;
    MemberWords();
  }

  lemma AtEnd(lower: string, s: string, o: nat)
    requires |lower| == |s| == o
    ensures Recased(lower, s, o) == []
  {
  }

  lemma MemberRecased(lower: string, s: string, o: nat, letter: char, rest: string)
    requires lower == AsciiLowerAll(s) && o <= |s| && letter in "SRLNT" && (rest == "" || rest[0] == '_')
    requires lower[o..] == AsciiLowerAll(['_', letter] + rest)
    ensures o + 2 <= |s| && Recased(lower, s, o) == ['_', letter] + Recased(lower, s, o + 2)
    ensures lower[o + 2..] == AsciiLowerAll(rest)
  {
    hide WORDS, FindWord, Recased;
    var t := ['_', letter] + rest;
    assert |lower[o..]| == |t|;
    assert lower[o] == lower[o..][0] == AsciiLower(t[0]) && lower[o + 1] == lower[o..][1] == AsciiLower(t[1]);
    if rest != "" {
      assert lower[o + 2] == lower[o..][2] == AsciiLower(t[2]);
    }
    LowerAppend(['_', letter], rest);
    assert lower[o + 2..] == lower[o..][2..];
    assert IsTail(lower, o) && AsciiUpper(lower[o + 1]) == letter;
    NoWordAt(lower, o);
    TailRecased(lower, s, o);
  }

  lemma TailRecased(lower: string, s: string, o: nat)
    requires |lower| == |s| && o < |s| && FindWord(lower, o, WORDS) == None && IsTail(lower, o)
    ensures Recased(lower, s, o) == ['_', AsciiUpper(lower[o + 1])] + Recased(lower, s, o + 2)
  {
    hide WORDS, FindWord, IsTail;
  }

  lemma NamedRecased(lower: string, s: string, o: nat, w: string, digits: string, rest: string)
    requires lower == AsciiLowerAll(s) && o <= |s| && w in WORDS && AllDigits(digits)
    requires rest == "" || rest[0] == '_' || digits != ""
    requires lower[o..] == AsciiLowerAll("_" + w + digits + rest)
    ensures var p := o + 1 + |w| + |digits|;
            && p <= |s| && Recased(lower, s, o) == "_" + w + digits + Recased(lower, s, p)
            && lower[p..] == AsciiLowerAll(rest)
  {
    hide WORDS, FindWord, Recased, AsciiLowerAll, WordMatches;
    var t, p := "_" + w + digits + rest, o + 1 + |w|;
    WordsAreLetters(w);
    NamedSlices(lower, o, w, digits, rest);
    LowersHere(lower, o, t);
    UnderscoreBeforeWord(lower, o, w, t);
    MarkKept(lower, s, o);
    AfterWord(lower, o, w, digits, rest, t);
    WordAfterUnderscore(lower, o + 1, w);
    WordRecased(lower, s, o + 1, w);
    DigitsKept(lower, s, p, digits);
    Joined(w, digits, Recased(lower, s, p + |digits|));
  }

  lemma Joined(w: string, digits: string, rest: string)
    ensures "_" + (w + (digits + rest)) == "_" + w + digits + rest
  {
  }

  lemma WordAfterUnderscore(lower: string, o: nat, w: string)
    requires 0 < o <= |lower| && lower[o - 1] == '_' && AsciiLowerAll(w) <= lower[o..]
    ensures WordMatches(lower, o, w)
  {
  }

  /** The pieces of a named part, in the lower case of a text it stands in. */
  lemma NamedSlices(lower: string, o: nat, w: string, digits: string, rest: string)
    requires o <= |lower| && lower[o..] == AsciiLowerAll("_" + w + digits + rest) && AllDigits(digits)
    ensures var p, q := o + 1 + |w|, o + 1 + |w| + |digits|;
            && q <= |lower| && lower[o] == '_' && AsciiLowerAll(w) <= lower[o + 1..] && digits <= lower[p..]
            && lower[q..] == AsciiLowerAll(rest)
  {
    hide AsciiLowerAll;
    var x, z := AsciiLowerAll(w), AsciiLowerAll(rest);
    LowerOfNamed(w, digits, rest);
    Cut(lower, o, "_", x + (digits + z));
    Cut(lower, o + 1, x, digits + z);
    Cut(lower, o + 1 + |w|, digits, z);
  }

  lemma LowerOfNamed(w: string, digits: string, rest: string)
    requires AllDigits(digits)
    ensures AsciiLowerAll("_" + w + digits + rest)
         == "_" + (AsciiLowerAll(w) + (digits + AsciiLowerAll(rest)))
  {
    hide AsciiLowerAll;
    LowerAppend("_" + w + digits, rest);
    LowerAppend("_" + w, digits);
    LowerAppend("_", w);
    LowerDigits(digits);
    assert AsciiLowerAll("_") == "_" by { LowerUnderscore(); }
    Joined(AsciiLowerAll(w), digits, AsciiLowerAll(rest));
  }

  lemma LowerUnderscore()
    ensures AsciiLowerAll("_") == "_"
  {
  }

  lemma Cut(s: string, o: nat, a: string, b: string)
    requires o <= |s| && s[o..] == a + b
    ensures o + |a| <= |s| && a <= s[o..] && s[o + |a|..] == b
    ensures a != "" ==> s[o] == a[0]
  {
    assert |s[o..]| == |a| + |b|;
    assert s[o + |a|..] == s[o..][|a|..];
    if a != "" {
      assert s[o] == s[o..][0];
    }
  }

  /** The lower case of a text that stands at a place, character by character. */
  lemma LowersHere(lower: string, o: nat, t: string)
    requires o <= |lower| && lower[o..] == AsciiLowerAll(t)
    ensures |lower| == o + |t| && forall i :: 0 <= i < |t| ==> lower[o + i] == AsciiLower(t[i])
  {
    assert forall i :: 0 <= i < |t| ==> lower[o + i] == lower[o..][i];
  }

  lemma UnderscoreBeforeWord(lower: string, o: nat, w: string, t: string)
    requires o + |t| == |lower| && (forall i :: 0 <= i < |t| ==> lower[o + i] == AsciiLower(t[i]))
    requires AllLetters(w) && "_" + w <= t
    ensures lower[o] == '_' && !IsTail(lower, o) && !IsLetter(lower[o])
  {
    assert t[0] == '_' && t[2] == w[1] && IsLetter(w[1]);
    assert lower[o + 0] == AsciiLower(t[0]) && lower[o + 2] == AsciiLower(t[2]);
    LettersLower(t[2]);
  }

  lemma AfterWord(lower: string, o: nat, w: string, digits: string, rest: string, t: string)
    requires t == "_" + w + digits + rest && o + |t| == |lower| && AllDigits(digits)
    requires forall i :: 0 <= i < |t| ==> lower[o + i] == AsciiLower(t[i])
    requires rest == "" || rest[0] == '_' || digits != ""
    ensures o + 1 + |w| == |lower| || !IsLetter(lower[o + 1 + |w|])
  {
    if o + 1 + |w| < |lower| {
      var i := 1 + |w|;
      assert lower[o + i] == AsciiLower(t[i]);
      assert t[i] == if digits != "" then digits[0] else rest[0];
      LettersLower(t[i]);
    }
  }

  /** From any place where parts of a name stand in any case, the name is given from there on. */
  lemma {:induction false} PartsRecased(lower: string, s: string, o: nat, parts: seq<Part>, mark: string)
    requires lower == AsciiLowerAll(s) && o <= |s| && lower[o..] == AsciiLowerAll(NameText(parts, mark))
    requires mark == "" || mark == "RRef" || mark == "TRef"
    requires parts == [] || ProperName(parts, mark)
    ensures Recased(lower, s, o) == NameText(parts, mark)
    decreases |parts|
  {
    hide Recased, WORDS, AsciiLowerAll, Proper, ScalarText.AllDigits, AsciiLower;
    if parts == [] {
      if mark == "" {
        NothingLower(lower, o);
        AtEnd(lower, s, o);
      } else {
        MarkRecased(lower, s, o, mark);
      }
    } else {
      var rest := NameText(parts[1..], mark);
      RestIsProper(parts, mark);
      if parts[0].Named? {
        var w, digits := parts[0].word, parts[0].digits;
        FirstIsProper(parts[0]);
        NamedRecased(lower, s, o, w, digits, rest);
        PartsRecased(lower, s, o + 1 + |w| + |digits|, parts[1..], mark);
      } else {
        FirstIsProper(parts[0]);
        MemberRecased(lower, s, o, parts[0].letter, rest);
        PartsRecased(lower, s, o + 2, parts[1..], mark);
      }
    }
  }

  lemma FirstIsProper(p: Part)
    requires Proper(p)
    ensures if p.Named? then p.word in WORDS && AllDigits(p.digits) else p.letter in "SRLNT"
  {
    hide WORDS, AllDigits;
  }

  lemma NothingLower(lower: string, o: nat)
    requires o <= |lower| && lower[o..] == AsciiLowerAll("")
    ensures o == |lower|
  {
  }

  lemma RestIsProper(parts: seq<Part>, mark: string)
    requires parts != [] && ProperName(parts, mark)
    ensures var rest := NameText(parts[1..], mark);
            && (parts[1..] == [] || ProperName(parts[1..], mark))
            && (rest == "" || rest[0] == '_' || (parts[0].Named? && parts[0].digits != ""))
  {
    hide Proper;
    if parts[1..] != [] {
      assert forall i :: 0 <= i < |parts[1..]| ==> parts[1..][i] == parts[i + 1];
      assert PartText(parts[1])[0] == '_';
    }
  }

  /** A name in any mixture of cases is recased to its canonical form. */
  lemma NamesAreRestored(parts: seq<Part>, mark: string, s: string)
    requires ProperName(parts, mark) && parts != [] && AsciiLowerAll(s) == AsciiLowerAll(NameText(parts, mark))
    ensures Canonical(s) == NameText(parts, mark)
  {
    hide Recased, AsciiLowerAll;
    assert AsciiLowerAll(s)[0..] == AsciiLowerAll(s);
    PartsRecased(AsciiLowerAll(s), s, 0, parts, mark);
  }

  // ---- logical names ----

  const COMPOUND_MEMBERS: seq<string> := ["_TYPE", "_RTRef", "_RRRef", "_RRef", "_TRef", "_S", "_R", "_L", "_N", "_T"]
  const REFERENCE_MARKS: seq<string> := ["RRef", "TRef", "RTRef", "RRRef"]

  predicate NoDigits(s: string) {
    forall i :: 0 <= i < |s| ==> !('0' <= s[i] <= '9')
  }

  /** Behind a digit, what a name ends with is what the suffix ends with. */
  lemma EndsByItself(base: string, suffix: string, other: string)
    requires base != "" && '0' <= base[|base| - 1] <= '9' && NoDigits(other)
    ensures LogicalFields.EndsWith(base + suffix, other) <==> LogicalFields.EndsWith(suffix, other)
  {
    var s := base + suffix;
    if |other| <= |suffix| {
      assert s[|s| - |other|..] == suffix[|suffix| - |other|..];
    } else if |other| <= |s| {
      var i := |other| - |suffix| - 1;
      assert s[|s| - |other|..][i] == base[|base| - 1];
    }
  }

  /** The first of the suffixes that this one ends with is this one. */
  predicate ComesFirst(suffix: string, suffixes: seq<string>)
    decreases |suffixes|
  {
    && suffixes != []
    && (suffixes[0] == suffix || (!LogicalFields.EndsWith(suffix, suffixes[0]) && ComesFirst(suffix, suffixes[1..])))
  }

  lemma {:induction false} SuffixDropped(base: string, suffix: string, suffixes: seq<string>)
    requires base != "" && '0' <= base[|base| - 1] <= '9' && ComesFirst(suffix, suffixes)
    requires forall k :: 0 <= k < |suffixes| ==> NoDigits(suffixes[k])
    ensures LogicalFields.WithoutSuffix(base + suffix, suffixes) == base
    decreases |suffixes|
  {
    hide NoDigits, LogicalFields.EndsWith;
    EndsByItself(base, suffix, suffixes[0]);
    if suffixes[0] != suffix {
      SuffixDropped(base, suffix, suffixes[1..]);
    } else {
      EndsWithItself(suffix);
      assert (base + suffix)[..|base|] == base;
    }
  }

  lemma EndsWithItself(suffix: string)
    ensures LogicalFields.EndsWith(suffix, suffix)
  {
  }

  lemma {:induction false} NothingDropped(base: string, suffixes: seq<string>)
    requires base != "" && '0' <= base[|base| - 1] <= '9'
    requires forall k :: 0 <= k < |suffixes| ==> suffixes[k] != "" && NoDigits(suffixes[k])
    ensures LogicalFields.WithoutSuffix(base, suffixes) == base
    decreases |suffixes|
  {
    hide NoDigits, LogicalFields.EndsWith;
    if suffixes != [] {
      EndsByItself(base, "", suffixes[0]);
      assert base + "" == base;
      NothingEndsSo(suffixes[0]);
      NothingDropped(base, suffixes[1..]);
    }
  }

  lemma NothingEndsSo(suffix: string)
    requires suffix != ""
    ensures !LogicalFields.EndsWith("", suffix)
  {
  }

  lemma SuffixesArePlain()
    ensures forall k :: 0 <= k < |LogicalFields.SUFFIXES| ==>
              LogicalFields.SUFFIXES[k] != "" && NoDigits(LogicalFields.SUFFIXES[k])
  {
  }

  /** No suffix of the list ends with an earlier one. */
  lemma NoEarlierOne()
    ensures forall i, j :: 0 <= i < j < |LogicalFields.SUFFIXES| ==>
              !LogicalFields.EndsWith(LogicalFields.SUFFIXES[j], LogicalFields.SUFFIXES[i])
  {
  }

  lemma {:induction false} SuffixComesFirst(j: nat, i: nat)
    requires i <= j < |LogicalFields.SUFFIXES|
    ensures ComesFirst(LogicalFields.SUFFIXES[j], LogicalFields.SUFFIXES[i..])
    decreases j - i
  {
    hide LogicalFields.SUFFIXES, LogicalFields.EndsWith;
    NoEarlierOne();
    if i < j {
      SuffixComesFirst(j, i + 1);
    }
  }

  lemma MemberIsSuffix(suffix: string) returns (j: nat)
    requires suffix in COMPOUND_MEMBERS || suffix in REFERENCE_MARKS
    ensures j < |LogicalFields.SUFFIXES| && LogicalFields.SUFFIXES[j] == suffix
  {
    j := if suffix == "_RRRef" then 0 else if suffix == "_RTRef" then 1 else if suffix == "_TYPE" then 2
         else if suffix == "_RRef" then 3 else if suffix == "_TRef" then 4 else if suffix == "_L" then 5
         else if suffix == "_N" then 6 else if suffix == "_T" then 7 else if suffix == "_S" then 8
         else if suffix == "_R" then 9 else if suffix == "RRRef" then 10 else if suffix == "RTRef" then 11
         else if suffix == "RRef" then 12 else 13;
  }

  /** A numbered column, its compound members and its reference columns have one logical name: its own, bare. */
  lemma MembersShareName(base: string, suffix: string)
    requires |base| > 1 && base[0] == '_' && '0' <= base[|base| - 1] <= '9'
    requires suffix == "" || suffix in COMPOUND_MEMBERS || suffix in REFERENCE_MARKS
    ensures LogicalFields.LogicalName(base + suffix) == base[1..]
  {
    hide LogicalFields.SUFFIXES, LogicalFields.WithoutSuffix, COMPOUND_MEMBERS, REFERENCE_MARKS, NoDigits;
    SuffixesArePlain();
    if suffix == "" {
      assert base + "" == base;
      NothingDropped(base, LogicalFields.SUFFIXES);
    } else {
      var j := MemberIsSuffix(suffix);
      SuffixComesFirst(j, 0);
      assert LogicalFields.SUFFIXES[0..] == LogicalFields.SUFFIXES;
      SuffixDropped(base, suffix, LogicalFields.SUFFIXES);
    }
  }

  /** A member with no column before it belongs to the field "Type". */
  lemma BareMembersAreType(suffix: string)
    requires suffix in COMPOUND_MEMBERS || suffix in REFERENCE_MARKS
    ensures LogicalFields.LogicalName(suffix) == "Type"
  {
    hide LogicalFields.SUFFIXES, LogicalFields.WithoutSuffix, COMPOUND_MEMBERS, REFERENCE_MARKS;
    var j := MemberIsSuffix(suffix);
    SuffixComesFirst(j, 0);
    assert LogicalFields.SUFFIXES[0..] == LogicalFields.SUFFIXES;
    WholeDropped(suffix, LogicalFields.SUFFIXES);
  }

  lemma {:induction false} WholeDropped(suffix: string, suffixes: seq<string>)
    requires ComesFirst(suffix, suffixes)
    ensures LogicalFields.WithoutSuffix(suffix, suffixes) == ""
    decreases |suffixes|
  {
    hide LogicalFields.EndsWith;
    if suffixes[0] == suffix {
      EndsWithItself(suffix);
    } else {
      WholeDropped(suffix, suffixes[1..]);
    }
  }
}
