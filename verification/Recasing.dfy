/** The canonical spelling of physical column names, and the logical fields columns belong to. */
module Recasing {
  import opened Outcomes
  import opened Slices
  import opened Scalars

  /** The words with a canonical spelling; a word is matched by its lower case, in this order. */
  const WORDS: seq<string> := [
    "UsersWorkHistory", "DocumentJournal", "Description", "PredefinedID", "NumberPrefix", "Recorder", "Reference",
    "Document", "AccumRg", "InfoRg", "IDRRef", "LineNo", "CKinds", "AccRg", "RRRef", "RTRef", "ChngR", "Version",
    "Marked", "Const", "RecordKey", "SeqB", "TRef", "RRef", "TYPE", "Chrc", "Number", "Period", "Posted", "Active",
    "CRg", "Acc", "Enum", "Node", "Task", "Code", "BPr", "Seq", "Fld", "VT"]

  /** Where a word may stand: two anywhere, two at the end too, the others only after a boundary. */
  predicate WordMatches(lower: string, o: nat, word: string)
    requires o <= |lower|
  {
    && AsciiLowerAll(word) <= lower[o..]
    && (|| word in {"ChngR", "VT"}
        || o == 0 || lower[o - 1] == '_'
        || (word in {"RRef", "TRef"} && o + |word| == |lower|))
  }

  function FindWord(lower: string, o: nat, words: seq<string>): (word: Option<string>)
    requires o <= |lower|
    ensures word.Some? ==> word.value in words && WordMatches(lower, o, word.value)
  {
    if words == [] then None
    else if words[0] != "" && WordMatches(lower, o, words[0]) then Some(words[0])
    else FindWord(lower, o, words[1..])
  }

  function AsciiUpper(c: char): (r: char)
  {
    if 'a' <= c <= 'z' then (c as int - 32) as char else c
  }

  /** A lone letter between underscores, or after the last one: the tail of a compound column. */
  predicate IsTail(lower: string, o: nat) {
    o + 1 < |lower| && lower[o] == '_' && lower[o + 1] in "srlnt" && (o + 2 == |lower| || lower[o + 2] == '_')
  }

  /** The spelling of what stands at a place, by the lower case of the whole name. */
  function Piece(lower: string, s: string, o: nat): (p: string)
    requires |lower| == |s| && o < |s|
    ensures p != [] && o + |p| <= |s|
  {
    var word := FindWord(lower, o, WORDS);
    if word.Some? && word.value != "" then
      assert |AsciiLowerAll(word.value)| <= |lower[o..]|;
      word.value
    else if IsTail(lower, o) then ['_', AsciiUpper(lower[o + 1])]
    else [s[o]]
  }

  function Recased(lower: string, s: string, o: nat): (r: string)
    requires |lower| == |s| && o <= |s|
    decreases |s| - o
  {
    if o == |s| then [] else Piece(lower, s, o) + Recased(lower, s, o + |Piece(lower, s, o)|)
  }

  function Canonical(s: string): (r: string) {
    Recased(AsciiLowerAll(s), s, 0)
  }

  // ---- the longest word ----

  /** The first word is no prefix of the second, ignoring ASCII case. */
  predicate NoPrefix(a: string, b: string) {
    |a| > |b| || exists k :: 0 <= k < |a| && AsciiLower(a[k]) != AsciiLower(b[k])
  }

  /** No word is a prefix of a later one. */
  predicate LongestFirst(words: seq<string>) {
    forall i, j :: 0 <= i < j < |words| ==> NoPrefix(words[i], words[j])
  }

  lemma NoPrefixStands(lower: string, o: nat, a: string, b: string)
    requires o <= |lower| && NoPrefix(a, b) && AsciiLowerAll(a) <= lower[o..] && AsciiLowerAll(b) <= lower[o..]
    ensures |b| < |a|
  {
    StandsLetterByLetter(lower, o, a);
    StandsLetterByLetter(lower, o, b);
  }

  lemma StandsLetterByLetter(lower: string, o: nat, word: string)
    requires o <= |lower| && AsciiLowerAll(word) <= lower[o..]
    ensures o + |word| <= |lower| && forall k :: 0 <= k < |word| ==> AsciiLower(word[k]) == lower[o + k]
  {
    forall k | 0 <= k < |word|
      ensures AsciiLower(word[k]) == lower[o + k]
    {
      assert AsciiLowerAll(word)[k] == lower[o..][k];
    }
  }

  /** The word found is the longest of those that match. */
  lemma {:induction false} FindWordIsLongest(lower: string, o: nat, words: seq<string>, v: string)
    requires o <= |lower| && LongestFirst(words) && v in words && v != "" && WordMatches(lower, o, v)
    ensures FindWord(lower, o, words).Some? && |v| <= |FindWord(lower, o, words).value|
    decreases |words|
  {
    hide AsciiLower, NoPrefix;
    var w := words[0];
    if w != "" && WordMatches(lower, o, w) {
      if v != w {
        var j :| 0 < j < |words| && words[j] == v;
        NoPrefixStands(lower, o, w, v);
      }
    } else {
      FindWordIsLongest(lower, o, words[1..], v);
    }
  }

  /** The first two letters of every word, as one number, and its length. */
  const OPENINGS: seq<int> := [
    117115, 100111, 100101, 112114, 110117, 114101, 114101, 100111, 97099, 105110, 105100, 108105, 99107, 97099,
    114114, 114116, 99104, 118101, 109097, 99111, 114101, 115101, 116114, 114114, 116121, 99104, 110117, 112101,
    112111, 97099, 99114, 97099, 101110, 110111, 116097, 99111, 98112, 115101, 102108, 118116]

  const LENGTHS: seq<int> := [
    16, 15, 11, 12, 12, 8, 9, 8, 7, 6, 6, 6, 6, 5, 5, 5, 5, 7, 6, 5, 9, 4, 4, 4, 4, 4, 6, 6, 6, 6, 3, 3, 4, 4, 4, 4, 3,
    3, 3, 2]

  function Opening(a: char, b: char): int {
    AsciiLower(a) as int * 1000 + AsciiLower(b) as int
  }

  lemma WordsHaveLengths()
    ensures |WORDS| == 40 && forall i :: 0 <= i < 40 ==> |WORDS[i]| == LENGTHS[i] >= 2
  {
  }

  predicate OpensAs(i: nat)
    requires i < |WORDS| == |OPENINGS|
  {
    |WORDS[i]| >= 2 && Opening(WORDS[i][0], WORDS[i][1]) == OPENINGS[i]
  }

  lemma FirstWordsOpen()
    ensures |WORDS| == |OPENINGS| == 40 && forall i :: 0 <= i < 20 ==> OpensAs(i)
  {
  }

  lemma LastWordsOpen()
    ensures |WORDS| == |OPENINGS| == 40 && forall i :: 20 <= i < 40 ==> OpensAs(i)
  {
  }

  lemma WordsAreThese()
    ensures |WORDS| == 40
    ensures forall i :: 0 <= i < 40 ==>
              |WORDS[i]| == LENGTHS[i] >= 2 && Opening(WORDS[i][0], WORDS[i][1]) == OPENINGS[i]
  {
    hide WORDS, LENGTHS, OPENINGS, Opening;
    WordsHaveLengths();
    FirstWordsOpen();
    LastWordsOpen();
    forall i | 0 <= i < 40
      ensures Opening(WORDS[i][0], WORDS[i][1]) == OPENINGS[i]
    {
      assert OpensAs(i);
    }
  }

  /** Words i and j open alike, and the later one is not shorter. */
  predicate Alike(i: int, j: int)
    requires 0 <= i < j < 40
  {
    OPENINGS[i] == OPENINGS[j] && LENGTHS[i] <= LENGTHS[j]
  }

  lemma AlikeFrom0()
    ensures forall i, j :: 0 <= i < 2 && i < j < 40 ==> !Alike(i, j)
  {
  }

  lemma AlikeFrom2()
    ensures forall i, j :: 2 <= i < 5 && i < j < 40 ==> !Alike(i, j)
  {
  }

  lemma AlikeFrom5()
    ensures forall i, j :: 5 <= i < 7 && i < j < 40 && Alike(i, j) ==>
              (i == 5 && (j == 6 || j == 20)) || (i == 6 && j == 20)
  {
  }

  lemma AlikeFrom7()
    ensures forall i, j :: 7 <= i < 10 && i < j < 40 ==> !Alike(i, j)
  {
  }

  lemma AlikeFrom10()
    ensures forall i, j :: 10 <= i < 13 && i < j < 40 ==> !Alike(i, j)
  {
  }

  lemma AlikeFrom13()
    ensures forall i, j :: 13 <= i < 16 && i < j < 40 && Alike(i, j) ==> i == 13 && j == 29
  {
  }

  lemma AlikeFrom16()
    ensures forall i, j :: 16 <= i < 20 && i < j < 40 ==> !Alike(i, j)
  {
  }

  lemma AlikeFrom20()
    ensures forall i, j :: 20 <= i < 25 && i < j < 40 ==> !Alike(i, j)
  {
  }

  lemma AlikeFrom25()
    ensures forall i, j :: 25 <= i < 30 && i < j < 40 ==> !Alike(i, j)
  {
  }

  lemma AlikeFrom30()
    ensures forall i, j :: 30 <= i < 40 && i < j < 40 ==> !Alike(i, j)
  {
  }

  /** Words that open alike come longest first, but for four pairs that differ later. */
  lemma AlikeIsLongestFirst(i: int, j: int)
    requires 0 <= i < j < 40 && Alike(i, j)
    ensures (i == 5 && (j == 6 || j == 20)) || (i == 6 && j == 20) || (i == 13 && j == 29)
  {
    hide Alike;
    AlikeFrom0();
    AlikeFrom2();
    AlikeFrom5();
    AlikeFrom7();
    AlikeFrom10();
    AlikeFrom13();
    AlikeFrom16();
    AlikeFrom20();
    AlikeFrom25();
    AlikeFrom30();
  }

  lemma OpensDifferently(a: string, b: string)
    requires |a| >= 2 && |b| >= 2 && Opening(a[0], a[1]) != Opening(b[0], b[1])
    ensures NoPrefix(a, b)
  {
    assert AsciiLower(a[0]) != AsciiLower(b[0]) || AsciiLower(a[1]) != AsciiLower(b[1]);
  }

  lemma FourPairs()
    ensures WORDS[5] == "Recorder" && WORDS[6] == "Reference" && WORDS[20] == "RecordKey"
    ensures WORDS[13] == "AccRg" && WORDS[29] == "Active"
    ensures NoPrefix("Recorder", "Reference") && NoPrefix("Recorder", "RecordKey")
    ensures NoPrefix("Reference", "RecordKey") && NoPrefix("AccRg", "Active")
  {
    assert AsciiLower("Recorder"[2]) != AsciiLower("Reference"[2]);
    assert AsciiLower("Recorder"[6]) != AsciiLower("RecordKey"[6]);
    assert AsciiLower("Reference"[2]) != AsciiLower("RecordKey"[2]);
    assert AsciiLower("AccRg"[2]) != AsciiLower("Active"[2]);
  }

  lemma WordsAreLongestFirst()
    ensures LongestFirst(WORDS)
  {
    hide WORDS, OPENINGS, LENGTHS, NoPrefix, Opening;
    WordsAreThese();
    FourPairs();
    forall i, j | 0 <= i < j < |WORDS|
      ensures NoPrefix(WORDS[i], WORDS[j])
    {
      if Opening(WORDS[i][0], WORDS[i][1]) != Opening(WORDS[j][0], WORDS[j][1]) {
        OpensDifferently(WORDS[i], WORDS[j]);
      } else {
        if |WORDS[i]| > |WORDS[j]| {
          LongerIsNoPrefix(WORDS[i], WORDS[j]);
        } else {
          AlikeIsLongestFirst(i, j);
        }
      }
    }
  }

  lemma LongerIsNoPrefix(a: string, b: string)
    requires |a| > |b|
    ensures NoPrefix(a, b)
  {
  }

  /** Known words are matched longest first: the word chosen is the longest that matches at the place. */
  lemma LongestWordChosen(lower: string, o: nat, v: string)
    requires o <= |lower| && v in WORDS && WordMatches(lower, o, v)
    ensures FindWord(lower, o, WORDS).Some? && |v| <= |FindWord(lower, o, WORDS).value|
  {
    hide WORDS, FindWord, WordMatches;
    WordsAreLongestFirst();
    WordsAreThese();
    FindWordIsLongest(lower, o, WORDS, v);
  }

  // ---- the case alone changes ----

  lemma LowerOfAppend(a: string, b: string)
    ensures AsciiLowerAll(a + b) == AsciiLowerAll(a) + AsciiLowerAll(b)
  {
  }

  lemma TailKeepsLetters(lower: string, o: nat)
    requires IsTail(lower, o)
    ensures AsciiLowerAll(['_', AsciiUpper(lower[o + 1])]) == lower[o..o + 2]
  {
    assert lower[o..o + 2] == ['_', lower[o + 1]];
  }

  lemma LetterKept(lower: string, s: string, o: nat)
    requires lower == AsciiLowerAll(s) && o < |s|
    ensures AsciiLowerAll([s[o]]) == lower[o..o + 1]
  {
    assert lower[o..o + 1] == [lower[o]];
  }

  lemma PieceKeepsLetters(lower: string, s: string, o: nat)
    requires lower == AsciiLowerAll(s) && o < |s|
    ensures AsciiLowerAll(Piece(lower, s, o)) == lower[o..o + |Piece(lower, s, o)|]
  {
    hide FindWord, AsciiLower, IsTail, WORDS;
    var p := Piece(lower, s, o);
    var word := FindWord(lower, o, WORDS);
    if word.Some? && word.value != "" {
      assert AsciiLowerAll(p) <= lower[o..];
      assert lower[o..][..|p|] == lower[o..o + |p|];
    } else if IsTail(lower, o) {
      TailKeepsLetters(lower, o);
    } else {
      LetterKept(lower, s, o);
    }
  }

  /** Recasing keeps the length and every letter but for its ASCII case. */
  lemma {:induction false} RecasedKeepsLetters(lower: string, s: string, o: nat)
    requires lower == AsciiLowerAll(s) && o <= |s|
    ensures AsciiLowerAll(Recased(lower, s, o)) == lower[o..]
    ensures |Recased(lower, s, o)| == |s| - o
    decreases |s| - o
  {
    hide Piece, AsciiLower;
    if o < |s| {
      var p := Piece(lower, s, o);
      PieceKeepsLetters(lower, s, o);
      RecasedKeepsLetters(lower, s, o + |p|);
      LowerOfAppend(p, Recased(lower, s, o + |p|));
      assert lower[o..] == lower[o..o + |p|] + lower[o + |p|..];
    }
  }

  // ---- recasing twice ----

  /** A piece depends on the lower case, and on the character itself where it is left as it was. */
  lemma PieceAgain(lower: string, s: string, t: string, o: nat)
    requires |lower| == |s| == |t| && o < |s| && Piece(lower, s, o) <= t[o..]
    ensures Piece(lower, t, o) == Piece(lower, s, o)
  {
    hide FindWord, WordMatches, IsTail;
    assert t[o..][0] == t[o];
  }

  lemma {:induction false} RecasedAgain(lower: string, s: string, t: string, o: nat)
    requires |lower| == |s| == |t| && o <= |s| && t[o..] == Recased(lower, s, o)
    ensures Recased(lower, t, o) == t[o..]
    decreases |s| - o
  {
    hide Piece;
    if o < |s| {
      var p := Piece(lower, s, o);
      PieceAgain(lower, s, t, o);
      assert t[o + |p|..] == t[o..][|p|..];
      RecasedAgain(lower, s, t, o + |p|);
    }
  }

  /** Recasing is idempotent, keeps the length and changes the ASCII case alone. */
  lemma CanonicalIsIdempotent(s: string)
    ensures Canonical(Canonical(s)) == Canonical(s)
    ensures |Canonical(s)| == |s| && AsciiLowerAll(Canonical(s)) == AsciiLowerAll(s)
  {
    hide Recased, AsciiLower;
    var lower, t := AsciiLowerAll(s), Canonical(s);
    RecasedKeepsLetters(lower, s, 0);
    assert lower[0..] == lower && t[0..] == t;
    RecasedAgain(lower, s, t, 0);
  }

  method RecaseIdentifier(s: string) returns (output: string)
    ensures output == Canonical(s)
  {
    hide Piece, FindWord, WordMatches, IsTail, WORDS, AsciiLowerAll, AsciiLower;
    var lower := AsciiLowerAll(s);
    output := [];
    var o := 0;
    assert [] + Recased(lower, s, 0) == Recased(lower, s, 0);
    while o < |s|
      invariant o <= |s| && output + Recased(lower, s, o) == Recased(lower, s, 0)
      decreases |s| - o
    {
      var piece := Piece(lower, s, o);
      Regroup(output, piece, Recased(lower, s, o + |piece|));
      output := output + piece;
      o := o + |piece|;
    }
    assert output + [] == output;
  }
}
