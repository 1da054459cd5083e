/** Case-insensitive names: the comparison and the hash key that stands for it. */
module Names {
  import opened Scalars

  /** The lower case of one character, which can be several characters. */
  type LowerTable = char -> string

  /** The table agrees with ASCII on ASCII. */
  ghost predicate AgreesOnAscii(lower: LowerTable) {
    forall c: char :: c < 128 as char ==> lower(c) == [AsciiLower(c)]
  }

  predicate IsAscii(s: string) {
    forall i :: 0 <= i < |s| ==> s[i] < 128 as char
  }

  function LowerAll(s: string, lower: LowerTable): string {
    if s == [] then [] else lower(s[0]) + LowerAll(s[1..], lower)
  }

  predicate EqualIgnoringAsciiCase(a: string, b: string) {
    |a| == |b| && forall i :: 0 <= i < |a| ==> AsciiLower(a[i]) == AsciiLower(b[i])
  }

  predicate NamesEqual(a: string, b: string, lower: LowerTable) {
    if IsAscii(a) && IsAscii(b) then EqualIgnoringAsciiCase(a, b) else LowerAll(a, lower) == LowerAll(b, lower)
  }

  function FoldedName(s: string, lower: LowerTable): (key: string) {
    if IsAscii(s) then AsciiLowerAll(s) else LowerAll(s, lower)
  }

  lemma {:induction false} AsciiFoldsAsTheTable(s: string, lower: LowerTable)
    requires AgreesOnAscii(lower) && IsAscii(s)
    ensures LowerAll(s, lower) == AsciiLowerAll(s)
  {
    if s != [] {
      assert s[0] < 128 as char;
      assert IsAscii(s[1..]) by {
        assert forall i :: 0 <= i < |s[1..]| ==> s[1..][i] == s[i + 1];
      }
      AsciiFoldsAsTheTable(s[1..], lower);
      assert AsciiLowerAll(s) == [AsciiLower(s[0])] + AsciiLowerAll(s[1..]);
    }
  }

  /** The key identifies exactly the names that compare equal. */
  lemma KeyStandsForEquality(a: string, b: string, lower: LowerTable)
    requires AgreesOnAscii(lower)
    ensures NamesEqual(a, b, lower) <==> FoldedName(a, lower) == FoldedName(b, lower)
  {
    if IsAscii(a) {
      AsciiFoldsAsTheTable(a, lower);
    }
    if IsAscii(b) {
      AsciiFoldsAsTheTable(b, lower);
    }
    if IsAscii(a) && IsAscii(b) {
      SameLetters(a, b);
    }
  }

  lemma SameLetters(a: string, b: string)
    ensures EqualIgnoringAsciiCase(a, b) <==> AsciiLowerAll(a) == AsciiLowerAll(b)
  {
    if AsciiLowerAll(a) == AsciiLowerAll(b) {
      forall i | 0 <= i < |a|
        ensures AsciiLower(a[i]) == AsciiLower(b[i])
      {
        assert AsciiLowerAll(a)[i] == AsciiLowerAll(b)[i];
      }
    }
  }

  /** Drops the underscore the live catalogue puts before a name. */
  function StripUnderscore(s: string): (r: string) {
    if s != [] && s[0] == '_' then s[1..] else s
  }

  function Decimal(n: nat): (s: string)
  {
    if n < 10 then [(n + '0' as int) as char] else Decimal(n / 10) + [(n % 10 + '0' as int) as char]
  }
}
