/**
 * The Base64 text of a key by the letters of the alphabet and the value of each group
 * (section 4 of RFC 4648), and every text that is read as a key.
 */
module KeyText {
  import opened Bits
  import opened ContentKeys
  import opened Outcomes

  // ---- the alphabet ----

  const CAPITALS := "ABCDEFGHIJKLMNOPQRSTUVWXYZ"
  const SMALLS := "abcdefghijklmnopqrstuvwxyz"
  const OTHERS := "0123456789+/"
  const ALPHABET := CAPITALS + SMALLS + OTHERS

  lemma AlphabetLength()
    ensures |CAPITALS| == |SMALLS| == 26 && |OTHERS| == 12 && |ALPHABET| == 64
  {
  }

  lemma CapitalLetters(v: Sextet)
    requires v < 26
    ensures |CAPITALS| == 26 && Letter(v) == CAPITALS[v]
  {
  }

  lemma SmallLetters(v: Sextet)
    requires 26 <= v < 52
    ensures |SMALLS| == 26 && Letter(v) == SMALLS[v - 26]
  {
  }

  lemma OtherLetters(v: Sextet)
    requires 52 <= v
    ensures |OTHERS| == 12 && Letter(v) == OTHERS[v - 52]
  {
  }

  lemma LetterExactly(v: Sextet)
    ensures |ALPHABET| == 64 && Letter(v) == ALPHABET[v]
  {
    hide Letter, CAPITALS, SMALLS, OTHERS;
    AlphabetLength();
    if v < 26 {
      CapitalLetters(v);
    } else if v < 52 {
      SmallLetters(v);
    } else {
      OtherLetters(v);
    }
  }

  lemma ValueExactly(c: char, v: Sextet)
    ensures |ALPHABET| == 64 && (LetterValue(c) == Some(v) <==> c == ALPHABET[v])
  {
    hide ALPHABET;
    AlphabetLength();
    LetterExactly(v);
    if LetterValue(c) == Some(v) {
      LetterOfValue(c);
    }
  }

  // ---- groups ----

  /** The letter for six bits of a 24-bit value, counted in sextets from the lowest. */
  function SixBits(value: nat, place: nat): (c: char)
    requires place < 4
  {
    AlphabetLength();
    if place == 0 then ALPHABET[value % 64]
    else if place == 1 then ALPHABET[value / 64 % 64]
    else if place == 2 then ALPHABET[value / 4096 % 64]
    else ALPHABET[value / 262144 % 64]
  }

  /** Four letters for every three bytes, the first byte highest; equals signs fill a short last group. */
  function Encoded(b: seq<Byte>): (t: string)
    ensures 3 * |t| >= 4 * |b|
  {
    if b == [] then ""
    else if |b| == 1 then
      var value := b[0] as int * 65536;
      [SixBits(value, 3), SixBits(value, 2), '=', '=']
    else if |b| == 2 then
      var value := b[0] as int * 65536 + b[1] as int * 256;
      [SixBits(value, 3), SixBits(value, 2), SixBits(value, 1), '=']
    else
      var value := b[0] as int * 65536 + b[1] as int * 256 + b[2];
      [SixBits(value, 3), SixBits(value, 2), SixBits(value, 1), SixBits(value, 0)] + Encoded(b[3..])
  }

  lemma GroupLetters(a: Byte, b: Byte, c: Byte)
    ensures var value: nat := a as int * 65536 + b as int * 256 + c as int;
            && Letter(Group(a, b, c)[0]) == SixBits(value, 3) && Letter(Group(a, b, c)[1]) == SixBits(value, 2)
            && Letter(Group(a, b, c)[2]) == SixBits(value, 1) && Letter(Group(a, b, c)[3]) == SixBits(value, 0)
  {
    hide Letter, ALPHABET, Group;
    AlphabetLength();
    BlockSextets(a, b, c, 0);
    BlockSextets(a, b, c, 1);
    BlockSextets(a, b, c, 2);
    BlockSextets(a, b, c, 3);
    LetterExactly(Group(a, b, c)[0]);
    LetterExactly(Group(a, b, c)[1]);
    LetterExactly(Group(a, b, c)[2]);
    LetterExactly(Group(a, b, c)[3]);
  }

  /** The text of bytes is the one the alphabet and the groups give. */
  lemma {:induction false} Base64Exactly(b: seq<Byte>)
    ensures Base64(b) == Encoded(b)
    decreases |b|
  {
    hide Letter, Group, SixBits;
    SextetsLength(b);
    if |b| >= 3 {
      GroupLetters(b[0], b[1], b[2]);
      LettersAppend(Group(b[0], b[1], b[2]), Sextets(b[3..]));
      Base64Exactly(b[3..]);
      SextetsLength(b[3..]);
      FourMore(b);
    } else if |b| == 2 {
      GroupLetters(b[0], b[1], 0);
    } else if |b| == 1 {
      GroupLetters(b[0], 0, 0);
    }
  }

  lemma FourMore(b: seq<Byte>)
    requires |b| >= 3
    ensures Base64(b) == Letters(Group(b[0], b[1], b[2])) + Base64(b[3..])
  {
    hide Letter, Group, Letters;
    LettersAppend(Group(b[0], b[1], b[2]), Sextets(b[3..]));
  }

  // ---- reading ----

  lemma {:induction false} LastSextet(b: seq<Byte>)
    requires |b| % 3 == 2
    ensures |Sextets(b)| % 4 == 3 && Sextets(b)[|Sextets(b)| - 1] as int == b[|b| - 1] as int % 16 * 4
    decreases |b|
  {
    if |b| > 2 {
      hide Group;
      LastSextet(b[3..]);
    }
  }

  lemma {:induction false} SameBytesRead(s: seq<Sextet>, t: seq<Sextet>)
    requires SameBytes(s, t)
    ensures BytesOf(s) == BytesOf(t)
    decreases |s|
  {
    if |s| >= 4 {
      forall i | 0 <= i < |s[4..]| && (i < |s[4..]| - 1 || |s[4..]| % 4 == 0)
        ensures s[4..][i] == t[4..][i]
      {
        assert s[i + 4] == t[i + 4];
      }
      SameBytesRead(s[4..], t[4..]);
    }
  }

  /** The last letter before the padding says the four low bits of the last byte, and two more that are not read. */
  predicate LastLetter(c: char, last: Byte) {
    AlphabetLength();
    exists v :: 0 <= v < 64 && v / 4 == last as int % 16 && c == ALPHABET[v]
  }

  /** The texts that are read as a key: 28 characters, the text of the key but for two spare bits. */
  predicate WritesKey(text: string, key: seq<Byte>) {
    && |key| == 20 && |text| == 28 && text[..26] == Encoded(key)[..26]
    && LastLetter(text[26], key[19]) && text[27] == '='
  }

  lemma DecodedExactly(text: string, key: seq<Byte>)
    ensures DecodedKey(text) == Some(key) <==> WritesKey(text, key)
  {
    hide BytesOf, Sextets, TrimPadding, LetterValue, Letter, Encoded;
    if DecodedKey(text) == Some(key) {
      DecodedIsWritten(text, key);
    }
    if WritesKey(text, key) {
      WrittenIsDecoded(text, key);
    }
  }

  lemma DecodedIsWritten(text: string, key: seq<Byte>)
    requires DecodedKey(text) == Some(key)
    ensures WritesKey(text, key)
  {
    hide BytesOf, Sextets, TrimPadding, LetterValue, Letter, Encoded, ALPHABET;
    ReadTextIsStandard(text);
    Base64Exactly(key);
    LastSextet(key);
    SextetsLength(key);
    AlphabetLength();
    assert Base64(key)[26] == Letter(Sextets(key)[26]);
    var v := LetterValue(text[26]).value;
    ValueExactly(text[26], v);
    assert text[26] == ALPHABET[v];
  }

  lemma WrittenIsDecoded(text: string, key: seq<Byte>)
    requires WritesKey(text, key)
    ensures DecodedKey(text) == Some(key)
  {
    hide BytesOf, Sextets, TrimPadding, LetterValue, Letter, Encoded, ALPHABET;
    var standard := Sextets(key);
    SextetsLength(key);
    LastSextet(key);
    Base64Exactly(key);
    AlphabetLength();
    var last :| 0 <= last < 64 && last / 4 == key[19] as int % 16 && text[26] == ALPHABET[last];
    LetterExactly(last);
    var s := standard[..26] + [last];
    assert Letters(s) + Equals(1) == text by {
      assert forall i :: 0 <= i < 26 ==>
          text[i] == text[..26][i] == Encoded(key)[..26][i] == Base64(key)[i] == Letter(s[i]);
    }
    ValuesOfLetters(s);
    TrimLetters(Letters(s), 1);
    assert SameBytes(s, standard);
    SameBytesRead(s, standard);
    BytesOfSextets(key);
  }
}
