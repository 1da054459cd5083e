/** The keys of extension resources in Base64 (section 4 of RFC 4648). */
module ContentKeys {
  import opened Outcomes
  import opened Slices
  import opened Bits

  const KEY_LENGTH := 20
  const TEXT_LENGTH := 28

  type Sextet = v: int | 0 <= v < 64

  function Letter(v: Sextet): (c: char)
    ensures LetterValue(c) == Some(v)
  {
    if v < 26 then ('A' as int + v) as char
    else if v < 52 then ('a' as int + v - 26) as char
    else if v < 62 then ('0' as int + v - 52) as char
    else if v == 62 then '+' else '/'
  }

  function LetterValue(c: char): (v: Option<Sextet>)
    ensures v.Some? ==> c != '='
  {
    if 'A' <= c <= 'Z' then Some(c as int - 'A' as int)
    else if 'a' <= c <= 'z' then Some(c as int - 'a' as int + 26)
    else if '0' <= c <= '9' then Some(c as int - '0' as int + 52)
    else if c == '+' then Some(62) else if c == '/' then Some(63) else None
  }

  lemma LetterOfValue(c: char)
    requires LetterValue(c).Some?
    ensures Letter(LetterValue(c).value) == c
  {
  }

  // ---- groups of three bytes and of four sextets ----

  /** Three bytes as four sextets, high bits first. */
  function Group(a: Byte, b: Byte, c: Byte): (s: seq<Sextet>)
    ensures |s| == 4
  {
    var x: int, y: int, z: int := a, b, c;
    [x / 4, x % 4 * 16 + y / 16, y % 16 * 4 + z / 64, z % 64]
  }

  function Ungroup(a: Sextet, b: Sextet, c: Sextet, d: Sextet): (r: seq<Byte>)
    ensures |r| == 3
  {
    var w: int, x: int, y: int, z: int := a, b, c, d;
    [w * 4 + x / 16, x % 16 * 16 + y / 4, y % 4 * 64 + z]
  }

  lemma Recombined(x: Byte)
    ensures x == x / 4 * 4 + x % 4 && x == x / 16 * 16 + x % 16 && x == x / 64 * 64 + x % 64
    ensures x / 4 < 64 && x / 16 < 16 && x / 64 < 4
  {
  }

  lemma Halves(high: nat, low: nat)
    requires low < 16
    ensures (high * 16 + low) / 16 == high && (high * 16 + low) % 16 == low
  {
  }

  lemma Quarters(high: nat, low: nat)
    requires low < 4
    ensures (high * 4 + low) / 4 == high && (high * 4 + low) % 4 == low
  {
  }

  lemma UngroupGroup(a: Byte, b: Byte, c: Byte)
    ensures Ungroup(Group(a, b, c)[0], Group(a, b, c)[1], Group(a, b, c)[2], Group(a, b, c)[3]) == [a, b, c]
    ensures c == 0 ==> Group(a, b, c)[3] == 0
    ensures b == 0 && c == 0 ==> Group(a, b, c)[2] == 0
  {
    Recombined(a);
    Recombined(b);
    Recombined(c);
    Halves(a as int % 4, b as int / 16);
    Quarters(b as int % 16, c as int / 64);
  }

  lemma GroupUngroup(a: Sextet, b: Sextet, c: Sextet, d: Sextet)
    ensures var r := Ungroup(a, b, c, d); Group(r[0], r[1], r[2]) == [a, b, c, d]
  {
    var r := Ungroup(a, b, c, d);
    var x: int, y: int, z: int := r[0], r[1], r[2];
    var w1: int, w2: int := b, c;
    assert w1 == w1 / 16 * 16 + w1 % 16 && w2 == w2 / 4 * 4 + w2 % 4;
    assert x / 4 == a && x % 4 == b / 16;
    assert y / 16 == b % 16 && y % 16 == c / 4;
    assert z / 64 == c % 4 && z % 64 == d;
  }

  /** The sextets that two bytes give depend on no other byte. */
  lemma GroupOfTwo(a: Byte, b: Byte, c: Byte)
    ensures Group(a, b, 0)[0] == Group(a, b, c)[0] && Group(a, b, 0)[1] == Group(a, b, c)[1]
    ensures Group(a, b, 0)[2] / 4 == Group(a, b, c)[2] / 4
  {
  }

  lemma GroupOfOne(a: Byte, b: Byte)
    ensures Group(a, 0, 0)[0] == Group(a, b, 0)[0] && Group(a, 0, 0)[1] / 16 == Group(a, b, 0)[1] / 16
  {
  }

  /** The sextets of bytes: a short last group is filled with zeros and cut after its own bits. */
  function Sextets(b: seq<Byte>): (s: seq<Sextet>)
  {
    if b == [] then []
    else if |b| == 1 then Group(b[0], 0, 0)[..2]
    else if |b| == 2 then Group(b[0], b[1], 0)[..3]
    else Group(b[0], b[1], b[2]) + Sextets(b[3..])
  }

  /** The bytes of sextets: whole bytes only. */
  function BytesOf(s: seq<Sextet>): (b: seq<Byte>)
  {
    if |s| < 2 then []
    else if |s| == 2 then Ungroup(s[0], s[1], 0, 0)[..1]
    else if |s| == 3 then Ungroup(s[0], s[1], s[2], 0)[..2]
    else Ungroup(s[0], s[1], s[2], s[3]) + BytesOf(s[4..])
  }

  lemma {:induction false} SextetsLength(b: seq<Byte>)
    ensures |Sextets(b)| == |b| / 3 * 4 + (if |b| % 3 == 0 then 0 else |b| % 3 + 1)
  {
    hide Group;
    if |b| >= 3 {
      SextetsLength(b[3..]);
    }
  }

  lemma {:induction false} BytesLength(s: seq<Sextet>)
    ensures |BytesOf(s)| == |s| * 3 / 4
  {
    hide Ungroup;
    if |s| >= 4 {
      BytesLength(s[4..]);
    }
  }

  lemma {:induction false} BytesOfSextets(b: seq<Byte>)
    ensures BytesOf(Sextets(b)) == b
  {
    hide Group, Ungroup;
    if |b| >= 3 {
      UngroupGroup(b[0], b[1], b[2]);
      BytesOfSextets(b[3..]);
      var group := Group(b[0], b[1], b[2]);
      assert (group + Sextets(b[3..]))[4..] == Sextets(b[3..]);
      assert b == [b[0], b[1], b[2]] + b[3..];
    } else if |b| == 2 {
      ShortGroup(b[0], b[1]);
      assert b == [b[0], b[1]];
    } else if |b| == 1 {
      ShortGroup(b[0], 0);
      assert b == [b[0]];
    }
  }

  lemma ShortGroup(a: Byte, b: Byte)
    ensures Ungroup(Group(a, 0, 0)[0], Group(a, 0, 0)[1], 0, 0)[..1] == [a]
    ensures Ungroup(Group(a, b, 0)[0], Group(a, b, 0)[1], Group(a, b, 0)[2], 0)[..2] == [a, b]
  {
    UngroupGroup(a, b, 0);
    UngroupGroup(a, 0, 0);
  }

  /** Equal sextets, but for the bits of the last one below the last whole byte. */
  predicate SameBytes(s: seq<Sextet>, t: seq<Sextet>)
  {
    && |s| == |t|
    && (forall i :: 0 <= i < |s| && (i < |s| - 1 || |s| % 4 == 0) ==> s[i] == t[i])
    && (|s| % 4 == 3 ==> s[|s| - 1] / 4 == t[|s| - 1] / 4)
    && (|s| % 4 == 2 ==> s[|s| - 1] / 16 == t[|s| - 1] / 16)
  }

  /** Encoding what was decoded gives the sextets back, but for the bits below the last byte. */
  lemma {:induction false} SextetsOfBytes(s: seq<Sextet>)
    requires |s| % 4 != 1
    ensures SameBytes(Sextets(BytesOf(s)), s)
  {
    hide Group, Ungroup;
    if |s| >= 4 {
      SextetsOfBytes(s[4..]);
      GroupUngroup(s[0], s[1], s[2], s[3]);
      var group := Ungroup(s[0], s[1], s[2], s[3]);
      GroupFirst(group, BytesOf(s[4..]));
      SameAfterGroup([s[0], s[1], s[2], s[3]], Sextets(BytesOf(s[4..])), s[4..]);
      assert s == [s[0], s[1], s[2], s[3]] + s[4..];
    } else if |s| == 3 {
      var r := Ungroup(s[0], s[1], s[2], 0);
      GroupUngroup(s[0], s[1], s[2], 0);
      GroupOfTwo(r[0], r[1], r[2]);
    } else if |s| == 2 {
      var r := Ungroup(s[0], s[1], 0, 0);
      GroupUngroup(s[0], s[1], 0, 0);
      GroupOfTwo(r[0], r[1], r[2]);
      GroupOfOne(r[0], r[1]);
    }
  }

  lemma GroupFirst(group: seq<Byte>, rest: seq<Byte>)
    requires |group| == 3
    ensures Sextets(group + rest) == Group(group[0], group[1], group[2]) + Sextets(rest)
  {
    assert (group + rest)[3..] == rest;
  }

  lemma SameAfterGroup(group: seq<Sextet>, s: seq<Sextet>, t: seq<Sextet>)
    requires |group| == 4 && SameBytes(s, t)
    ensures SameBytes(group + s, group + t)
  {
    var x, y := group + s, group + t;
    forall i | 0 <= i < |x| && (i < |x| - 1 || |x| % 4 == 0)
      ensures x[i] == y[i]
    {
      if i >= 4 {
        assert x[i] == s[i - 4] && y[i] == t[i - 4];
      }
    }
  }

  // ---- the text of a key ----

  function Letters(s: seq<Sextet>): (t: string)
    ensures |t| == |s| && forall i :: 0 <= i < |t| ==> t[i] == Letter(s[i])
  {
    seq(|s|, i requires 0 <= i < |s| => Letter(s[i]))
  }

  lemma LettersAppend(a: seq<Sextet>, b: seq<Sextet>)
    ensures Letters(a + b) == Letters(a) + Letters(b)
  {
    hide Letter;
  }

  function Padding(n: nat): string
  {
    if n % 4 == 0 then "" else if n % 4 == 1 then "===" else if n % 4 == 2 then "==" else "="
  }

  function Base64(b: seq<Byte>): (t: string)
  {
    Letters(Sextets(b)) + Padding(|Sextets(b)|)
  }

  /** A value of 24 bits, shifted right by whole sextets and masked. */
  function SextetAt(value: nat, index: nat): (v: Sextet)
    requires index < 4
  {
    if index == 0 then value / 0x4_0000 % 64
    else if index == 1 then value / 0x1000 % 64
    else if index == 2 then value / 0x40 % 64
    else value % 64
  }

  function BigEndian(a: Byte, b: Byte, c: Byte): (value: nat)
  {
    var x: int, y: int, z: int := a, b, c;
    x * 0x1_0000 + y * 0x100 + z
  }

  lemma Quotients(q: nat, r: nat)
    ensures r < 0x4_0000 ==> (q * 0x4_0000 + r) / 0x4_0000 == q
    ensures r < 0x1000 ==> (q * 0x1000 + r) / 0x1000 == q
    ensures r < 0x40 ==> (q * 0x40 + r) / 0x40 == q && (q * 0x40 + r) % 0x40 == r
  {
  }

  lemma BlockValue(a: Byte, b: Byte, c: Byte)
    ensures var s := Group(a, b, c);
            BigEndian(a, b, c) == s[0] as int * 0x4_0000 + s[1] as int * 0x1000 + s[2] as int * 0x40 + s[3]
  {
  }

  lemma BlockSextets(a: Byte, b: Byte, c: Byte, index: nat)
    requires index < 4
    ensures SextetAt(BigEndian(a, b, c), index) == Group(a, b, c)[index]
  {
    hide Group, BigEndian;
    BlockValue(a, b, c);
    var s := Group(a, b, c);
    var w: int, x: int, y: int, z: int := s[0], s[1], s[2], s[3];
    Quotients(w, x * 0x1000 + y * 0x40 + z);
    Quotients(w * 0x40 + x, y * 0x40 + z);
    Quotients(w * 0x1000 + x * 0x40 + y, z);
    Quotients(w, x);
    Quotients(w * 0x40 + x, y);
  }

  method EncodeChunk(chunk: seq<Byte>) returns (letters: string)
    requires 1 <= |chunk| <= 3
    ensures letters == Letters(Sextets(chunk))
  {
    hide SextetAt, Letter, Group, BigEndian;
    var b: Byte, c: Byte := if |chunk| > 1 then chunk[1] else 0, if |chunk| > 2 then chunk[2] else 0;
    var value := BigEndian(chunk[0], b, c);
    ghost var group := Group(chunk[0], b, c);
    letters := "";
    for index := 0 to |chunk| + 1
      invariant letters == Letters(group[..index])
    {
      BlockSextets(chunk[0], b, c, index);
      letters := letters + [Letter(SextetAt(value, index))];
      assert group[..index + 1] == group[..index] + [group[index]];
    }
    assert Sextets(chunk) == group[..|chunk| + 1] by {
      if |chunk| == 3 {
        assert chunk[3..] == [] && group[..4] == group;
      }
    }
  }

  lemma ChunkFirst(b: seq<Byte>, length: nat)
    requires b != [] && length == if |b| < 3 then |b| else 3
    ensures Letters(Sextets(b)) == Letters(Sextets(b[..length])) + Letters(Sextets(b[length..]))
  {
    hide Letters, Sextets;
    if length < 3 {
      assert b[..length] == b && b[length..] == [];
      NoSextets(b);
    } else {
      FirstGroup(b);
    }
    LettersAppend(Sextets(b[..length]), Sextets(b[length..]));
  }

  lemma NoSextets(b: seq<Byte>)
    ensures Sextets(b) + Sextets([]) == Sextets(b)
  {
  }

  lemma FirstGroup(b: seq<Byte>)
    requires |b| >= 3
    ensures Sextets(b) == Sextets(b[..3]) + Sextets(b[3..])
  {
    hide Group;
    assert b[..3] + b[3..] == b && b[..3] + [] == b[..3];
    GroupFirst(b[..3], b[3..]);
    GroupFirst(b[..3], []);
    assert Group(b[0], b[1], b[2]) + [] == Group(b[0], b[1], b[2]);
  }

  /** Fills a text up to whole groups. */
  method Pad(letters: string) returns (text: string)
    ensures text == letters + Padding(|letters|)
  {
    text := letters;
    while |text| % 4 != 0
      invariant text + Padding(|text|) == letters + Padding(|letters|)
      decreases (4 - |text| % 4) % 4
    {
      assert Padding(|text|) == "=" + Padding(|text| + 1);
      assert text + ("=" + Padding(|text| + 1)) == text + "=" + Padding(|text| + 1);
      text := text + "=";
    }
    assert text + "" == text;
  }

  /** The key as standard Base64 text: three bytes at a time, a short last chunk filled with zeros. */
  method AsBase64(key: seq<Byte>) returns (text: string)
    ensures text == Base64(key)
  {
    hide Sextets, Letters, Padding;
    var letters := "";
    var at := 0;
    ghost var goal := Letters(Sextets(key));
    assert key[0..] == key && "" + goal == goal;
    while at < |key|
      invariant at <= |key| && letters + Letters(Sextets(key[at..])) == goal
      decreases |key| - at
    {
      var length := if |key| - at < 3 then |key| - at else 3;
      ChunkFirst(key[at..], length);
      assert key[at..][..length] == key[at..at + length] && key[at..][length..] == key[at + length..];
      var chunk := EncodeChunk(key[at..at + length]);
      Regroup(letters, chunk, Letters(Sextets(key[at + length..])));
      letters := letters + chunk;
      at := at + length;
    }
    assert key[at..] == [];
    NothingToEncode(letters);
    text := Pad(letters);
  }

  lemma NothingToEncode(letters: string)
    ensures letters + Letters(Sextets([])) == letters
  {
  }

  // ---- reading a key ----

  /** The text before its padding. */
  function TrimPadding(text: string): (t: string)
    ensures t <= text && (t != [] ==> t[|t| - 1] != '=')
  {
    if text != [] && text[|text| - 1] == '=' then TrimPadding(text[..|text| - 1]) else text
  }

  predicate AllLetters(t: string) {
    forall i :: 0 <= i < |t| ==> LetterValue(t[i]).Some?
  }

  function Values(t: string): (s: seq<Sextet>)
    requires AllLetters(t)
    ensures |s| == |t| && forall i :: 0 <= i < |s| ==> s[i] == LetterValue(t[i]).value
  {
    seq(|t|, i requires 0 <= i < |t| => LetterValue(t[i]).value)
  }

  /** The key a text stands for: its letters must give exactly the bytes of a key. */
  function DecodedKey(text: string): (key: Option<seq<Byte>>)
  {
    var t := TrimPadding(text);
    if |text| == TEXT_LENGTH && text[|text| - 1] == '=' && AllLetters(t) && |BytesOf(Values(t))| == KEY_LENGTH
    then Some(BytesOf(Values(t))) else None
  }

  /** One more sextet completes a byte, unless it starts a group. */
  function Completed(s: seq<Sextet>, v: Sextet): (b: seq<Byte>)
  {
    var n := |s|;
    if n % 4 == 0 then []
    else if n % 4 == 1 then [Ungroup(s[n - 1], v, 0, 0)[0]]
    else if n % 4 == 2 then [Ungroup(0, s[n - 1], v, 0)[1]]
    else [Ungroup(0, 0, s[n - 1], v)[2]]
  }

  lemma UngroupParts(a: Sextet, b: Sextet, c: Sextet, d: Sextet)
    ensures Ungroup(a, b, c, d)[0] == Ungroup(a, b, 0, 0)[0]
    ensures Ungroup(a, b, c, d)[1] == Ungroup(0, b, c, 0)[1]
    ensures Ungroup(a, b, c, d)[2] == Ungroup(0, 0, c, d)[2]
  {
  }

  lemma SecondSextet(a: Sextet, v: Sextet)
    ensures BytesOf([a]) == [] && BytesOf([v]) == [] && BytesOf([]) == []
    ensures BytesOf([a, v]) == [Ungroup(a, v, 0, 0)[0]]
  {
    hide Ungroup;
    var r := Ungroup(a, v, 0, 0);
    assert r[..1] == [r[0]];
  }

  lemma ThirdSextet(a: Sextet, b: Sextet, v: Sextet)
    ensures BytesOf([a, b, v]) == BytesOf([a, b]) + [Ungroup(0, b, v, 0)[1]]
  {
    hide Ungroup;
    UngroupParts(a, b, v, 0);
    UngroupParts(a, b, 0, 0);
    var r := Ungroup(a, b, v, 0);
    assert r[..2] == [r[0], r[1]];
    SecondSextet(a, b);
  }

  lemma FourthSextet(a: Sextet, b: Sextet, c: Sextet, v: Sextet)
    ensures BytesOf([a, b, c, v]) == BytesOf([a, b, c]) + [Ungroup(0, 0, c, v)[2]]
  {
    hide Ungroup;
    UngroupParts(a, b, c, v);
    UngroupParts(a, b, c, 0);
    var r, q := Ungroup(a, b, c, v), Ungroup(a, b, c, 0);
    assert [a, b, c, v][4..] == [];
    assert r == [r[0], r[1], r[2]] && r + [] == r && q[..2] == [q[0], q[1]];
  }

  lemma CompletedBytes(s: seq<Sextet>, v: Sextet)
    ensures |s| == 0 ==> Completed(s, v) == []
    ensures |s| == 1 ==> Completed(s, v) == [Ungroup(s[0], v, 0, 0)[0]]
    ensures |s| == 2 ==> Completed(s, v) == [Ungroup(0, s[1], v, 0)[1]]
    ensures |s| == 3 ==> Completed(s, v) == [Ungroup(0, 0, s[2], v)[2]]
  {
    hide Ungroup;
  }

  lemma OneMoreInGroup(s: seq<Sextet>, v: Sextet)
    requires |s| < 4
    ensures BytesOf(s + [v]) == BytesOf(s) + Completed(s, v)
  {
    hide Ungroup, BytesOf, Completed;
    CompletedBytes(s, v);
    if |s| == 3 {
      var a, b, c := s[0], s[1], s[2];
      FourthSextet(a, b, c, v);
      assert s == [a, b, c];
      assert s + [v] == [a, b, c, v];
    } else if |s| == 2 {
      var a, b := s[0], s[1];
      ThirdSextet(a, b, v);
      assert s == [a, b];
      assert s + [v] == [a, b, v];
    } else if |s| == 1 {
      var a := s[0];
      SecondSextet(a, v);
      assert s == [a];
      assert s + [v] == [a, v];
    } else {
      SecondSextet(v, v);
      assert s == [];
      assert s + [v] == [v];
    }
  }

  lemma GroupBytes(s: seq<Sextet>)
    requires |s| >= 4
    ensures BytesOf(s) == Ungroup(s[0], s[1], s[2], s[3]) + BytesOf(s[4..])
  {
  }

  lemma {:induction false} OneMoreSextet(s: seq<Sextet>, v: Sextet)
    ensures BytesOf(s + [v]) == BytesOf(s) + Completed(s, v)
    decreases |s|
  {
    hide Ungroup, BytesOf;
    if |s| >= 4 {
      OneMoreSextet(s[4..], v);
      assert (s + [v])[4..] == s[4..] + [v];
      assert Completed(s[4..], v) == Completed(s, v);
      GroupBytes(s);
      GroupBytes(s + [v]);
    } else {
      OneMoreInGroup(s, v);
    }
  }

  /** The accumulator keeps 32 bits of everything read. */
  function Shifted(accumulator: nat, v: Sextet): (a: nat)
  {
    (accumulator * 64 + v) % 0x1_0000_0000
  }

  /** The accumulator above the bits left over, cut to a byte. */
  function TopByte(accumulator: nat, bits: nat): (b: Byte)
  {
    if bits == 0 then accumulator % 0x100
    else if bits == 2 then accumulator / 4 % 0x100
    else accumulator / 16 % 0x100
  }

  /** How many bits are pending after so many sextets. */
  function PendingBits(n: nat): (bits: nat)
  {
    if n % 4 == 0 then 0 else if n % 4 == 1 then 6 else if n % 4 == 2 then 4 else 2
  }

  /** The pending bits stand lowest in the accumulator. */
  predicate HoldsPending(accumulator: nat, s: seq<Sextet>) {
    var n := |s|;
    if n % 4 == 0 then true
    else if n % 4 == 1 then accumulator % 64 == s[n - 1]
    else if n % 4 == 2 then accumulator % 16 == s[n - 1] as int % 16
    else accumulator % 4 == s[n - 1] as int % 4
  }

  lemma Remainder(m: nat, q: nat, r: nat)
    requires m == q * 0x1_0000_0000 + r && r < 0x1_0000_0000
    ensures m % 0x1_0000_0000 == r
  {
  }

  /** Cutting to 32 bits keeps the low 6, 8, 10 or 12 bits where they are. */
  lemma Cut(accumulator: nat, v: Sextet) returns (k: nat)
    ensures Shifted(accumulator, v) == k * 64 + v
  {
    k := accumulator % 0x400_0000;
    Remainder(accumulator * 64 + v, accumulator / 0x400_0000, k * 64 + v);
  }

  lemma Cut8(k: nat, r: nat) returns (j: nat)
    requires r < 0x100
    ensures (k * 0x100 + r) % 0x1_0000_0000 == j * 0x100 + r
  {
    j := k % 0x100_0000;
    Remainder(k * 0x100 + r, k / 0x100_0000, j * 0x100 + r);
  }

  lemma Cut10(k: nat, r: nat) returns (j: nat)
    requires r < 0x400
    ensures (k * 0x400 + r) % 0x1_0000_0000 == j * 0x400 + r
  {
    j := k % 0x40_0000;
    Remainder(k * 0x400 + r, k / 0x40_0000, j * 0x400 + r);
  }

  lemma Cut12(k: nat, r: nat) returns (j: nat)
    requires r < 0x1000
    ensures (k * 0x1000 + r) % 0x1_0000_0000 == j * 0x1000 + r
  {
    j := k % 0x10_0000;
    Remainder(k * 0x1000 + r, k / 0x10_0000, j * 0x1000 + r);
  }

  lemma Split(a: nat, last: Sextet)
    ensures a == a / 64 * 64 + a % 64 && a == a / 16 * 16 + a % 16 && a == a / 4 * 4 + a % 4
    ensures last as int % 16 < 16 && last as int % 4 < 4
  {
  }

  lemma TopOfFirst(accumulator: nat, last: Sextet, v: Sextet)
    requires accumulator % 64 == last
    ensures TopByte(Shifted(accumulator, v), 4) == Ungroup(last, v, 0, 0)[0]
  {
    hide TopByte;
    Split(accumulator, last);
    var q: nat, r: nat := accumulator / 64, last as int * 64 + v as int;
    var j := Cut12(q, r);
    assert accumulator * 64 + v as int == q * 0x1000 + r;
    TopOf(j, r);
    Quarter(last, v);
  }

  lemma TopOfSecond(accumulator: nat, last: Sextet, v: Sextet)
    requires accumulator % 16 == last as int % 16
    ensures TopByte(Shifted(accumulator, v), 2) == Ungroup(0, last, v, 0)[1]
  {
    hide TopByte;
    Split(accumulator, last);
    var q: nat, r: nat := accumulator / 16, last as int % 16 * 64 + v as int;
    var j := Cut10(q, r);
    assert accumulator * 64 + v as int == q * 0x400 + r;
    TopOf(j, r);
    Quarter(last as int % 16, v);
  }

  lemma TopOfThird(accumulator: nat, last: Sextet, v: Sextet)
    requires accumulator % 4 == last as int % 4
    ensures TopByte(Shifted(accumulator, v), 0) == Ungroup(0, 0, last, v)[2]
  {
    hide TopByte;
    Split(accumulator, last);
    var q: nat, r: nat := accumulator / 4, last as int % 4 * 64 + v as int;
    var j := Cut8(q, r);
    assert accumulator * 64 + v as int == q * 0x100 + r;
    TopOf(j, r);
  }

  lemma Quarter(high: nat, low: nat)
    ensures (high * 64 + low) / 16 == high * 4 + low / 16
    ensures (high * 64 + low) / 4 == high * 16 + low / 4
  {
  }

  /** What stands above the bits cut off does not reach the byte. */
  lemma TopOf(j: nat, r: nat)
    ensures r < 0x1000 ==> TopByte(j * 0x1000 + r, 4) == r / 16
    ensures r < 0x400 ==> TopByte(j * 0x400 + r, 2) == r / 4
    ensures r < 0x100 ==> TopByte(j * 0x100 + r, 0) == r
  {
    assert (j * 0x1000 + r) / 16 == j * 0x100 + r / 16;
    assert (j * 0x400 + r) / 4 == j * 0x100 + r / 4;
    LowByte(j, r / 16);
    LowByte(j, r / 4);
    LowByte(j, r);
  }

  lemma LowByte(j: nat, r: nat)
    ensures r < 0x100 ==> (j * 0x100 + r) % 0x100 == r
  {
  }

  lemma LowTwo(q: nat, v: nat)
    ensures (q * 4 + v) % 4 == v % 4
  {
  }

  lemma LowFour(q: nat, v: nat)
    ensures (q * 16 + v) % 16 == v % 16
  {
  }

  lemma LowSix(q: nat, v: nat)
    requires v < 64
    ensures (q * 64 + v) % 64 == v
  {
  }

  lemma PendingAfter(accumulator: nat, s: seq<Sextet>, v: Sextet)
    ensures HoldsPending(Shifted(accumulator, v), s + [v])
  {
    hide Shifted;
    var k := Cut(accumulator, v);
    LowTwo(k * 16, v);
    LowFour(k * 4, v);
    LowSix(k, v);
  }

  lemma ByteAfter(accumulator: nat, s: seq<Sextet>, v: Sextet)
    requires HoldsPending(accumulator, s) && |s| % 4 != 0
    ensures Completed(s, v) == [TopByte(Shifted(accumulator, v), PendingBits(|s| + 1))]
  {
    hide TopByte, Shifted, Ungroup;
    if |s| % 4 == 1 {
      TopOfFirst(accumulator, s[|s| - 1], v);
    } else if |s| % 4 == 2 {
      TopOfSecond(accumulator, s[|s| - 1], v);
    } else {
      TopOfThird(accumulator, s[|s| - 1], v);
    }
  }

  /** Reads a key: a truncating accumulator gives out a byte whenever eight bits are in. */
  method DecodeContentKey(text: string) returns (key: Option<seq<Byte>>)
    ensures key == DecodedKey(text)
  {
    hide HoldsPending, TopByte, Shifted, BytesOf, Completed, LetterValue, TrimPadding;
    if |text| != TEXT_LENGTH || text[|text| - 1] != '=' {
      return None;
    }
    var trimmed := TrimPadding(text);
    var bytes: seq<Byte> := [];
    var accumulator, bits := 0, 0;
    ghost var read: seq<Sextet> := [];
    NothingRead();
    for i := 0 to |trimmed|
      invariant |read| == i && AllLetters(trimmed[..i]) && read == Values(trimmed[..i])
      invariant bytes == BytesOf(read) && bits == PendingBits(i) && HoldsPending(accumulator, read)
    {
      var value := LetterValue(trimmed[i]);
      if value.None? {
        return None;
      }
      assert trimmed[..i + 1] == trimmed[..i] + [trimmed[i]];
      OneMoreSextet(read, value.value);
      PendingAfter(accumulator, read, value.value);
      StartsGroup(read, value.value);
      if i % 4 != 0 {
        ByteAfter(accumulator, read, value.value);
      }
      accumulator := Shifted(accumulator, value.value);
      bits := bits + 6;
      if bits >= 8 {
        bits := bits - 8;
        bytes := bytes + [TopByte(accumulator, bits)];
      }
      read := read + [value.value];
    }
    assert trimmed[..|trimmed|] == trimmed && read == Values(trimmed);
    if |bytes| != KEY_LENGTH {
      return None;
    }
    return Some(bytes);
  }

  lemma NothingRead()
    ensures BytesOf([]) == [] && HoldsPending(0, [])
  {
  }

  lemma StartsGroup(s: seq<Sextet>, v: Sextet)
    ensures |s| % 4 == 0 ==> BytesOf(s) + Completed(s, v) == BytesOf(s)
  {
  }

  // ---- both ways ----

  lemma {:induction false} TrimLetters(letters: string, padding: nat)
    requires AllLetters(letters)
    ensures TrimPadding(letters + Equals(padding)) == letters
    decreases padding
  {
    hide LetterValue;
    if padding == 0 {
      assert letters + Equals(0) == letters;
      if letters != [] {
        assert LetterValue(letters[|letters| - 1]).Some?;
      }
    } else {
      assert (letters + Equals(padding))[..|letters| + padding - 1] == letters + Equals(padding - 1);
      TrimLetters(letters, padding - 1);
    }
  }

  function Equals(n: nat): (s: string)
    ensures |s| == n && forall i :: 0 <= i < n ==> s[i] == '='
  {
    seq(n, i => '=')
  }

  lemma ValuesOfLetters(s: seq<Sextet>)
    ensures AllLetters(Letters(s)) && Values(Letters(s)) == s
  {
  }

  /** Reading the text of a key gives the key. */
  lemma KeyRoundTrip(key: seq<Byte>)
    requires |key| == KEY_LENGTH
    ensures DecodedKey(Base64(key)) == Some(key)
  {
    hide Sextets, BytesOf, Letters, TrimPadding, Values;
    var s := Sextets(key);
    ValuesOfLetters(s);
    BytesOfSextets(key);
    SextetsLength(key);
    assert Padding(|s|) == Equals(1);
    TrimLetters(Letters(s), 1);
  }

  /** Two letters whose values differ in the two low bits at most. */
  predicate SameHighBits(c: char, d: char) {
    && LetterValue(c).Some? && LetterValue(d).Some?
    && LetterValue(c).value as int / 4 == LetterValue(d).value as int / 4
  }

  /** A text that reads as a key is its standard text, but for the two bits below the last byte. */
  lemma ReadTextIsStandard(text: string)
    requires DecodedKey(text).Some?
    ensures var standard := Base64(DecodedKey(text).value);
            && |standard| == |text| == TEXT_LENGTH && standard[..26] == text[..26] && standard[27] == text[27] == '='
            && SameHighBits(standard[26], text[26])
  {
    hide BytesOf, Sextets, TrimPadding;
    var t := TrimPadding(text);
    var s := Values(t);
    TrimmedLength(text);
    assert |t| == 27;
    assert t == text[..27];
    SextetsOfBytes(s);
    var again := Sextets(BytesOf(s));
    forall i | 0 <= i < 26
      ensures Base64(BytesOf(s))[i] == text[i]
    {
      assert again[i] == s[i];
      LetterOfValue(t[i]);
    }
  }

  lemma TrimmedLength(text: string)
    requires DecodedKey(text).Some?
    ensures |TrimPadding(text)| == 27
  {
    hide BytesOf;
    var t := TrimPadding(text);
    BytesLength(Values(t));
  }
}
