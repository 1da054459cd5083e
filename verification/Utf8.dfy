/**
 * Text as UTF-8 bytes: which byte offsets are character boundaries, what slices between
 * them hold, and why a scan for ASCII can go byte by byte.
 */
module Utf8 {
  import opened Bits

  // ---- encoding ----

  function EncodeChar(c: char): (b: seq<Byte>)
    ensures 1 <= |b| <= 4
  {
    var n := c as int;
    if n < 0x80 then [n]
    else if n < 0x800 then [0xC0 + n / 0x40, 0x80 + n % 0x40]
    else if n < 0x1_0000 then [0xE0 + n / 0x1000, 0x80 + n / 0x40 % 0x40, 0x80 + n % 0x40]
    else [0xF0 + n / 0x4_0000, 0x80 + n / 0x1000 % 0x40, 0x80 + n / 0x40 % 0x40, 0x80 + n % 0x40]
  }

  function Encode(s: string): (b: seq<Byte>)
    ensures |b| >= |s|
  {
    if s == [] then [] else EncodeChar(s[0]) + Encode(s[1..])
  }

  lemma {:induction false} EncodeAppend(s: string, t: string)
    ensures Encode(s + t) == Encode(s) + Encode(t)
  {
    hide EncodeChar;
    if s == [] {
      assert s + t == t;
    } else {
      assert (s + t)[1..] == s[1..] + t;
      EncodeAppend(s[1..], t);
    }
  }

  // ---- boundaries ----

  predicate IsContinuation(b: Byte) {
    0x80 <= b < 0xC0
  }

  /** A slice of a text may start or end here. */
  predicate IsBoundary(bytes: seq<Byte>, p: nat) {
    p == |bytes| || (p < |bytes| && !IsContinuation(bytes[p]))
  }

  /** The offset in bytes of a place counted in characters. */
  function ByteOffset(s: string, k: nat): (p: nat)
    requires k <= |s|
  {
    |Encode(s[..k])|
  }

  lemma CharShape(c: char)
    ensures !IsContinuation(EncodeChar(c)[0])
    ensures forall i :: 1 <= i < |EncodeChar(c)| ==> IsContinuation(EncodeChar(c)[i])
    ensures EncodeChar(c)[0] < 0x80 <==> c as int < 0x80
    ensures c as int < 0x80 ==> EncodeChar(c) == [c as int]
  {
  }

  /** The bytes between two places are the encoding of what stands between them. */
  lemma SliceIsEncoded(s: string, i: nat, j: nat)
    requires i <= j <= |s|
    ensures ByteOffset(s, i) <= ByteOffset(s, j) <= |Encode(s)|
    ensures Encode(s)[ByteOffset(s, i)..ByteOffset(s, j)] == Encode(s[i..j])
  {
    hide Encode;
    assert s == s[..j] + s[j..] && s[..j] == s[..i] + s[i..j];
    EncodeAppend(s[..j], s[j..]);
    EncodeAppend(s[..i], s[i..j]);
  }

  lemma OffsetEnds(s: string)
    ensures ByteOffset(s, 0) == 0 && ByteOffset(s, |s|) == |Encode(s)|
  {
    assert s[..0] == [] && s[..|s|] == s;
  }

  lemma OneChar(c: char)
    ensures Encode([c]) == EncodeChar(c)
  {
    hide EncodeChar;
    assert EncodeChar(c) + [] == EncodeChar(c);
  }

  /** The bytes of the character at a place. */
  lemma CharStands(s: string, k: nat)
    requires k < |s|
    ensures ByteOffset(s, k + 1) == ByteOffset(s, k) + |EncodeChar(s[k])| <= |Encode(s)|
    ensures Encode(s)[ByteOffset(s, k)..ByteOffset(s, k + 1)] == EncodeChar(s[k])
  {
    hide Encode, EncodeChar;
    SliceIsEncoded(s, k, k + 1);
    assert s[k..k + 1] == [s[k]];
    OneChar(s[k]);
  }

  lemma OffsetIsBoundary(s: string, k: nat)
    requires k <= |s|
    ensures IsBoundary(Encode(s), ByteOffset(s, k))
  {
    hide Encode, EncodeChar, ByteOffset;
    if k == |s| {
      OffsetEnds(s);
    } else {
      CharStands(s, k);
      CharShape(s[k]);
      FirstOfSlice(Encode(s), ByteOffset(s, k), ByteOffset(s, k + 1));
    }
  }

  lemma FirstOfSlice(b: seq<Byte>, i: nat, j: nat)
    requires i < j <= |b|
    ensures b[i] == b[i..j][0]
  {
  }

  lemma InsideFirst(s: string, p: nat)
    requires s != [] && 0 < p < |EncodeChar(s[0])|
    ensures p < |Encode(s)| && !IsBoundary(Encode(s), p)
  {
    hide EncodeChar;
    CharShape(s[0]);
    assert Encode(s)[p] == EncodeChar(s[0])[p];
  }

  /** The place whose offset a boundary is. */
  lemma {:induction false} PlaceOf(s: string, p: nat) returns (k: nat)
    requires p <= |Encode(s)| && IsBoundary(Encode(s), p)
    ensures k <= |s| && ByteOffset(s, k) == p
    decreases |s|
  {
    hide EncodeChar;
    if p == 0 {
      k := 0;
    } else {
      var head := EncodeChar(s[0]);
      if p < |head| {
        InsideFirst(s, p);
        assert false;
      }
      var rest := PlaceOf(s[1..], p - |head|);
      k := rest + 1;
      assert s[..k][0] == s[0] && s[..k][1..] == s[1..][..rest];
    }
  }

  /** The boundaries of a text are exactly the offsets of its places. */
  lemma BoundariesExactly(s: string, p: nat)
    ensures p <= |Encode(s)| && IsBoundary(Encode(s), p) <==> exists k :: 0 <= k <= |s| && ByteOffset(s, k) == p
  {
    hide Encode, ByteOffset, IsBoundary;
    if p <= |Encode(s)| && IsBoundary(Encode(s), p) {
      var k := PlaceOf(s, p);
    }
    if exists k :: 0 <= k <= |s| && ByteOffset(s, k) == p {
      var k :| 0 <= k <= |s| && ByteOffset(s, k) == p;
      OffsetIsBoundary(s, k);
      SliceIsEncoded(s, k, k);
    }
  }

  // ---- scanning for ASCII ----

  predicate AllAscii(stops: set<char>) {
    forall c :: c in stops ==> c as int < 0x80
  }

  predicate StopsAt(b: Byte, stops: set<char>) {
    b < 0x80 && b as char in stops
  }

  /** The first byte from p on that is one of the stops, or the end. */
  function FindByte(bytes: seq<Byte>, p: nat, stops: set<char>): (q: nat)
    requires p <= |bytes|
    ensures p <= q <= |bytes|
    decreases |bytes| - p
  {
    if p < |bytes| && !StopsAt(bytes[p], stops) then FindByte(bytes, p + 1, stops) else p
  }

  /** The first character from k on that is one of the stops, or the end. */
  function FindChar(s: string, k: nat, stops: set<char>): (q: nat)
    requires k <= |s|
    ensures k <= q <= |s|
    decreases |s| - k
  {
    if k < |s| && s[k] !in stops then FindChar(s, k + 1, stops) else k
  }

  lemma {:induction false} FindBytePasses(bytes: seq<Byte>, p: nat, q: nat, stops: set<char>)
    requires p <= q <= |bytes| && forall i :: p <= i < q ==> !StopsAt(bytes[i], stops)
    ensures FindByte(bytes, p, stops) == FindByte(bytes, q, stops)
    decreases q - p
  {
    if p < q {
      FindBytePasses(bytes, p + 1, q, stops);
    }
  }

  /** The first byte of a character is a stop if and only if the character is; its other bytes never are. */
  lemma CharStops(c: char, stops: set<char>)
    requires AllAscii(stops)
    ensures StopsAt(EncodeChar(c)[0], stops) <==> c in stops
    ensures forall i :: 1 <= i < |EncodeChar(c)| ==> !StopsAt(EncodeChar(c)[i], stops)
  {
    hide EncodeChar;
    CharShape(c);
    if c as int < 0x80 {
      assert (c as int) as char == c;
    }
  }

  lemma CharPassed(s: string, k: nat, stops: set<char>)
    requires k < |s| && AllAscii(stops)
    ensures ByteOffset(s, k) < ByteOffset(s, k + 1) <= |Encode(s)|
    ensures StopsAt(Encode(s)[ByteOffset(s, k)], stops) <==> s[k] in stops
    ensures s[k] !in stops ==>
              FindByte(Encode(s), ByteOffset(s, k), stops) == FindByte(Encode(s), ByteOffset(s, k + 1), stops)
  {
    hide Encode, EncodeChar, ByteOffset, FindByte, StopsAt, AllAscii;
    var b, p, q := Encode(s), ByteOffset(s, k), ByteOffset(s, k + 1);
    CharStands(s, k);
    CharStops(s[k], stops);
    assert b[p] == b[p..q][0];
    if s[k] !in stops {
      forall i | p <= i < q
        ensures !StopsAt(b[i], stops)
      {
        assert b[i] == b[p..q][i - p];
      }
      FindBytePasses(b, p, q, stops);
    }
  }

  /** Looking for ASCII byte by byte finds what looking character by character finds. */
  lemma {:induction false} FindByteIsFindChar(s: string, k: nat, stops: set<char>)
    requires k <= |s| && AllAscii(stops)
    ensures ByteOffset(s, k) <= |Encode(s)|
    ensures FindByte(Encode(s), ByteOffset(s, k), stops) == ByteOffset(s, FindChar(s, k, stops))
    decreases |s| - k
  {
    hide Encode, ByteOffset, StopsAt;
    SliceIsEncoded(s, k, k);
    if k == |s| {
      OffsetEnds(s);
    } else {
      CharPassed(s, k, stops);
      if s[k] !in stops {
        FindByteIsFindChar(s, k + 1, stops);
      }
    }
  }

  // ---- reading back ----

  lemma CharIsFirst(c: char, d: char, x: seq<Byte>, y: seq<Byte>)
    requires EncodeChar(c) + x == EncodeChar(d) + y
    ensures c == d
  {
    hide EncodeChar;
    var u, v := EncodeChar(c), EncodeChar(d);
    assert u[0] == (u + x)[0] == (v + y)[0] == v[0];
    SameLength(c, d);
    assert u == (u + x)[..|u|] == (v + y)[..|v|] == v;
    SameChar(c, d);
  }

  lemma SameLength(c: char, d: char)
    requires EncodeChar(c)[0] == EncodeChar(d)[0]
    ensures |EncodeChar(c)| == |EncodeChar(d)|
  {
  }

  /** The code point its bytes give. */
  function CodeOf(b: seq<int>): (n: int)
    requires 1 <= |b| <= 4
  {
    if |b| == 1 then b[0]
    else if |b| == 2 then (b[0] - 0xC0) * 0x40 + (b[1] - 0x80)
    else if |b| == 3 then (b[0] - 0xE0) * 0x1000 + (b[1] - 0x80) * 0x40 + (b[2] - 0x80)
    else (b[0] - 0xF0) * 0x4_0000 + (b[1] - 0x80) * 0x1000 + (b[2] - 0x80) * 0x40 + (b[3] - 0x80)
  }

  lemma SixBitDigits(n: nat)
    ensures n == n / 0x40 * 0x40 + n % 0x40
    ensures n / 0x40 == n / 0x1000 * 0x40 + n / 0x40 % 0x40
    ensures n / 0x1000 == n / 0x4_0000 * 0x40 + n / 0x1000 % 0x40
  {
  }

  lemma CodeOfChar(c: char)
    ensures CodeOf(EncodeChar(c)) == c as int
  {
    SixBitDigits(c as int);
  }

  lemma SameChar(c: char, d: char)
    requires EncodeChar(c) == EncodeChar(d)
    ensures c == d
  {
    hide EncodeChar, CodeOf;
    CodeOfChar(c);
    CodeOfChar(d);
  }

  /** Different texts have different bytes. */
  lemma {:induction false} EncodeIsInjective(s: string, t: string)
    requires Encode(s) == Encode(t)
    ensures s == t
    decreases |s|
  {
    hide EncodeChar;
    if s != [] {
      CharIsFirst(s[0], t[0], Encode(s[1..]), Encode(t[1..]));
      var head := EncodeChar(s[0]);
      assert (head + Encode(s[1..]))[|head|..] == Encode(s[1..]);
      assert (head + Encode(t[1..]))[|head|..] == Encode(t[1..]);
      EncodeIsInjective(s[1..], t[1..]);
      assert s == [s[0]] + s[1..] && t == [t[0]] + t[1..];
    }
  }
}
