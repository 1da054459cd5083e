/** Literals, matches and the growing output of src/metadata/deflate.rs. */
module Lz77 {
  import opened Outcomes
  import opened Bits
  import opened BitReading

  const LENGTH_BASE: seq<nat> := [
    3, 4, 5, 6, 7, 8, 9, 10, 11, 13, 15, 17, 19, 23, 27, 31, 35, 43, 51, 59, 67, 83, 99, 115, 131,
    163, 195, 227, 258]
  const LENGTH_EXTRA: seq<nat> := [
    0, 0, 0, 0, 0, 0, 0, 0, 1, 1, 1, 1, 2, 2, 2, 2, 3, 3, 3, 3, 4, 4, 4, 4, 5, 5, 5, 5, 0]
  const DISTANCE_BASE: seq<nat> := [
    1, 2, 3, 4, 5, 7, 9, 13, 17, 25, 33, 49, 65, 97, 129, 193, 257, 385, 513, 769, 1025, 1537,
    2049, 3073, 4097, 6145, 8193, 12289, 16385, 24577]
  const DISTANCE_EXTRA: seq<nat> := [
    0, 0, 0, 0, 1, 1, 2, 2, 3, 3, 4, 4, 5, 5, 6, 6, 7, 7, 8, 8, 9, 9, 10, 10, 11, 11, 12, 12, 13, 13]

  /** The number of length and of distance classes. */
  const LENGTHS: nat := 29
  const DISTANCES: nat := 30

  function LengthBase(c: nat): (n: nat)
    requires c < LENGTHS
    ensures n >= 3
  {
    LENGTH_BASE[c]
  }

  function LengthExtra(c: nat): (n: nat)
    requires c < LENGTHS
    ensures n <= 5
  {
    LENGTH_EXTRA[c]
  }

  function DistanceBase(c: nat): (n: nat)
    requires c < DISTANCES
    ensures n >= 1
  {
    DISTANCE_BASE[c]
  }

  function DistanceExtra(c: nat): (n: nat)
    requires c < DISTANCES
    ensures n <= 13
  {
    DISTANCE_EXTRA[c]
  }

  /** A match names its length and distance by a class and the extra bits within it. */
  datatype Token =
    | Literal(byte: Byte)
    | Match(lengthClass: nat, lengthBits: nat, distanceClass: nat, distanceBits: nat)

  predicate ValidToken(t: Token) {
    t.Match? ==>
      && t.lengthClass < LENGTHS && t.lengthBits < Pow2(LengthExtra(t.lengthClass))
      && t.distanceClass < DISTANCES && t.distanceBits < Pow2(DistanceExtra(t.distanceClass))
  }

  function Length(t: Token): (n: nat)
    requires t.Match? && ValidToken(t)
    ensures n >= 3
  {
    LengthBase(t.lengthClass) + t.lengthBits
  }

  function Distance(t: Token): (n: nat)
    requires t.Match? && ValidToken(t)
    ensures n >= 1
  {
    DistanceBase(t.distanceClass) + t.distanceBits
  }

  /** Copies byte by byte, so that a match may overlap the bytes it produces. */
  function CopyBytes(out: seq<Byte>, distance: nat, length: nat): (r: seq<Byte>)
    requires 1 <= distance <= |out|
    ensures |r| == |out| + length && out <= r
    decreases length
  {
    if length == 0 then out else CopyBytes(out + [out[|out| - distance]], distance, length - 1)
  }

  /** The token refers only to output that already exists. */
  predicate InRange(out: seq<Byte>, t: Token)
    requires ValidToken(t)
  {
    t.Match? ==> Distance(t) <= |out|
  }

  function Apply(out: seq<Byte>, t: Token): (r: seq<Byte>)
    requires ValidToken(t) && InRange(out, t)
    ensures |r| > |out| && out <= r
  {
    match t
    case Literal(b) => out + [b]
    case Match(_, _, _, _) => CopyBytes(out, Distance(t), Length(t))
  }

  predicate Playable(out: seq<Byte>, tokens: seq<Token>)
    decreases tokens
  {
    tokens == [] ||
    (ValidToken(tokens[0]) && InRange(out, tokens[0]) && Playable(Apply(out, tokens[0]), tokens[1..]))
  }

  /** The expansion of a token list after the output so far. */
  function Expand(out: seq<Byte>, tokens: seq<Token>): (r: seq<Byte>)
    requires Playable(out, tokens)
    ensures out <= r
    decreases tokens
  {
    if tokens == [] then out else Expand(Apply(out, tokens[0]), tokens[1..])
  }

  // ---- the overlapping copy ----

  /** Every byte of r past the first n equals the byte a distance before it. */
  ghost predicate RepeatsAfter(r: seq<Byte>, n: nat, distance: nat) {
    1 <= distance <= n <= |r| && forall k: nat :: n <= k < |r| ==> r[k] == r[k - distance]
  }

  /** The defining equation of a match: out[n + i] == out[n + i - distance]. */
  lemma {:induction false} CopyRepeats(out: seq<Byte>, distance: nat, length: nat)
    requires 1 <= distance <= |out|
    ensures RepeatsAfter(CopyBytes(out, distance, length), |out|, distance)
    decreases length
  {
    if length > 0 {
      var longer := out + [out[|out| - distance]];
      CopyRepeats(longer, distance, length - 1);
      var r := CopyBytes(longer, distance, length - 1);
      assert r[|out|] == longer[|out|] && r[|out| - distance] == longer[|out| - distance];
    }
  }

  /** That equation determines the copy. */
  lemma {:induction false} RepeatsAreUnique(r: seq<Byte>, s: seq<Byte>, n: nat, distance: nat)
    requires RepeatsAfter(r, n, distance) && RepeatsAfter(s, n, distance)
    requires |r| == |s| && r[..n] == s[..n]
    ensures r == s
  {
    var k := n;
    while k < |r|
      invariant n <= k <= |r| && r[..k] == s[..k]
    {
      assert r[k - distance] == r[..k][k - distance] == s[..k][k - distance];
      assert r[..k + 1] == r[..k] + [r[k]] && s[..k + 1] == s[..k] + [s[k]];
      k := k + 1;
    }
    assert r[..|r|] == r && s[..|s|] == s;
  }

  /** Bytes a whole number of distances apart are equal. */
  lemma {:induction false} WholePeriods(r: seq<Byte>, n: nat, distance: nat, k: nat, periods: nat)
    requires RepeatsAfter(r, n, distance) && n - distance <= k && k + periods * distance < |r|
    ensures r[k + periods * distance] == r[k]
    decreases periods
  {
    if periods > 0 {
      assert k + periods * distance == k + (periods - 1) * distance + distance;
      WholePeriods(r, n, distance, k, periods - 1);
      assert (periods - 1) * distance >= 0;
    }
  }

  /** A length of so many whole distances. */
  predicate Spans(length: nat, periods: nat, distance: nat) {
    periods >= 1 && length == periods * distance
  }

  lemma SpansTwice(length: nat, periods: nat, distance: nat)
    requires Spans(length, periods, distance)
    ensures Spans(2 * length, 2 * periods, distance)
  {
  }

  lemma SpanBefore(length: nat, periods: nat, distance: nat)
    requires Spans(length, periods, distance)
    ensures length - distance == (periods - 1) * distance
  {
  }

  /** Appending a slice that starts a whole number of distances back keeps the pattern. */
  lemma SliceKeepsPattern(r: seq<Byte>, n: nat, distance: nat, periods: nat, copied: nat)
    requires RepeatsAfter(r, n, distance)
    requires Spans(|r| - (n - distance), periods, distance) && copied <= |r| - (n - distance)
    ensures RepeatsAfter(r + r[n - distance..n - distance + copied], n, distance)
  {
    hide Spans;
    var start := n - distance;
    var after := r + r[start..start + copied];
    forall k: nat | |r| <= k < |after| ensures after[k] == after[k - distance] {
      SlicedByte(r, n, distance, periods, k - |r|);
    }
  }

  /** The byte a slice puts at place j after r is the one a distance earlier. */
  lemma SlicedByte(r: seq<Byte>, n: nat, distance: nat, periods: nat, j: nat)
    requires RepeatsAfter(r, n, distance)
    requires Spans(|r| - (n - distance), periods, distance) && j < |r| - (n - distance)
    ensures r[n - distance + j] == if j < distance then r[|r| + j - distance] else r[n - distance + j - distance]
  {
    hide Spans;
    if j < distance {
      SpanBefore(|r| - (n - distance), periods, distance);
      WholePeriods(r, n, distance, n - distance + j, periods - 1);
    }
  }

  class Output {
    var bytes: seq<Byte>

    constructor ()
      ensures bytes == []
    {
      bytes := [];
    }

    /** Admits more bytes only while the total stays within the limit. */
    method Reserve(additional: nat, limit: nat, position: nat) returns (r: Outcome<()>)
      ensures r == if |bytes| + additional <= limit || additional == 0 then Ok(())
                   else Fail(position, OutputLimitExceeded)
    {
      var room := if limit < |bytes| then 0 else limit - |bytes|;
      return if additional > room then Fail(position, OutputLimitExceeded) else Ok(());
    }

    /** Copies whole slices that double in size instead of single bytes. */
    method CopyBackReference(distance: nat, length: nat)
      requires 1 <= distance <= |bytes|
      modifies this
      ensures bytes == CopyBytes(old(bytes), distance, length)
    {
      var start := |bytes| - distance;
      var remaining: nat := length;
      ghost var before := bytes;
      ghost var periods: nat := 1;
      while remaining != 0
        invariant before <= bytes && |bytes| + remaining == |before| + length
        invariant RepeatsAfter(bytes, |before|, distance)
        invariant remaining != 0 ==> Spans(|bytes| - start, periods, distance)
      {
        hide Spans, RepeatsAfter, CopyBytes;
        var available := |bytes| - start;
        var copied := if remaining < available then remaining else available;
        SliceKeepsPattern(bytes, |before|, distance, periods, copied);
        SpansTwice(available, periods, distance);
        bytes := bytes + bytes[start..start + copied];
        remaining := remaining - copied;
        periods := 2 * periods;
      }
      CopyRepeats(before, distance, length);
      RepeatsAreUnique(bytes, CopyBytes(before, distance, length), |before|, distance);
    }
  }

  // ---- every length and distance has a token ----

  /** The last class whose base does not exceed v. */
  function ClassOf(base: seq<nat>, v: nat): (c: nat)
    requires base != [] && base[0] <= v
    ensures c < |base| && base[c] <= v && (c + 1 < |base| ==> v < base[c + 1])
  {
    if |base| == 1 || base[|base| - 1] <= v then |base| - 1 else ClassOf(base[..|base| - 1], v)
  }

  /** The match token of a length from 3 to 258 and a distance from 1 to 32768. */
  function MatchOf(length: nat, distance: nat): (t: Token)
    requires 3 <= length <= 258 && 1 <= distance <= 0x8000
    ensures t.Match?
  {
    var l, d := ClassOf(LENGTH_BASE, length), ClassOf(DISTANCE_BASE, distance);
    Match(l, length - LENGTH_BASE[l], d, distance - DISTANCE_BASE[d])
  }

  lemma MatchOfIsExact(length: nat, distance: nat)
    requires 3 <= length <= 258 && 1 <= distance <= 0x8000
    ensures var t := MatchOf(length, distance);
            ValidToken(t) && Length(t) == length && Distance(t) == distance
  {
    ClassesCover();
    var l, d := ClassOf(LENGTH_BASE, length), ClassOf(DISTANCE_BASE, distance);
    assert l < 28 ==> LENGTH_BASE[l + 1] - LENGTH_BASE[l] <= Pow2(LENGTH_EXTRA[l]);
    assert d < 29 ==> DISTANCE_BASE[d + 1] - DISTANCE_BASE[d] <= Pow2(DISTANCE_EXTRA[d]);
  }

  /** Consecutive classes leave no gap: a class spans as many values as its extra bits number. */
  lemma ClassesCover()
    ensures forall l: nat :: l < 28 ==> LENGTH_BASE[l + 1] - LENGTH_BASE[l] <= Pow2(LENGTH_EXTRA[l])
    ensures forall d: nat :: d < 29 ==> DISTANCE_BASE[d + 1] - DISTANCE_BASE[d] <= Pow2(DISTANCE_EXTRA[d])
    ensures Pow2(13) == 0x2000 && Pow2(0) == 1
  {
    hide Pow2;
    Pow2Values();
  }
}
