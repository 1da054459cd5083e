/**
 * Canonical Huffman codes as section 3.2.2 of RFC 1951 assigns them to a vector of
 * code lengths, and why the vectors the decoder accepts give a prefix-free code.
 */
module Canonical {
  import opened Bits

  /** How many symbols have code length len. */
  function Count(lengths: seq<nat>, len: nat): (n: nat)
    ensures n <= |lengths|
  {
    if lengths == [] then 0
    else Count(lengths[..|lengths| - 1], len) + (if lengths[|lengths| - 1] == len then 1 else 0)
  }

  /** The number of codewords of a length: length zero means "no codeword". */
  function Population(lengths: seq<nat>, len: nat): (n: nat)
    ensures n <= |lengths|
  {
    if len == 0 then 0 else Count(lengths, len)
  }

  /** Step 2 of the assignment: the smallest code of each length. */
  function FirstCode(lengths: seq<nat>, len: nat): nat
  {
    if len == 0 then 0 else (FirstCode(lengths, len - 1) + Population(lengths, len - 1)) * 2
  }

  /** The codes of a length still free once all shorter or equally long ones are taken. */
  function Left(lengths: seq<nat>, len: nat): int
  {
    if len == 0 then 1 else Left(lengths, len - 1) * 2 - Population(lengths, len)
  }

  predicate AllShort(lengths: seq<nat>) {
    forall i :: 0 <= i < |lengths| ==> lengths[i] <= 15
  }

  predicate AllAbsent(lengths: seq<nat>) {
    forall i :: 0 <= i < |lengths| ==> lengths[i] == 0
  }

  /** No length is given more codewords than it has room for. */
  predicate Fits(lengths: seq<nat>) {
    forall len :: 0 <= len <= 15 ==> Left(lengths, len) >= 0
  }

  /** The length vectors that describe a usable code. */
  predicate Accepted(lengths: seq<nat>) {
    AllShort(lengths) && !AllAbsent(lengths) && Fits(lengths)
  }

  /** Symbol s has a codeword. */
  predicate Coded(lengths: seq<nat>, s: nat) {
    s < |lengths| && lengths[s] != 0
  }

  /** Step 3: consecutive codes for the symbols of one length, in symbol order. */
  function CodeOf(lengths: seq<nat>, s: nat): nat
    requires Coded(lengths, s)
  {
    FirstCode(lengths, lengths[s]) + Count(lengths[..s], lengths[s])
  }

  /** The n-bit representation of v, most significant bit first. */
  function MsbBits(v: nat, n: nat): (b: seq<bool>)
    ensures |b| == n
  {
    if n == 0 then [] else MsbBits(v / 2, n - 1) + [v % 2 == 1]
  }

  /** Codewords are sent starting with their most significant bit. */
  function Codeword(lengths: seq<nat>, s: nat): (w: seq<bool>)
    requires Coded(lengths, s)
    ensures |w| == lengths[s]
  {
    MsbBits(CodeOf(lengths, s), lengths[s])
  }

  /** The bits w begin with the codeword of s. */
  predicate Matches(lengths: seq<nat>, s: nat, w: seq<bool>) {
    Coded(lengths, s) && Codeword(lengths, s) <= w
  }

  // ---- counting ----

  lemma {:induction false} CountGrows(lengths: seq<nat>, len: nat, n: nat, m: nat)
    requires n <= m <= |lengths|
    ensures Count(lengths[..n], len) <= Count(lengths[..m], len)
  {
    if n < m {
      assert lengths[..m][..m - 1] == lengths[..m - 1];
      CountGrows(lengths, len, n, m - 1);
    }
  }

  lemma CountStep(lengths: seq<nat>, s: nat, len: nat)
    requires s < |lengths|
    ensures Count(lengths[..s + 1], len) == Count(lengths[..s], len) + (if lengths[s] == len then 1 else 0)
  {
    assert lengths[..s + 1][..s] == lengths[..s];
  }

  /** The rank of a symbol among those of its length stays below the population. */
  lemma RankBelowPopulation(lengths: seq<nat>, s: nat)
    requires Coded(lengths, s)
    ensures Count(lengths[..s], lengths[s]) < Population(lengths, lengths[s])
  {
    CountStep(lengths, s, lengths[s]);
    CountGrows(lengths, lengths[s], s + 1, |lengths|);
    assert lengths[..|lengths|] == lengths;
  }

  // ---- room ----

  /** Used and free codes of a length add up to all bit strings of that length. */
  lemma {:induction false} UsedPlusFree(lengths: seq<nat>, len: nat)
    ensures FirstCode(lengths, len) + Population(lengths, len) + Left(lengths, len) == Pow2(len)
  {
    if len > 0 {
      UsedPlusFree(lengths, len - 1);
    }
  }

  /** The codes of a longer length start past every extension of a shorter code. */
  lemma {:induction false} LongerCodesStartLater(lengths: seq<nat>, short: nat, long: nat)
    requires short < long
    ensures Shl(FirstCode(lengths, short) + Population(lengths, short), long - short) <= FirstCode(lengths, long)
  {
    var end := FirstCode(lengths, short) + Population(lengths, short);
    if short + 1 < long {
      LongerCodesStartLater(lengths, short, long - 1);
    } else {
      assert Shl(end, 1) == 2 * Shl(end, 0);
    }
  }

  /** Every assigned code fits its length. */
  lemma CodeFits(lengths: seq<nat>, s: nat)
    requires Accepted(lengths) && Coded(lengths, s)
    ensures CodeOf(lengths, s) < FirstCode(lengths, lengths[s]) + Population(lengths, lengths[s]) <= Pow2(lengths[s])
  {
    RankBelowPopulation(lengths, s);
    UsedPlusFree(lengths, lengths[s]);
  }

  /**
   * The two rules of section 3.2.2: shorter codes come first, and codes of one length
   * follow symbol order. Here as numeric order of all extensions to the longer length.
   */
  lemma CodesFollowLengthThenSymbol(lengths: seq<nat>, s: nat, t: nat)
    requires Accepted(lengths) && Coded(lengths, s) && Coded(lengths, t)
    requires lengths[s] < lengths[t] || (lengths[s] == lengths[t] && s < t)
    ensures Shl(CodeOf(lengths, s) + 1, lengths[t] - lengths[s]) <= CodeOf(lengths, t)
  {
    if lengths[s] < lengths[t] {
      CodeFits(lengths, s);
      LongerCodesStartLater(lengths, lengths[s], lengths[t]);
      ShlMonotone(CodeOf(lengths, s) + 1, FirstCode(lengths, lengths[s]) + Population(lengths, lengths[s]),
                  lengths[t] - lengths[s]);
    } else {
      CountStep(lengths, s, lengths[s]);
      CountGrows(lengths, lengths[s], s + 1, t);
    }
  }

  // ---- bit strings ----

  lemma {:induction false} MsbPrefix(v: nat, n: nat, k: nat)
    requires k <= n
    ensures MsbBits(v, n)[..k] == MsbBits(Shr(v, n - k), k)
  {
    if k < n {
      MsbPrefix(v / 2, n - 1, k);
      assert MsbBits(v, n)[..k] == MsbBits(v / 2, n - 1)[..k];
    }
  }

  lemma {:induction false} MsbInjective(v: nat, w: nat, n: nat)
    requires v < Pow2(n) && w < Pow2(n) && MsbBits(v, n) == MsbBits(w, n)
    ensures v == w
  {
    if n > 0 {
      var a, b := MsbBits(v / 2, n - 1), MsbBits(w / 2, n - 1);
      assert a == MsbBits(v, n)[..n - 1] && b == MsbBits(w, n)[..n - 1];
      assert MsbBits(v, n)[n - 1] == MsbBits(w, n)[n - 1];
      MsbInjective(v / 2, w / 2, n - 1);
    }
  }

  // ---- unique decoding ----

  /** No codeword begins with the codeword of another symbol. */
  lemma PrefixFree(lengths: seq<nat>, s: nat, t: nat)
    requires Accepted(lengths) && Coded(lengths, s) && Coded(lengths, t)
    requires Codeword(lengths, s) <= Codeword(lengths, t)
    ensures s == t
  {
    CodeOfPrefix(lengths, s, t);
    var c, d := CodeOf(lengths, s), CodeOf(lengths, t);
    if lengths[s] < lengths[t] || s < t {
      CodesFollowLengthThenSymbol(lengths, s, t);
      ShrAtLeast(d, c + 1, lengths[t] - lengths[s]);
    } else if t < s {
      CodesFollowLengthThenSymbol(lengths, t, s);
    }
  }

  /** Dropping the bits after a shorter codeword leaves its code. */
  lemma CodeOfPrefix(lengths: seq<nat>, s: nat, t: nat)
    requires Accepted(lengths) && Coded(lengths, s) && Coded(lengths, t)
    requires Codeword(lengths, s) <= Codeword(lengths, t)
    ensures Shr(CodeOf(lengths, t), lengths[t] - lengths[s]) == CodeOf(lengths, s)
  {
    CodeFits(lengths, s);
    CodeFits(lengths, t);
    MsbPrefix(CodeOf(lengths, t), lengths[t], lengths[s]);
    ShrFits(CodeOf(lengths, t), lengths[t], lengths[t] - lengths[s]);
    MsbInjective(Shr(CodeOf(lengths, t), lengths[t] - lengths[s]), CodeOf(lengths, s), lengths[s]);
  }

  lemma {:induction false} ShrFits(v: nat, n: nat, k: nat)
    requires k <= n && v < Pow2(n)
    ensures Shr(v, k) < Pow2(n - k)
  {
    if k > 0 {
      ShrFits(v / 2, n - 1, k - 1);
    }
  }

  lemma {:induction false} ShrAtLeast(v: nat, w: nat, k: nat)
    requires Shl(w, k) <= v
    ensures Shr(v, k) >= w
  {
    if k > 0 {
      ShrAtLeast(v / 2, w, k - 1);
    }
  }

  /** At most one codeword begins a bit string. */
  lemma UniqueMatch(lengths: seq<nat>, s: nat, t: nat, w: seq<bool>)
    requires Accepted(lengths) && Matches(lengths, s, w) && Matches(lengths, t, w)
    ensures s == t
  {
    if lengths[s] <= lengths[t] {
      PrefixFree(lengths, s, t);
    } else {
      PrefixFree(lengths, t, s);
    }
  }
}
