/** Bit sequences, least significant bit first, and the bit stream of a byte string. */
module Bits {

  type Byte = b: int | 0 <= b < 0x100
  type U16 = x: int | 0 <= x < 0x1_0000
  type U32 = x: int | 0 <= x < 0x1_0000_0000

  /** v << n */
  function Shl(v: nat, n: nat): (r: nat)
    ensures r == 0 <==> v == 0
  {
    if n == 0 then v else 2 * Shl(v, n - 1)
  }

  /** v >> n */
  function Shr(v: nat, n: nat): nat {
    if n == 0 then v else Shr(v / 2, n - 1)
  }

  /** v & ((1 << n) - 1) */
  function Low(v: nat, n: nat): nat {
    if n == 0 then 0 else v % 2 + 2 * Low(v / 2, n - 1)
  }

  function Pow2(n: nat): (p: nat)
    ensures p > 0
  {
    Shl(1, n)
  }

  /** A left shift is a multiplication. */
  lemma {:induction false} ShlIsProduct(v: nat, n: nat)
    ensures Shl(v, n) == v * Pow2(n)
  {
    if n > 0 {
      ShlIsProduct(v, n - 1);
      var p := Pow2(n - 1);
      assert v * (2 * p) == 2 * (v * p);
    }
  }

  /** A right shift and a mask split a number into its high and low part. */
  lemma {:induction false} HighAndLow(v: nat, n: nat)
    ensures v == Shl(Shr(v, n), n) + Low(v, n) && Low(v, n) < Pow2(n)
  {
    if n > 0 {
      HighAndLow(v / 2, n - 1);
    }
  }

  lemma {:induction false} ShlMonotone(v: nat, w: nat, n: nat)
    requires v <= w
    ensures Shl(v, n) <= Shl(w, n)
  {
    if n > 0 {
      ShlMonotone(v, w, n - 1);
    }
  }

  lemma {:induction false} Pow2Monotone(a: nat, b: nat)
    requires a <= b
    ensures Pow2(a) <= Pow2(b)
  {
    if a < b {
      Pow2Monotone(a, b - 1);
    }
  }

  /** The powers the decoder meets. */
  lemma Pow2Values()
    ensures Pow2(0) == 1 && Pow2(1) == 2 && Pow2(2) == 4 && Pow2(3) == 8 && Pow2(4) == 16 && Pow2(5) == 32
    ensures Pow2(6) == 64 && Pow2(7) == 128 && Pow2(8) == 0x100 && Pow2(9) == 0x200 && Pow2(10) == 0x400
    ensures Pow2(11) == 0x800 && Pow2(12) == 0x1000 && Pow2(13) == 0x2000 && Pow2(14) == 0x4000
    ensures Pow2(15) == 0x8000 && Pow2(16) == 0x1_0000 && Pow2(24) == 0x100_0000
  {
    assert Pow2(4) == 16;
    assert Pow2(8) == 0x100;
    assert Pow2(12) == 0x1000;
    assert Pow2(16) == 0x1_0000;
    assert Pow2(20) == 0x10_0000;
  }

  /** The number whose binary digits are b, least significant first. */
  function Value(b: seq<bool>): (v: nat)
    ensures v < Pow2(|b|)
  {
    if b == [] then 0 else (if b[0] then 1 else 0) + 2 * Value(b[1..])
  }

  /** The n low bits of v, least significant first. */
  function ToBits(v: nat, n: nat): (b: seq<bool>)
    ensures |b| == n
  {
    if n == 0 then [] else [v % 2 == 1] + ToBits(v / 2, n - 1)
  }

  function Zeros(n: nat): (b: seq<bool>)
    ensures |b| == n
  {
    seq(n, _ => false)
  }

  lemma {:induction false} ValueOfZeros(n: nat)
    ensures Value(Zeros(n)) == 0
  {
    if n > 0 {
      assert Zeros(n)[1..] == Zeros(n - 1);
      ValueOfZeros(n - 1);
    }
  }

  lemma {:induction false} ToBitsOfValue(b: seq<bool>)
    ensures ToBits(Value(b), |b|) == b
  {
    if b != [] {
      assert Value(b) / 2 == Value(b[1..]);
      ToBitsOfValue(b[1..]);
    }
  }

  lemma {:induction false} ValueOfToBits(v: nat, n: nat)
    requires v < Pow2(n)
    ensures Value(ToBits(v, n)) == v
  {
    if n > 0 {
      ValueOfToBits(v / 2, n - 1);
    }
  }

  lemma {:induction false} ValueOfAppend(a: seq<bool>, b: seq<bool>)
    ensures Value(a + b) == Value(a) + Shl(Value(b), |a|)
  {
    if a == [] {
      assert a + b == b;
    } else {
      assert (a + b)[1..] == a[1..] + b;
      ValueOfAppend(a[1..], b);
    }
  }

  /** Shifting right by k drops the first k bits. */
  lemma {:induction false} ShrOfValue(b: seq<bool>, k: nat)
    requires k <= |b|
    ensures Shr(Value(b), k) == Value(b[k..])
  {
    if k == 0 {
      assert b[0..] == b;
    } else {
      assert Value(b) / 2 == Value(b[1..]);
      ShrOfValue(b[1..], k - 1);
      assert b[1..][k - 1..] == b[k..];
    }
  }

  /** Masking to k bits keeps the first k, or all of them when there are fewer. */
  lemma {:induction false} LowOfValue(b: seq<bool>, k: nat)
    ensures Low(Value(b), k) == Value(if k <= |b| then b[..k] else b)
  {
    if b != [] && k > 0 {
      assert Value(b) / 2 == Value(b[1..]);
      LowOfValue(b[1..], k - 1);
      if k <= |b| {
        assert b[1..][..k - 1] == b[..k][1..];
      }
    } else if b == [] {
      LowOfZero(k);
    }
  }

  lemma {:induction false} LowOfZero(k: nat)
    ensures Low(0, k) == 0
  {
    if k > 0 {
      LowOfZero(k - 1);
    }
  }

  /** The low k bits of v, read back from its binary digits. */
  lemma {:induction false} ValueOfPrefix(v: nat, n: nat, k: nat)
    requires k <= n
    ensures Value(ToBits(v, n)[..k]) == Low(v, k)
  {
    if k > 0 {
      ValueOfPrefix(v / 2, n - 1, k - 1);
      assert ToBits(v, n)[..k][1..] == ToBits(v / 2, n - 1)[..k - 1];
    }
  }

  lemma ValueInjective(a: seq<bool>, b: seq<bool>)
    requires |a| == |b| && Value(a) == Value(b)
    ensures a == b
  {
    ToBitsOfValue(a);
    ToBitsOfValue(b);
  }

  /** The bits of a byte string in the order section 3.1.1 of RFC 1951 packs them. */
  function Stream(bytes: seq<Byte>): (b: seq<bool>)
    ensures |b| == 8 * |bytes|
  {
    if bytes == [] then [] else ToBits(bytes[0], 8) + Stream(bytes[1..])
  }

  lemma {:induction false} StreamOfAppend(a: seq<Byte>, b: seq<Byte>)
    ensures Stream(a + b) == Stream(a) + Stream(b)
  {
    if a == [] {
      assert a + b == b;
    } else {
      assert (a + b)[1..] == a[1..] + b;
      StreamOfAppend(a[1..], b);
    }
  }

  lemma StreamSlice(bytes: seq<Byte>, from: nat, to: nat)
    requires from <= to <= |bytes|
    ensures Stream(bytes)[8 * from..8 * to] == Stream(bytes[from..to])
  {
    hide Stream;
    var front, middle, back := bytes[..from], bytes[from..to], bytes[to..];
    assert bytes == front + middle + back by {
      ThreeParts(bytes, from, to);
    }
    StreamOfAppend(front + middle, back);
    StreamOfAppend(front, middle);
    MiddlePart(Stream(bytes), Stream(front), Stream(middle), Stream(back), 8 * from, 8 * to);
  }

  lemma ThreeParts(s: seq<Byte>, from: nat, to: nat)
    requires from <= to <= |s|
    ensures s == s[..from] + s[from..to] + s[to..]
  {
  }

  lemma MiddlePart(s: seq<bool>, u: seq<bool>, v: seq<bool>, w: seq<bool>, from: nat, to: nat)
    requires s == u + v + w && |u| == from && |u| + |v| == to
    ensures s[from..to] == v
  {
  }

  lemma ByteValue(byte: Byte)
    ensures Value(ToBits(byte, 8)) == byte
  {
    Pow2Values();
    ValueOfToBits(byte, 8);
  }

  lemma {:induction false} StreamAt(bytes: seq<Byte>, k: nat, j: nat)
    requires k < |bytes| && j < 8
    ensures Stream(bytes)[8 * k + j] == ToBits(bytes[k], 8)[j]
  {
    if k > 0 {
      StreamAt(bytes[1..], k - 1, j);
      assert Stream(bytes)[8 * k + j] == Stream(bytes[1..])[8 * (k - 1) + j];
    }
  }

  lemma StreamByte(bytes: seq<Byte>, k: nat)
    requires k < |bytes|
    ensures Stream(bytes)[8 * k..8 * k + 8] == ToBits(bytes[k], 8)
    ensures Value(Stream(bytes)[8 * k..8 * k + 8]) == bytes[k]
  {
    ByteValue(bytes[k]);
    var piece := Stream(bytes)[8 * k..8 * k + 8];
    forall j | 0 <= j < 8 ensures piece[j] == ToBits(bytes[k], 8)[j] {
      StreamAt(bytes, k, j);
    }
    assert piece == ToBits(bytes[k], 8);
  }

  /** The n bits from pos on, with zeros past the end of the stream. */
  function Padded(b: seq<bool>, pos: nat, n: nat): (w: seq<bool>)
    ensures |w| == n
  {
    seq(n, i requires 0 <= i < n => pos + i < |b| && b[pos + i])
  }
}
