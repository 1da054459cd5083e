/**
 * How identifiers and numbers are written, digit by digit, and which texts are read as
 * them: by place value and letter pairs, without the functions that read them.
 */
module ScalarText {
  import opened Outcomes
  import opened Scalars
  import opened Names

  // ---- letters ----

  /** The character itself, or for a capital ASCII letter the small one, 32 code points on. */
  predicate Lowers(c: char, d: char) {
    if 'A' <= c <= 'Z' then d as int == c as int + 0x20 else d == c
  }

  predicate LowersTo(s: string, t: string) {
    |s| == |t| && forall i :: 0 <= i < |s| ==> Lowers(s[i], t[i])
  }

  lemma AsciiLowerExactly(s: string, t: string)
    ensures AsciiLowerAll(s) == t <==> LowersTo(s, t)
  {
    if LowersTo(s, t) {
      assert AsciiLowerAll(s) == t;
    }
  }

  // ---- identifiers ----

  /** Eight, four, four, four and twelve hexadecimal digits with hyphens between them. */
  predicate IsIdentifier(s: string) {
    |s| == 36 && forall i :: 0 <= i < 36 ==>
      if i == 8 || i == 13 || i == 18 || i == 23 then s[i] == '-' else s[i] in "0123456789abcdefABCDEF"
  }

  /** A text is an identifier in canonical form if it is one, letter by letter in lower case. */
  lemma GuidExactly(s: string, g: Guid)
    ensures ParseGuid(s) == Some(g) <==> IsIdentifier(s) && LowersTo(s, g)
  {
    AsciiLowerExactly(s, g);
    if IsIdentifier(s) {
      forall i | 0 <= i < 36
        ensures if i in {8, 13, 18, 23} then s[i] == '-' else IsHexDigit(s[i])
      {
        HexDigits(s[i]);
      }
    } else if IsGuidText(s) {
      forall i | 0 <= i < 36
        ensures if i == 8 || i == 13 || i == 18 || i == 23 then s[i] == '-' else s[i] in "0123456789abcdefABCDEF"
      {
        HexDigits(s[i]);
      }
    }
  }

  lemma HexDigits(c: char)
    ensures IsHexDigit(c) <==> c in "0123456789abcdefABCDEF"
  {
  }

  // ---- numbers ----

  const POWERS_OF_TEN: seq<nat> := [
    1, 10, 100, 1_000, 10_000, 100_000, 1_000_000, 10_000_000, 100_000_000, 1_000_000_000, 10_000_000_000]

  function PowerOfTen(n: nat): (p: nat)
    ensures p > 0
  {
    if n == 0 then 1 else 10 * PowerOfTen(n - 1)
  }

  /** Every digit counts for the power of ten of the places behind it. */
  function PlaceValue(digits: string): (n: int) {
    if digits == "" then 0
    else (digits[0] as int - '0' as int) * PowerOfTen(|digits| - 1) + PlaceValue(digits[1..])
  }

  predicate AllDigits(s: string) {
    forall i :: 0 <= i < |s| ==> '0' <= s[i] <= '9'
  }

  lemma {:induction false} LastPlace(digits: string, last: char)
    ensures PlaceValue(digits + [last]) == PlaceValue(digits) * 10 + (last as int - '0' as int)
    decreases |digits|
  {
    if digits == "" {
      assert digits + [last] == [last] && [last][1..] == "";
    } else {
      assert (digits + [last])[1..] == digits[1..] + [last];
      LastPlace(digits[1..], last);
      var d, p := digits[0] as int - '0' as int, PowerOfTen(|digits| - 1);
      assert d * (10 * p) == d * p * 10;
    }
  }

  lemma {:induction false} DigitsByPlace(digits: string)
    requires AllDigits(digits)
    ensures DigitsValue(digits) == PlaceValue(digits)
    decreases |digits|
  {
    if digits != "" {
      var n := |digits| - 1;
      assert digits == digits[..n] + [digits[n]];
      LastPlace(digits[..n], digits[n]);
      DigitsByPlace(digits[..n]);
    }
  }

  /** The number of decimal digits. */
  function Width(n: nat): (w: nat)
    requires n < 0x1_0000_0000
    ensures 1 <= w <= 10
  {
    if n < 10 then 1 else if n < 100 then 2 else if n < 1_000 then 3 else if n < 10_000 then 4
    else if n < 100_000 then 5 else if n < 1_000_000 then 6 else if n < 10_000_000 then 7
    else if n < 100_000_000 then 8 else if n < 1_000_000_000 then 9 else 10
  }

  /** The decimal digits of a 32-bit number, without leading zeros. */
  function Decimals(n: nat): (s: string)
    requires n < 0x1_0000_0000
    ensures |s| == Width(n) && AllDigits(s)
  {
    seq(Width(n), i requires 0 <= i < Width(n) => DigitAt(n, Width(n) - 1 - i))
  }

  function DigitAt(n: nat, place: nat): (c: char)
    requires place <= 10
    ensures '0' <= c <= '9'
  {
    ('0' as int + n / POWERS_OF_TEN[place] % 10) as char
  }

  /** Decimal digits of a 32-bit number, leading zeros allowed. */
  predicate Spells(digits: string, n: nat) {
    digits != "" && AllDigits(digits) && PlaceValue(digits) == n && n < 0x1_0000_0000
  }

  /** The digits, perhaps after a plus. */
  predicate Says(s: string, n: nat) {
    Spells(s, n) || (s != "" && s[0] == '+' && Spells(s[1..], n))
  }

  /** A text is read as a 32-bit number exactly when it says it. */
  lemma NumberExactly(s: string, n: nat)
    ensures ParseU32(s) == Some(n) <==> Says(s, n)
  {
    hide PlaceValue, DigitsValue;
    var digits := if s != [] && s[0] == '+' then s[1..] else s;
    if s != [] && s[0] == '+' {
      assert !AllDigits(s);
    }
    SameDigits(digits);
    if AllDigits(digits) {
      DigitsByPlace(digits);
    }
  }

  lemma SameDigits(digits: string)
    ensures AllDigits(digits) <==> forall i :: 0 <= i < |digits| ==> IsDigit(digits[i])
  {
  }

  lemma {:induction false} LeadingDecimals(n: nat, k: nat)
    requires n < 0x1_0000_0000 && k <= Width(n)
    ensures PlaceValue(Decimals(n)[..k]) == n / POWERS_OF_TEN[Width(n) - k]
    decreases k
  {
    hide PlaceValue, PowerOfTen;
    if k == 0 {
      NothingLeads(n);
    } else {
      var s := Decimals(n);
      LeadingDecimals(n, k - 1);
      LastPlace(s[..k - 1], s[k - 1]);
      assert s[..k] == s[..k - 1] + [s[k - 1]] && s[k - 1] == DigitAt(n, Width(n) - k);
      OnePlace(n, Width(n) - k);
    }
  }

  lemma NothingLeads(n: nat)
    requires n < 0x1_0000_0000
    ensures PlaceValue(Decimals(n)[..0]) == n / POWERS_OF_TEN[Width(n)]
  {
    assert Decimals(n)[..0] == "";
  }

  lemma OnePlace(n: nat, place: nat)
    requires place < 10
    ensures n / POWERS_OF_TEN[place] == n / POWERS_OF_TEN[place + 1] * 10 + n / POWERS_OF_TEN[place] % 10
  {
    var p := POWERS_OF_TEN[place];
    assert POWERS_OF_TEN[place + 1] == 10 * p;
    DivideTwice(n, p, 10);
  }

  lemma DivideTwice(n: nat, p: nat, base: nat)
    requires p > 0 && base > 0
    ensures base * p > 0 && n / (base * p) == n / p / base
  {
    var q, r := n / p, n % p;
    var a, b := q / base, q % base;
    InParts(n, p);
    InParts(q, base);
    Distribute(a, b, base, p);
    Products(b, base - 1, p);
    Products(1, base, p);
    BelowProduct(base, p);
    QuotientIs(n, base * p, a, b * p + r);
  }

  lemma InParts(n: nat, d: nat)
    requires d > 0
    ensures n == n / d * d + n % d && n % d < d
  {
  }

  lemma Distribute(a: nat, b: nat, base: nat, p: nat)
    ensures (a * base + b) * p == a * (base * p) + b * p
  {
    assert a * base * p == a * (base * p);
  }

  lemma BelowProduct(base: nat, p: nat)
    requires base > 0
    ensures (base - 1) * p + p == base * p
  {
  }

  lemma QuotientIs(n: nat, d: nat, a: nat, m: nat)
    requires d > 0 && n == a * d + m && m < d
    ensures n / d == a
  {
    var q := n / d;
    assert q * d <= n < q * d + d;
    if q < a {
      Products(q + 1, a, d);
    } else if q > a {
      Products(a + 1, q, d);
    }
  }

  lemma Products(a: nat, b: nat, d: nat)
    requires a <= b
    ensures a * d <= b * d
  {
  }

  /** A number is read back from its decimal digits. */
  lemma DecimalsReadBack(n: nat)
    requires n < 0x1_0000_0000
    ensures ParseU32(Decimals(n)) == Some(n)
  {
    hide PlaceValue, DigitsValue, POWERS_OF_TEN;
    var s := Decimals(n);
    LeadingDecimals(n, |s|);
    assert s[..|s|] == s;
    UnitsPlace();
    NumberExactly(s, n);
  }

  lemma UnitsPlace()
    ensures POWERS_OF_TEN[0] == 1
  {
  }

  /** The digits put into names are those of the number, without leading zeros. */
  lemma {:induction false} DecimalByPlace(n: nat)
    ensures Decimal(n) != "" && AllDigits(Decimal(n)) && PlaceValue(Decimal(n)) == n
    ensures n > 0 ==> Decimal(n)[0] != '0'
    decreases n
  {
    if n < 10 {
      assert Decimal(n)[1..] == "";
    } else {
      DecimalByPlace(n / 10);
      LastPlace(Decimal(n / 10), (n % 10 + '0' as int) as char);
    }
  }

  // ---- what is no number ----

  lemma {:induction false} PlaceValueOfDigits(digits: string)
    requires AllDigits(digits)
    ensures PlaceValue(digits) >= 0
  {
    if digits != "" {
      PlaceValueOfDigits(digits[1..]);
      var d, p := digits[0] as int - '0' as int, PowerOfTen(|digits| - 1);
      assert d * p >= 0;
    }
  }

  /** A character that is no digit, but for a leading plus. */
  lemma NoNumber(s: string, i: nat, n: nat)
    requires i < |s| && !('0' <= s[i] <= '9') && (i > 0 || s[0] != '+')
    ensures !Says(s, n)
  {
    hide PlaceValue;
    if s[0] == '+' {
      assert s[1..][i - 1] == s[i];
    }
  }

  /** Zero says no positive number, and two to the 32 and everything above it none at all. */
  lemma ZeroAndTooLarge(n: nat)
    ensures Says("0", n) ==> n == 0
    ensures !Says("4294967296", n)
  {
    hide PlaceValue;
    assert '0' <= "0"[0] <= '9' && '0' <= "4294967296"[0] <= '9';
    LargestValue();
    assert PlaceValue("0") == 0 by { ZeroValue(); }
  }

  lemma ZeroValue()
    ensures PlaceValue("0") == 0
  {
    assert "0"[1..] == "";
  }

  lemma LargestValue()
    ensures PlaceValue("4294967296") == 0x1_0000_0000
  {
    hide PlaceValue, PowerOfTen;
    LastPlace("429496729", '6');
    LastPlace("42949672", '9');
    LastPlace("4294967", '2');
    LastPlace("429496", '7');
    LastPlace("42949", '6');
    LastPlace("4294", '9');
    LastPlace("429", '4');
    LastPlace("42", '9');
    LastPlace("4", '2');
    LastPlace("", '4');
    Joined();
    assert PlaceValue("") == 0 by { Nothing(); }
  }

  lemma Nothing()
    ensures PlaceValue("") == 0
  {
  }

  lemma Joined()
    ensures "" + ['4'] == "4" && "4" + ['2'] == "42" && "42" + ['9'] == "429" && "429" + ['4'] == "4294"
    ensures "4294" + ['9'] == "42949" && "42949" + ['6'] == "429496" && "429496" + ['7'] == "4294967"
    ensures "4294967" + ['2'] == "42949672" && "42949672" + ['9'] == "429496729"
    ensures "429496729" + ['6'] == "4294967296"
  {
  }
}
