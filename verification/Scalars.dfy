/** The scalars of serialized metadata: canonical identifiers and unsigned numbers, and the DBNames entry they make. */
module Scalars {
  import opened Outcomes

  /** A canonical lowercase identifier. */
  type Guid = string

  /** One entry of DBNames: what object a number and an alias stand for. */
  datatype Entry = Entry(guid: Guid, alias: string, number: nat)

  predicate IsDigit(c: char) {
    '0' <= c <= '9'
  }

  predicate IsHexDigit(c: char) {
    IsDigit(c) || 'a' <= c <= 'f' || 'A' <= c <= 'F'
  }

  function AsciiLower(c: char): (r: char)
    ensures !('A' <= c <= 'Z') ==> r == c
  {
    if 'A' <= c <= 'Z' then (c as int + 32) as char else c
  }

  function AsciiLowerAll(s: string): (r: string)
    ensures |r| == |s|
  {
    seq(|s|, i requires 0 <= i < |s| => AsciiLower(s[i]))
  }

  predicate IsGuidText(s: string) {
    |s| == 36 && forall i :: 0 <= i < 36 ==> if i in {8, 13, 18, 23} then s[i] == '-' else IsHexDigit(s[i])
  }

  function ParseGuid(s: string): (r: Option<Guid>)
  {
    if IsGuidText(s) then Some(AsciiLowerAll(s)) else None
  }

  function DigitsValue(s: string): nat
    requires forall i :: 0 <= i < |s| ==> IsDigit(s[i])
  {
    if s == [] then 0
    else
      assert IsDigit(s[|s| - 1]);
      DigitsValue(s[..|s| - 1]) * 10 + (s[|s| - 1] as int - '0' as int)
  }

  /** A 32-bit unsigned number: digits with an optional plus sign. */
  function ParseU32(s: string): (r: Option<nat>)
    ensures r.Some? ==> r.value < 0x1_0000_0000
  {
    ParseDigits(if s != [] && s[0] == '+' then s[1..] else s)
  }

  function ParseDigits(digits: string): (r: Option<nat>)
    ensures r.Some? ==> r.value < 0x1_0000_0000
  {
    if digits != [] && (forall i :: 0 <= i < |digits| ==> IsDigit(digits[i])) && DigitsValue(digits) < 0x1_0000_0000
    then Some(DigitsValue(digits))
    else None
  }
}
