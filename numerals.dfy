/**
 * Decimal digits as Python reads and writes them: `int()` of a run of
 * ASCII digits and `str()` of a non-negative integer.
 */
module Numerals {

  predicate IsDigit(c: char) {
    '0' <= c <= '9'
  }

  predicate AllDigits(s: string) {
    forall i :: 0 <= i < |s| ==> IsDigit(s[i])
  }

  function DigitValue(c: char): nat {
    if IsDigit(c) then c as int - '0' as int else 0
  }

  function DigitChar(d: nat): char
    requires d < 10
  {
    ('0' as int + d) as char
  }

  /** `int(s)` for a run of digits: leading zeros add nothing. */
  function Value(s: string): nat
    decreases |s|
  {
    if s == [] then 0 else 10 * Value(s[..|s| - 1]) + DigitValue(s[|s| - 1])
  }

  /** `str(n)`: the shortest decimal numeral of `n`, which `Value` reads back. */
  function Decimal(n: nat): (r: string)
    ensures r != [] && AllDigits(r)
    ensures Value(r) == n
    ensures r[0] == '0' ==> r == "0"
  {
    var high := if n < 10 then [] else Decimal(n / 10);
    var r := high + [DigitChar(n % 10)];
    assert r[..|r| - 1] == high;
    r
  }

  /**
   * Length of the longest prefix of `s` whose characters are all digits
   * (`digits`) or all non-digits (`!digits`): one run of the regular
   * expression `\d+` or of its complement.
   */
  function RunLen(s: string, digits: bool): (n: nat)
    ensures n <= |s|
    ensures forall i :: 0 <= i < n ==> IsDigit(s[i]) == digits
    ensures n < |s| ==> IsDigit(s[n]) != digits
    decreases |s|
  {
    if s == [] || IsDigit(s[0]) != digits then 0 else 1 + RunLen(s[1..], digits)
  }

  /** The three properties in RunLen's contract determine it. */
  lemma RunLenUnique(s: string, digits: bool, k: nat)
    requires k <= |s|
    requires forall i :: 0 <= i < k ==> IsDigit(s[i]) == digits
    requires k < |s| ==> IsDigit(s[k]) != digits
    ensures RunLen(s, digits) == k
  {
  }

  /** A numeral followed by a non-digit is read as exactly that numeral. */
  lemma RunLenOfNumeral(d: string, rest: string)
    requires AllDigits(d)
    requires rest == [] || !IsDigit(rest[0])
    ensures RunLen(d + rest, true) == |d|
  {
    RunLenUnique(d + rest, true, |d|);
  }
}
