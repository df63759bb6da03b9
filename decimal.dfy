/**
 * Decimal numbers in C strings: the part of `strtoul (s, &end, 10)` the
 * format parser relies on, and the inverse printer.
 */
module Decimal {

  predicate IsDigit(c: char)
  {
    '0' <= c <= '9'
  }

  predicate AllDigits(s: string)
  {
    forall i :: 0 <= i < |s| ==> IsDigit(s[i])
  }

  function DigitValue(c: char): (d: nat)
    requires IsDigit(c)
    ensures d < 10
  {
    (c as int) - ('0' as int)
  }

  function DigitChar(d: nat): (c: char)
    requires d < 10
    ensures IsDigit(c) && DigitValue(c) == d
  {
    ('0' as int + d) as char
  }

  /** The length of the run of digits at the start of `s`. */
  function DigitRun(s: string): (n: nat)
    ensures n <= |s| && AllDigits(s[..n])
    ensures n < |s| ==> !IsDigit(s[n])
  {
    if |s| == 0 || !IsDigit(s[0]) then 0
    else
      var m := 1 + DigitRun(s[1..]);
      assert s[..m] == [s[0]] + s[1..][..m - 1];
      m
  }

  /** The value of a string of digits, most significant first. */
  function ValueOf(s: string): nat
    requires AllDigits(s)
  {
    if |s| == 0 then 0 else 10 * ValueOf(s[..|s| - 1]) + DigitValue(s[|s| - 1])
  }

  /**
   * strtoul (s, &end, 10) on a string that starts with a digit or with no
   * number at all: the value of the leading digits and the rest of the
   * string, which is `s` itself when there is no digit.
   */
  function ParseUnsigned(s: string): (r: (nat, string))
    ensures |r.1| <= |s| && r.1 == s[|s| - |r.1|..]
    ensures AllDigits(s[..|s| - |r.1|]) && r.0 == ValueOf(s[..|s| - |r.1|])
    ensures r.1 == s ==> r.0 == 0
    ensures r.1 != [] ==> !IsDigit(r.1[0])
  {
    var n := DigitRun(s);
    (ValueOf(s[..n]), s[n..])
  }

  /** The decimal digits of `n`, without leading zeros. */
  function DigitsOf(n: nat): (s: string)
    ensures |s| >= 1 && AllDigits(s)
    ensures |s| > 1 ==> s[0] != '0'
  {
    if n < 10 then [DigitChar(n)] else DigitsOf(n / 10) + [DigitChar(n % 10)]
  }

  /** Reading the printed digits gives the number back. */
  lemma {:induction false} ValueOfDigitsOf(n: nat)
    ensures ValueOf(DigitsOf(n)) == n
  {
    if n >= 10 {
      var s := DigitsOf(n);
      assert s[..|s| - 1] == DigitsOf(n / 10);
      ValueOfDigitsOf(n / 10);
    }
  }

  /** The digit run of a string of digits followed by a non-digit is exactly those digits. */
  lemma {:induction false} DigitRunOfDigits(s: string, rest: string)
    requires AllDigits(s)
    requires rest == [] || !IsDigit(rest[0])
    ensures DigitRun(s + rest) == |s|
  {
    if |s| > 0 {
      assert (s + rest)[1..] == s[1..] + rest;
      DigitRunOfDigits(s[1..], rest);
    }
  }

  /** strtoul reads back a printed number and stops where the number ends. */
  lemma ParseUnsignedDigitsOf(n: nat, rest: string)
    requires rest == [] || !IsDigit(rest[0])
    ensures ParseUnsigned(DigitsOf(n) + rest) == (n, rest)
  {
    var s := DigitsOf(n);
    DigitRunOfDigits(s, rest);
    assert (s + rest)[..|s|] == s;
    assert (s + rest)[|s|..] == rest;
    ValueOfDigitsOf(n);
  }
}
