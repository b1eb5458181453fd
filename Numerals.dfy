/**
 * Decimal numerals: how the standard library prints an integer (`to_string`)
 * and how `str::parse::<u16>` reads one back.
 */
module Numerals {
  import opened Base

  predicate IsDigit(c: char) {
    '0' <= c <= '9'
  }

  predicate AllDigits(s: string) {
    forall i :: 0 <= i < |s| ==> IsDigit(s[i])
  }

  function DigitValue(c: char): (d: nat)
    requires IsDigit(c)
  {
    c as int - '0' as int
  }

  function DigitChar(d: nat): (c: char)
    requires d < 10
  {
    ('0' as int + d) as char
  }

  /** The number a string of digits denotes, most significant digit first. */
  function ValueOf(s: string): nat
    requires AllDigits(s)
  {
    if s == [] then 0 else ValueOf(s[..|s| - 1]) * 10 + DigitValue(s[|s| - 1])
  }

  /** The shortest decimal numeral of `n`, as `to_string` prints it. */
  function Decimal(n: nat): (s: string)
    ensures |s| > 0 && AllDigits(s)
    ensures ValueOf(s) == n
    ensures |s| > 1 ==> s[0] != '0'
  {
    if n < 10 then [DigitChar(n)]
    else
      var front := Decimal(n / 10);
      assert (front + [DigitChar(n % 10)])[..|front|] == front;
      front + [DigitChar(n % 10)]
  }

  /**
   * `str::parse::<u16>`: an optional leading `+` (which may not stand
   * alone), then at least one decimal digit, denoting a value below 2^16.
   * Leading zeros are accepted; anything else is an error (`None`).
   */
  function ParseU16(s: string): (r: Option<u16>)
    ensures r.Some? ==> |s| > 0 && forall i :: 0 <= i < |s| ==> IsDigit(s[i]) || (i == 0 && s[i] == '+')
    ensures r.Some? ==> ':' !in s
  {
    var digits := if |s| > 1 && s[0] == '+' then s[1..] else s;
    if |digits| == 0 || !AllDigits(digits) then None
    else if ValueOf(digits) < 0x1_0000 then Some(ValueOf(digits))
    else None
  }

  /** Reading back a printed port gives the port. */
  lemma ParseU16Decimal(p: u16)
    ensures ParseU16(Decimal(p)) == Some(p)
  {
  }
}
