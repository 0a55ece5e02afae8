/** Decimal text of integers, as `printf("%d")` writes it into a string, and
    its reading back. */
module Decimal {

  predicate IsDigitChar(c: char) {
    '0' <= c <= '9'
  }

  predicate AllDigits(s: string) {
    forall i :: 0 <= i < |s| ==> IsDigitChar(s[i])
  }

  /** The digits of `n`, most significant first, without leading zeros. */
  function NatText(n: nat): (r: string)
    ensures |r| >= 1 && AllDigits(r)
    ensures |r| > 1 ==> r[0] != '0'
  {
    if n < 10 then [(n + '0' as int) as char] else NatText(n / 10) + [(n % 10 + '0' as int) as char]
  }

  /** `%d`: a minus sign before the digits of a negative value. */
  function IntText(i: int): (r: string)
    ensures |r| >= 1
    ensures i >= 0 ==> r == NatText(i)
    ensures i < 0 ==> r == "-" + NatText(-i)
  {
    if i < 0 then "-" + NatText(-i) else NatText(i)
  }

  /** The value of a digit string. */
  function DigitsValue(s: string): nat
    requires AllDigits(s)
  {
    if s == [] then 0
    else
      assert IsDigitChar(s[|s| - 1]);
      10 * DigitsValue(s[..|s| - 1]) + (s[|s| - 1] as int - '0' as int)
  }

  lemma {:induction false} NatTextRoundTrip(n: nat)
    ensures DigitsValue(NatText(n)) == n
  {
    if n >= 10 {
      NatTextRoundTrip(n / 10);
      var r := NatText(n);
      assert r[..|r| - 1] == NatText(n / 10);
    }
  }

  /** The value of `%d` text: an optional minus sign, then digits. */
  function ParseInt(s: string): (r: int)
    requires |s| >= 1 && (if s[0] == '-' then AllDigits(s[1..]) else AllDigits(s))
  {
    if s[0] == '-' then 0 - DigitsValue(s[1..]) else DigitsValue(s)
  }

  /** Reading back the text of an integer gives the integer. */
  lemma IntTextRoundTrip(i: int)
    ensures var t := IntText(i); (if t[0] == '-' then AllDigits(t[1..]) else AllDigits(t)) && ParseInt(t) == i
  {
    var t := IntText(i);
    if i < 0 {
      assert t[1..] == NatText(-i);
      NatTextRoundTrip(-i);
    } else {
      NatTextRoundTrip(i);
    }
  }
}
