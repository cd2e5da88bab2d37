/** ASCII decimal numerals: Python's `int(digits)` on the digit groups of the
    Range regex, and `str.format` of an integer in the Content-Range header. */
module Decimal {

  predicate IsDigit(c: char) {
    '0' <= c <= '9'
  }

  predicate AllDigits(s: string) {
    forall i :: 0 <= i < |s| ==> IsDigit(s[i])
  }

  /** A numeral as `str(n)` writes it: non-empty, no leading zero unless it is "0". */
  predicate Canonical(s: string) {
    |s| >= 1 && AllDigits(s) && (s[0] == '0' ==> |s| == 1)
  }

  function DigitValue(c: char): (d: nat)
    requires IsDigit(c)
    ensures d < 10
  {
    c as int - '0' as int
  }

  function DigitChar(d: nat): (c: char)
    requires d < 10
    ensures IsDigit(c) && DigitValue(c) == d
  {
    ('0' as int + d) as char
  }

  /** `int(s)` for a string of decimal digits (leading zeros allowed; "" is 0). */
  function ParseDigits(s: string): (n: nat)
    requires AllDigits(s)
    ensures n == 0 <==> forall i :: 0 <= i < |s| ==> s[i] == '0'
    decreases |s|
  {
    if s == [] then 0
    else
      var init := s[..|s| - 1];
      assert forall i :: 0 <= i < |init| ==> init[i] == s[i];
      ParseDigits(init) * 10 + DigitValue(s[|s| - 1])
  }

  /** `str(n)` for a non-negative integer. */
  function FormatNat(n: nat): (s: string)
    ensures Canonical(s)
    ensures (s[0] == '0') == (n == 0)
  {
    if n < 10 then [DigitChar(n)] else FormatNat(n / 10) + [DigitChar(n % 10)]
  }

  /** `str(i)` for any integer: a minus sign before the magnitude when negative. */
  function FormatInt(i: int): (s: string)
    ensures i >= 0 ==> AllDigits(s) && ParseDigits(s) == i
    ensures i < 0 ==> |s| >= 2 && s[0] == '-' && AllDigits(s[1..]) && ParseDigits(s[1..]) == -i
  {
    if i < 0 then
      ParseFormat(-i);
      "-" + FormatNat(-i)
    else
      ParseFormat(i);
      FormatNat(i)
  }

  /** Reading back a formatted number gives the number. */
  lemma {:induction false} ParseFormat(n: nat)
    ensures ParseDigits(FormatNat(n)) == n
  {
    if n >= 10 {
      var s := FormatNat(n);
      ParseFormat(n / 10);
      assert s[..|s| - 1] == FormatNat(n / 10);
    }
  }

  /** Formatting a parsed canonical numeral gives the numeral back. */
  lemma {:induction false} FormatParse(s: string)
    requires Canonical(s)
    ensures FormatNat(ParseDigits(s)) == s
  {
    if |s| > 1 {
      var init := s[..|s| - 1];
      assert Canonical(init) && init[0] != '0';
      FormatParse(init);
      var n := ParseDigits(s);
      assert n / 10 == ParseDigits(init) && n % 10 == DigitValue(s[|s| - 1]);
      assert DigitChar(n % 10) == s[|s| - 1];
    }
  }
}
