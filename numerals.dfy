/** Digit strings in a radix, as `parseInt` and `/\d+/` read them, and decimal rendering. */
module Numerals {
  import opened Chars

  /** The value of a character as a digit in any radix up to 36, the way `parseInt` reads
      it: `0`-`9`, then `a`-`z` or `A`-`Z` for 10 to 35, and 36 for any other character. */
  function CharValue(c: char): (v: nat)
    ensures v <= 36
    ensures v < 10 <==> IsDigit(c)
  {
    if IsDigit(c) then c as int - '0' as int
    else if 'a' <= c <= 'z' then c as int - 'a' as int + 10
    else if 'A' <= c <= 'Z' then c as int - 'A' as int + 10
    else 36
  }

  predicate IsDigitIn(c: char, radix: nat) {
    CharValue(c) < radix
  }

  predicate AllDigitsIn(s: string, radix: nat) {
    forall i | 0 <= i < |s| :: IsDigitIn(s[i], radix)
  }

  /** The number a string of digits denotes, most significant digit first. */
  function ValueIn(s: string, radix: nat): nat
    requires AllDigitsIn(s, radix)
  {
    if s == [] then 0 else ValueIn(s[..|s| - 1], radix) * radix + CharValue(s[|s| - 1])
  }

  /** The longest prefix of `s` made of digits of the radix. */
  function LeadingDigitsIn(s: string, radix: nat): (p: string)
    ensures p <= s && AllDigitsIn(p, radix)
    ensures |p| == |s| || !IsDigitIn(s[|p|], radix)
  {
    if s != [] && IsDigitIn(s[0], radix) then [s[0]] + LeadingDigitsIn(s[1..], radix) else []
  }

  function DigitChar(d: nat): (c: char)
    requires d < 10
    ensures IsDigit(c) && CharValue(c) == d
  {
    ('0' as int + d) as char
  }

  /** `n` in decimal without leading zeros, as a template literal renders an integer. */
  function DecimalString(n: nat): (s: string)
    ensures AllDigitsIn(s, 10)
    ensures |s| == 1 <==> n < 10
    ensures |s| >= 1 && (s[0] == '0' <==> n == 0)
  {
    if n < 10 then [DigitChar(n)] else DecimalString(n / 10) + [DigitChar(n % 10)]
  }

  /** Reading back a rendered number gives the number. */
  lemma {:induction false} DecimalStringValue(n: nat)
    ensures ValueIn(DecimalString(n), 10) == n
  {
    if n >= 10 {
      var s := DecimalString(n);
      assert s[..|s| - 1] == DecimalString(n / 10);
      DecimalStringValue(n / 10);
    }
  }

  /** Different numbers render differently. */
  lemma DecimalStringInjective(m: nat, n: nat)
    requires DecimalString(m) == DecimalString(n)
    ensures m == n
  {
    DecimalStringValue(m);
    DecimalStringValue(n);
  }

  /** The digit prefix of `s + t` is `s` when `s` is all digits and `t` does not start with one. */
  lemma {:induction false} LeadingDigitsOfDigitsThen(s: string, t: string, radix: nat)
    requires AllDigitsIn(s, radix)
    requires t == [] || !IsDigitIn(t[0], radix)
    ensures LeadingDigitsIn(s + t, radix) == s
  {
    if s != [] {
      assert (s + t)[1..] == s[1..] + t;
      LeadingDigitsOfDigitsThen(s[1..], t, radix);
    }
  }
}
