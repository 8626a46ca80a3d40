/**
 * Decimal text of naturals and integers, standing for Rust's `to_string`
 * and `parse` on unsigned and signed integers.
 */
module Decimal {

  function Pow10(k: nat): (r: nat)
    ensures r >= 1
  {
    if k == 0 then 1 else 10 * Pow10(k - 1)
  }

  predicate IsDigit(c: char)
  {
    '0' <= c <= '9'
  }

  predicate AllDigits(s: string)
  {
    forall i :: 0 <= i < |s| ==> IsDigit(s[i])
  }

  function DigitChar(d: nat): (c: char)
    requires d < 10
    ensures IsDigit(c)
  {
    ('0' as int + d) as char
  }

  function DigitValue(c: char): (d: nat)
    requires IsDigit(c)
    ensures d < 10
  {
    c as int - '0' as int
  }

  /** The shortest decimal spelling of n: no leading zero except for 0 itself. */
  function NatToString(n: nat): (s: string)
    ensures |s| >= 1 && AllDigits(s)
    ensures s[0] == '0' <==> n == 0
    decreases n
  {
    if n < 10 then [DigitChar(n)] else NatToString(n / 10) + [DigitChar(n % 10)]
  }

  /** The value of a string of decimal digits, most significant first. */
  function ParseNat(s: string): nat
    requires AllDigits(s)
  {
    if s == [] then 0 else 10 * ParseNat(s[..|s| - 1]) + DigitValue(s[|s| - 1])
  }

  /** Parsing undoes printing. */
  lemma {:induction false} ParseNatToString(n: nat)
    ensures ParseNat(NatToString(n)) == n
    decreases n
  {
    var s := NatToString(n);
    if n >= 10 {
      ParseNatToString(n / 10);
      assert s[..|s| - 1] == NatToString(n / 10);
    }
  }

  /** Number of decimal digits of n, `checked_ilog10().unwrap_or(0) + 1`. */
  function NumDigits(n: nat): (k: nat)
    ensures k >= 1
    decreases n
  {
    if n < 10 then 1 else 1 + NumDigits(n / 10)
  }

  /** A positive n has k digits exactly when 10^(k-1) <= n < 10^k. */
  lemma {:induction false} NumDigitsBounds(n: nat)
    ensures n < Pow10(NumDigits(n))
    ensures n >= 1 ==> Pow10(NumDigits(n) - 1) <= n
    decreases n
  {
    if n >= 10 {
      NumDigitsBounds(n / 10);
    }
  }

  lemma {:induction false} NumDigitsIsLength(n: nat)
    ensures |NatToString(n)| == NumDigits(n)
    decreases n
  {
    if n >= 10 {
      NumDigitsIsLength(n / 10);
    }
  }

  /** A number between 10^(m-1) and 10^m has exactly m digits. */
  lemma {:induction false} NumDigitsBetween(n: nat, m: nat)
    requires m >= 1 && Pow10(m - 1) <= n < Pow10(m)
    ensures NumDigits(n) == m
    decreases m
  {
    if m > 1 {
      NumDigitsBetween(n / 10, m - 1);
    }
  }

  lemma {:induction false} Pow10Add(a: nat, b: nat)
    ensures Pow10(a + b) == Pow10(a) * Pow10(b)
    decreases a
  {
    if a > 0 {
      Pow10Add(a - 1, b);
      assert Pow10(a + b) == 10 * Pow10(a - 1 + b);
    }
  }

  /** The decimal spelling of a signed integer, with a leading '-' when negative. */
  function IntToString(i: int): (s: string)
    ensures |s| >= 1
  {
    if i < 0 then "-" + NatToString(-i) else NatToString(i)
  }
}
