/** Decimal digit strings: the encoding of a non-negative integer by
  * `Number.prototype.toString()` and the value such a string denotes. */
module Digits {

  predicate IsDigit(c: char) {
    '0' <= c <= '9'
  }

  /** The regular expression `^\d+$`: non-empty and every character a decimal digit. */
  predicate AllDigits(s: string) {
    |s| > 0 && forall i :: 0 <= i < |s| ==> IsDigit(s[i])
  }

  function DigitChar(d: nat): (c: char)
    requires d < 10
    ensures IsDigit(c)
  {
    ('0' as int + d) as char
  }

  /** Value of one character; only meaningful for decimal digits. */
  function DigitValue(c: char): (d: nat)
    ensures d < 10
  {
    if IsDigit(c) then (c as int - '0' as int) else 0
  }

  /** The number a string of decimal digits denotes, most significant digit first. */
  function DecimalValue(s: string): nat {
    if |s| == 0 then 0 else DecimalValue(s[..|s| - 1]) * 10 + DigitValue(s[|s| - 1])
  }

  /** `n.toString()` for a non-negative integer: no leading zero except for 0 itself. */
  function DecimalString(n: nat): (s: string)
    decreases n
  {
    if n < 10 then [DigitChar(n)] else DecimalString(n / 10) + [DigitChar(n % 10)]
  }

  /** Number of digits of `n` in base 10. */
  function DigitCount(n: nat): (k: nat)
    ensures k >= 1
  {
    if n < 10 then 1 else 1 + DigitCount(n / 10)
  }

  function Pow10(k: nat): (p: nat)
    ensures p >= 1
  {
    if k == 0 then 1 else 10 * Pow10(k - 1)
  }

  lemma {:induction false} DecimalStringShape(n: nat)
    ensures |DecimalString(n)| == DigitCount(n)
    ensures AllDigits(DecimalString(n))
    decreases n
  {
    if n >= 10 {
      DecimalStringShape(n / 10);
      var p := DecimalString(n / 10);
      assert DecimalString(n) == p + [DigitChar(n % 10)];
      forall i | 0 <= i < |DecimalString(n)|
        ensures IsDigit(DecimalString(n)[i])
      {
        if i < |p| { assert DecimalString(n)[i] == p[i]; }
      }
    }
  }

  /** Parsing undoes printing: `parseInt(String(n)) == n`. */
  lemma {:induction false} DecimalRoundTrip(n: nat)
    ensures DecimalValue(DecimalString(n)) == n
    decreases n
  {
    var s := DecimalString(n);
    if n < 10 {
      assert s[..|s| - 1] == [];
    } else {
      DecimalRoundTrip(n / 10);
      assert s[..|s| - 1] == DecimalString(n / 10);
    }
  }

  /** The number of digits is fixed by the decade the number lies in. */
  lemma {:induction false} DigitCountRange(n: nat, k: nat)
    requires k >= 1 && Pow10(k - 1) <= n < Pow10(k)
    ensures DigitCount(n) == k
    decreases n
  {
    if n >= 10 {
      assert k >= 2;
      assert Pow10(k - 2) <= n / 10 < Pow10(k - 1);
      DigitCountRange(n / 10, k - 1);
    }
  }

  /** The leading digit of `n.toString()` is `n`'s most significant digit, so it is
    * '0' only for 0 itself. */
  lemma {:induction false} LeadingDigit(n: nat)
    ensures |DecimalString(n)| >= 1
    ensures n > 0 ==> DecimalString(n)[0] != '0'
    decreases n
  {
    if n >= 10 {
      LeadingDigit(n / 10);
    }
  }
}
