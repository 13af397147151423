/** `generateOTP` of lib/passwordReset.js: `crypto.randomInt(100000, 999999).toString()`.
  * The random draw is a nondeterministic choice in the half-open range; the e-mail
  * transport beside it is not modelled. */
module Otp {
  import opened Digits

  /** `crypto.randomInt(min, max)` draws from [min, max): the upper bound is excluded. */
  const OtpMin: nat := 100000
  const OtpMax: nat := 999999

  predicate InOtpRange(n: nat) {
    OtpMin <= n < OtpMax
  }

  /** What a user can be mailed: six decimal digits, the first not '0', and the
    * numeric value inside the draw range (so never "999999"). */
  predicate IsOtp(s: string) {
    |s| == 6 && AllDigits(s) && s[0] != '0' && InOtpRange(DecimalValue(s))
  }

  lemma OtpOfDraw(n: nat)
    requires InOtpRange(n)
    ensures IsOtp(DecimalString(n))
    ensures DecimalValue(DecimalString(n)) == n
  {
    assert Pow10(6) == 1000000 && Pow10(5) == 100000 by {
      assert Pow10(1) == 10 && Pow10(2) == 100 && Pow10(3) == 1000 && Pow10(4) == 10000;
    }
    DigitCountRange(n, 6);
    DecimalStringShape(n);
    DecimalRoundTrip(n);
    LeadingDigit(n);
  }

  lemma AllNinesValue()
    ensures DecimalValue("999999") == 999999
  {
    var t := "999999";
    assert t[..1][..0] == [];
    assert DecimalValue(t[..1]) == 9;
    assert t[..2][..1] == t[..1];
    assert DecimalValue(t[..2]) == 99;
    assert t[..3][..2] == t[..2];
    assert DecimalValue(t[..3]) == 999;
    assert t[..4][..3] == t[..3];
    assert DecimalValue(t[..4]) == 9999;
    assert t[..5][..4] == t[..4];
    assert DecimalValue(t[..5]) == 99999;
    assert t[..5] == t[..|t| - 1];
  }

  /** The largest six-digit string is never produced. */
  lemma NeverAllNines(s: string)
    requires IsOtp(s)
    ensures s != "999999"
  {
    AllNinesValue();
  }

  method GenerateOtp() returns (otp: string)
    ensures IsOtp(otp)
    ensures |otp| == 6 && otp[0] != '0' && otp != "999999"
  {
    assert InOtpRange(OtpMin);
    var n: nat :| InOtpRange(n);
    OtpOfDraw(n);
    otp := DecimalString(n);
    NeverAllNines(otp);
  }
}
