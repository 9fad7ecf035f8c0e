/**
 * The six-digit one-time passcode of utils/otp.js (and its copy in the auth
 * controller): `Math.floor(100000 + Math.random() * 900000).toString()`.
 * The random draw is the integer part of `Math.random() * 900000`, passed in
 * as `draw`; the rendering is JavaScript's decimal `toString` of a
 * non-negative integer.
 */
module Otp {

  const OTP_BASE: nat := 100000
  const OTP_SPAN: nat := 900000
  const OTP_LENGTH: nat := 6

  predicate IsDigit(c: char) { '0' <= c <= '9' }

  function DigitChar(d: nat): (c: char)
    requires d < 10
    ensures IsDigit(c)
  {
    "0123456789"[d]
  }

  function DigitValue(c: char): (d: nat)
    requires IsDigit(c)
    ensures d < 10
  {
    (c as int - '0' as int) as nat
  }

  /** `n.toString()` for a non-negative integer: no sign, no leading zeros. */
  function DecimalString(n: nat): (s: string)
    ensures |s| >= 1
    decreases n
  {
    if n < 10 then [DigitChar(n)] else DecimalString(n / 10) + [DigitChar(n % 10)]
  }

  predicate AllDigits(s: string) {
    forall i :: 0 <= i < |s| ==> IsDigit(s[i])
  }

  /** The value of a string of decimal digits, most significant first. */
  function ParseDecimal(s: string): (n: nat)
    requires AllDigits(s)
    decreases |s|
  {
    if s == [] then 0 else ParseDecimal(s[..|s| - 1]) * 10 + DigitValue(s[|s| - 1])
  }

  function Pow10(k: nat): (p: nat)
    ensures p >= 1
  {
    if k == 0 then 1 else 10 * Pow10(k - 1)
  }

  /** The passcode value: an integer in [100000, 999999]. */
  function OtpValue(draw: nat): (v: nat)
    requires draw < OTP_SPAN
    ensures OTP_BASE <= v <= 999999
  {
    OTP_BASE + draw
  }

  /** The passcode as the string the handlers store and compare. */
  function GenerateOtp(draw: nat): (otp: string)
    requires draw < OTP_SPAN
    ensures |otp| == OTP_LENGTH && AllDigits(otp)
  {
    var v := OtpValue(draw);
    assert Pow10(5) == 100000 && Pow10(6) == 1000000;
    DecimalStringLength(v, 6);
    DecimalStringDigits(v);
    DecimalString(v)
  }

  /** The rendering uses decimal digits only, and a positive value has no leading zero. */
  lemma {:induction false} DecimalStringDigits(n: nat)
    ensures AllDigits(DecimalString(n))
    ensures n > 0 ==> DecimalString(n)[0] != '0'
    decreases n
  {
    if n >= 10 {
      DecimalStringDigits(n / 10);
      assert DecimalString(n)[0] == DecimalString(n / 10)[0];
    } else if n > 0 {
      assert DecimalString(n) == ["0123456789"[n]];
    }
  }

  /** A value with k digits renders as exactly k characters. */
  lemma {:induction false} DecimalStringLength(n: nat, k: nat)
    requires k >= 1 && Pow10(k - 1) <= n < Pow10(k)
    ensures |DecimalString(n)| == k
    decreases k
  {
    if k == 1 {
      assert n < 10;
    } else {
      assert Pow10(k - 1) == 10 * Pow10(k - 2);
      assert n >= 10;
      assert Pow10(k - 2) <= n / 10 < Pow10(k - 1);
      DecimalStringLength(n / 10, k - 1);
    }
  }

  /** Parsing the rendering gives the value back. */
  lemma {:induction false} DecimalRoundTrip(n: nat)
    ensures AllDigits(DecimalString(n))
    ensures ParseDecimal(DecimalString(n)) == n
    decreases n
  {
    DecimalStringDigits(n);
    var s := DecimalString(n);
    if n < 10 {
      assert s[..0] == [];
      assert DigitValue("0123456789"[n]) == n;
    } else {
      var init := DecimalString(n / 10);
      DecimalRoundTrip(n / 10);
      assert s[..|s| - 1] == init;
      assert DigitValue(DigitChar(n % 10)) == n % 10 by {
        assert "0123456789"[n % 10] as int - '0' as int == n % 10;
      }
    }
  }

  /**
   * What utils/otp.js promises: six characters, all decimal digits, no
   * leading zero, and the string reads back as the drawn value in
   * [100000, 999999].
   */
  lemma GenerateOtpWellFormed(draw: nat)
    requires draw < OTP_SPAN
    ensures |GenerateOtp(draw)| == OTP_LENGTH
    ensures AllDigits(GenerateOtp(draw)) && GenerateOtp(draw)[0] != '0'
    ensures ParseDecimal(GenerateOtp(draw)) == OTP_BASE + draw
    ensures OTP_BASE <= ParseDecimal(GenerateOtp(draw)) <= 999999
  {
    var v := OtpValue(draw);
    DecimalStringDigits(v);
    DecimalRoundTrip(v);
  }

  /** Distinct draws give distinct passcodes. */
  lemma GenerateOtpInjective(d1: nat, d2: nat)
    requires d1 < OTP_SPAN && d2 < OTP_SPAN
    ensures GenerateOtp(d1) == GenerateOtp(d2) <==> d1 == d2
  {
    if GenerateOtp(d1) == GenerateOtp(d2) {
      GenerateOtpWellFormed(d1);
      GenerateOtpWellFormed(d2);
    }
  }
}
