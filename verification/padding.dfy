/**
 * Decimal digit counts and zero padding: Ruby's `Integer#digits.size`, `Integer#to_s`
 * and the program's `append_zeros`.
 */
module Padding {
  import opened Text

  function Pow10(e: nat): (p: nat)
    ensures p >= 1
  {
    if e == 0 then 1 else 10 * Pow10(e - 1)
  }

  /** `n.digits.size`: how many base-ten digits `n` has (Ruby gives `[0]` for zero, so one). */
  function NumDigits(n: nat): (d: nat)
    ensures d >= 1
  {
    if n < 10 then 1 else 1 + NumDigits(n / 10)
  }

  /** The digit count is the `d` with 10^(d-1) <= n < 10^d (for n >= 1). */
  lemma {:induction false} NumDigitsBounds(n: nat)
    ensures n < Pow10(NumDigits(n))
    ensures n >= 1 ==> Pow10(NumDigits(n) - 1) <= n
  {
    if n >= 10 {
      NumDigitsBounds(n / 10);
    }
  }

  /** A larger number never has fewer digits. */
  lemma {:induction false} NumDigitsMonotone(a: nat, b: nat)
    requires a <= b
    ensures NumDigits(a) <= NumDigits(b)
  {
    if a >= 10 {
      NumDigitsMonotone(a / 10, b / 10);
    }
  }

  function DigitChar(d: nat): (c: char)
    requires d < 10
    ensures IsDigit(c)
  {
    ('0' as int + d) as char
  }

  function DigitValue(c: char): (d: nat)
    requires IsDigit(c)
    ensures d < 10
  {
    c as int - '0' as int
  }

  /** The number a string of decimal digits denotes; leading zeros are allowed. */
  function DigitsValue(s: string): nat
    requires AllDigits(s)
  {
    if s == [] then 0 else 10 * DigitsValue(s[..|s| - 1]) + DigitValue(s[|s| - 1])
  }

  /** `n.to_s`: the decimal form of `n`. */
  function DecimalString(n: nat): (r: string)
    ensures |r| == NumDigits(n)
    ensures AllDigits(r)
  {
    if n < 10 then [DigitChar(n)] else DecimalString(n / 10) + [DigitChar(n % 10)]
  }

  /** The decimal form denotes `n` and has no leading zero unless it is "0". */
  lemma {:induction false} DecimalStringValue(n: nat)
    ensures DigitsValue(DecimalString(n)) == n
    ensures n > 0 ==> DecimalString(n)[0] != '0'
  {
    var r := DecimalString(n);
    if n >= 10 {
      DecimalStringValue(n / 10);
      assert r[..|r| - 1] == DecimalString(n / 10);
    }
  }

  function Zeros(k: nat): (z: string) {
    seq(k, _ => '0')
  }

  lemma {:induction false} ZerosValue(k: nat)
    ensures AllDigits(Zeros(k)) && DigitsValue(Zeros(k)) == 0
  {
    if k > 0 {
      assert Zeros(k)[..k - 1] == Zeros(k - 1);
      ZerosValue(k - 1);
    }
  }

  /** Leading zeros do not change the value of a digit string. */
  lemma {:induction false} LeadingZerosValue(k: nat, s: string)
    requires AllDigits(s)
    ensures AllDigits(Zeros(k) + s) && DigitsValue(Zeros(k) + s) == DigitsValue(s)
    decreases |s|
  {
    if s == [] {
      assert Zeros(k) + s == Zeros(k);
      ZerosValue(k);
    } else {
      var t := Zeros(k) + s;
      assert t[..|t| - 1] == Zeros(k) + s[..|s| - 1];
      LeadingZerosValue(k, s[..|s| - 1]);
    }
  }

  /**
   * `append_zeros(n, width)`: the decimal form of `n` left-padded with '0' to `width`
   * characters. Ruby's `'0' * count` raises for a negative count, so the width must be at
   * least the digit count of `n`.
   */
  function AppendZeros(n: nat, width: nat): (r: string)
    requires NumDigits(n) <= width
    ensures |r| == width
    ensures AllDigits(r) && DigitsValue(r) == n
    ensures forall k :: 0 <= k < width - NumDigits(n) ==> r[k] == '0'
    ensures r[width - NumDigits(n)..] == DecimalString(n)
  {
    DecimalStringValue(n);
    LeadingZerosValue(width - NumDigits(n), DecimalString(n));
    Zeros(width - NumDigits(n)) + DecimalString(n)
  }
}
