/**
 * Base-10 digit strings: how Rust's `Display` prints an integer and how an
 * integer literal's digits (`LitInt::base10_digits`) are read back.
 */
module Decimal {
  import opened Outcomes

  predicate IsDigit(c: char) {
    '0' <= c <= '9'
  }

  /** A non-empty string of decimal digits. */
  predicate IsDigits(s: string) {
    |s| > 0 && forall i :: 0 <= i < |s| ==> IsDigit(s[i])
  }

  function DigitChar(d: nat): (c: char)
    requires d < 10
    ensures IsDigit(c) && c as int - '0' as int == d
  {
    ['0', '1', '2', '3', '4', '5', '6', '7', '8', '9'][d]
  }

  function DigitValue(c: char): (d: nat)
    requires IsDigit(c)
    ensures d < 10 && DigitChar(d) == c
  {
    (c as int - '0' as int) as nat
  }

  /** The digits of `n` without leading zeros, as `Display` prints a non-negative integer. */
  function NatToDecimal(n: nat): (s: string)
    ensures IsDigits(s)
    ensures s[0] == '0' ==> n == 0 && s == "0"
    decreases n
  {
    if n < 10 then [DigitChar(n)] else NatToDecimal(n / 10) + [DigitChar(n % 10)]
  }

  /** The value of a string of decimal digits. */
  function DecimalValue(s: string): nat
    requires forall i :: 0 <= i < |s| ==> IsDigit(s[i])
  {
    if s == [] then 0 else DecimalValue(s[..|s| - 1]) * 10 + DigitValue(s[|s| - 1])
  }

  /** Reading the printed digits of `n` gives `n` back. */
  lemma {:induction false} DecimalRoundTrip(n: nat)
    ensures DecimalValue(NatToDecimal(n)) == n
    decreases n
  {
    if n >= 10 {
      var s := NatToDecimal(n);
      assert s[..|s| - 1] == NatToDecimal(n / 10);
      DecimalRoundTrip(n / 10);
    }
  }

  /** `Display` of a signed integer: a `-` followed by the digits of its magnitude. */
  function IntToDecimal(i: int): (s: string)
    ensures |s| > 0
  {
    if i < 0 then "-" + NatToDecimal(-i) else NatToDecimal(i)
  }

  /** Reads an optional `-` followed by decimal digits. */
  function ParseDecimal(s: string): Option<int> {
    if |s| > 0 && s[0] == '-' then
      if IsDigits(s[1..]) then Some(-(DecimalValue(s[1..]) as int)) else None
    else if IsDigits(s) then Some(DecimalValue(s))
    else None
  }

  /** The printed form of every integer reads back as that integer. */
  lemma IntDecimalRoundTrip(i: int)
    ensures ParseDecimal(IntToDecimal(i)) == Some(i)
  {
    var s := IntToDecimal(i);
    if i < 0 {
      var d := NatToDecimal(-i);
      assert s == "-" + d && s[1..] == d;
      assert d[0] != '-';
      DecimalRoundTrip(-i);
    } else {
      assert s[0] != '-';
      DecimalRoundTrip(i);
    }
  }

  /** Splits a literal's text into its leading run of digits and the rest (the suffix). */
  function SplitDigits(text: string): (r: (string, string))
    ensures r.0 + r.1 == text
    ensures forall i :: 0 <= i < |r.0| ==> IsDigit(r.0[i])
    ensures r.1 != [] ==> !IsDigit(r.1[0])
  {
    if text != [] && IsDigit(text[0]) then
      var rest := SplitDigits(text[1..]);
      ([text[0]] + rest.0, rest.1)
    else ([], text)
  }

  /** Digits followed by a suffix that does not start with a digit split back apart. */
  lemma {:induction false} SplitDigitsOfConcat(digits: string, suffix: string)
    requires forall i :: 0 <= i < |digits| ==> IsDigit(digits[i])
    requires suffix != [] ==> !IsDigit(suffix[0])
    ensures SplitDigits(digits + suffix) == (digits, suffix)
  {
    if digits != [] {
      var text := digits + suffix;
      assert text[0] == digits[0] && text[1..] == digits[1..] + suffix;
      SplitDigitsOfConcat(digits[1..], suffix);
      assert [digits[0]] + digits[1..] == digits;
    } else {
      assert digits + suffix == suffix;
    }
  }
}
