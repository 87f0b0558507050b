/** The syntactic stage of the result-count check, common to all three
    versions of the program: `value.lstrip('-').isdigit()` followed by
    `int(value)` (Crypto_Data_Final.py:46-49, Crypto_Data_V3.py:24-27,
    Crypto_Data_V2.py:21-25). Each version adds its own range stage. */
module Limits {
  import opened Wrappers
  import opened Text

  datatype SyntaxError =
    | NotANumber        // the digit test failed: "Please enter a valid number."
    | ConversionFailed  // the digit test passed but `int` raises ValueError

  /** The default bound on the number of digits `int` converts from a
      string (`sys.get_int_max_str_digits()`), applied since Python 3.11
      and the 2022 security releases 3.7.14, 3.8.14, 3.9.14 and 3.10.7.
      Leading zeros count toward it; the sign does not. */
  const MAX_STR_DIGITS: nat := 4300

  /** Number of leading '-' characters of `value`. */
  function MinusCount(value: string): nat
  {
    |value| - |LStrip(value, '-')|
  }

  /** The digit test and the conversion, in that order. The digit test
      strips every leading '-', but `int` accepts at most one sign, so
      "--5" passes the first stage and fails the second; `int` also
      refuses more than `MAX_STR_DIGITS` digits. */
  function ParseNumber(value: string): (r: Result<int, SyntaxError>)
    ensures r == Err(NotANumber) <==> !IsDigits(LStrip(value, '-'))
    ensures r.Ok? <==>
              || (IsDigits(value) && |value| <= MAX_STR_DIGITS)
              || (|value| > 0 && value[0] == '-' && IsDigits(value[1..]) && |value| - 1 <= MAX_STR_DIGITS)
    ensures r.Ok? && IsDigits(value) ==> r.value == DigitsValue(value)
    ensures r.Ok? && !IsDigits(value) ==> r.value == -(DigitsValue(value[1..]) as int)
  {
    var digits := LStrip(value, '-');
    LStripShape(value);
    if !IsDigits(digits) then Err(NotANumber)
    else if MinusCount(value) >= 2 then Err(ConversionFailed)
    else if |digits| > MAX_STR_DIGITS then Err(ConversionFailed)
    else if MinusCount(value) == 0 then Ok(DigitsValue(digits))
    else Ok(-(DigitsValue(digits) as int))
  }

  /** `LStrip` removes exactly the run of minus signs in front. */
  lemma LStripExact(value: string, k: nat)
    requires k <= |value|
    requires forall i :: 0 <= i < k ==> value[i] == '-'
    requires k == |value| || value[k] != '-'
    ensures LStrip(value, '-') == value[k..]
  {
  }

  /** The shapes of `value` that matter to `ParseNumber`. */
  lemma LStripShape(value: string)
    ensures |value| > 0 && value[0] != '-' ==> LStrip(value, '-') == value
    ensures |value| > 1 && value[0] == '-' && value[1] != '-' ==> LStrip(value, '-') == value[1..]
  {
    if |value| > 0 && value[0] != '-' {
      LStripExact(value, 0);
    }
    if |value| > 1 && value[0] == '-' && value[1] != '-' {
      LStripExact(value, 1);
    }
  }

  /** Every decimal numeral within the digit limit, with or without one
      minus sign, parses back to its value. */
  lemma ParseNumberDecimal(n: nat)
    requires |Decimal(n)| <= MAX_STR_DIGITS
    ensures ParseNumber(Decimal(n)) == Ok(n)
    ensures ParseNumber("-" + Decimal(n)) == Ok(-(n as int))
  {
    DecimalRoundTrip(n);
    var d := Decimal(n);
    assert ("-" + d)[1..] == d;
  }

  /** A digit string over the limit passes the digit test, with or
      without a minus sign, and then the conversion fails, even when its
      value is small ("0" * 4300 + "5"). */
  lemma TooManyDigitsFails(digits: string)
    requires IsDigits(digits) && |digits| > MAX_STR_DIGITS
    ensures ParseNumber(digits) == Err(ConversionFailed)
    ensures ParseNumber("-" + digits) == Err(ConversionFailed)
  {
    assert ("-" + digits)[1..] == digits;
    assert !IsDigit(("-" + digits)[0]);
  }

  /** Two or more leading minus signs before digits: the conversion fails. */
  lemma DoubleMinusFails(digits: string)
    requires IsDigits(digits)
    ensures ParseNumber("--" + digits) == Err(ConversionFailed)
  {
    var v := "--" + digits;
    assert v[0] == '-' && v[1..] == "-" + digits;
    assert !IsDigits(v[1..]) by { assert !IsDigit(v[1..][0]); }
    assert !IsDigits(v) by { assert !IsDigit(v[0]); }
    assert !IsDigit('-');
    LStripExact(v, 2);
  }
}
