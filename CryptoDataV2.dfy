/** The first version: the count check is written inline in `update_table`
    with the literal bounds 1 and 11, and there is no key-transaction row. */
module CryptoDataV2 {
  import opened Wrappers
  import opened Text
  import opened Limits
  import opened Query

  /** The outcomes that showed a message box (or aborted the callback). */
  datatype InputError =
    | Invalid(reason: SyntaxError)  // "Please enter a valid number." or a ValueError from `int`
    | TooLow                        // "Number too low. ..."
    | TooLarge                      // "Number too large. ..."
    | Negative                      // "Number cannot be negative."

  /** The inline checks of `update_table`, in their written order. The
      negative-number branch comes after "< 1" and is never taken. */
  function CheckLimit(value: string): (r: Result<nat, InputError>)
    ensures r != Err(Negative)
    ensures r.Ok? <==> IsDigits(value) && |value| <= MAX_STR_DIGITS && 1 <= DigitsValue(value) <= 11
    ensures r.Ok? ==> r.value == DigitsValue(value) && 1 <= r.value <= 11
    ensures r == Err(Invalid(NotANumber)) <==> !IsDigits(LStrip(value, '-'))
    ensures r == Err(TooLow) <==> ParseNumber(value).Ok? && ParseNumber(value).value < 1
    ensures r == Err(TooLarge) <==> ParseNumber(value).Ok? && ParseNumber(value).value > 11
  {
    match ParseNumber(value)
    case Err(e) => Err(Invalid(e))
    case Ok(num) =>
      if num < 1 then Err(TooLow)
      else if num > 11 then Err(TooLarge)
      else if num < 0 then Err(Negative)
      else Ok(num as nat)
  }

  /** Every negative number within the digit limit is reported as too
      low, never as negative. */
  lemma NegativeIsTooLow(n: nat)
    requires n >= 1 && |Decimal(n)| <= MAX_STR_DIGITS
    ensures CheckLimit("-" + Decimal(n)) == Err(TooLow)
  {
    ParseNumberDecimal(n);
  }

  /** `update_table`: the rows shown after a click. Every failed check
      returns before the table is cleared, so it keeps what it showed. */
  function UpdateTable(df: seq<Trade>, choice: string, entry: string, shown: seq<Trade>): (r: seq<Trade>)
    ensures ParseSortSpec(choice).None? || CheckLimit(entry).Err? ==> r == shown
    ensures ParseSortSpec(choice).Some? && CheckLimit(entry).Ok? ==>
              var spec, n := ParseSortSpec(choice).value, CheckLimit(entry).value;
              && r == SortAndLimit(df, spec, n)
              && |r| == Min(n, |df|) <= 11
              && SortedBy(r, spec)
              && multiset(r) <= multiset(df)
  {
    match ParseSortSpec(choice)
    case None => shown
    case Some(spec) =>
      match CheckLimit(entry)
      case Err(_) => shown
      case Ok(n) => SortAndLimit(df, spec, n)
  }
}
