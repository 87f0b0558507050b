/** The second version: `validate_input` with separate too-low and
    too-large messages and the bound 1..11, and `update_table` with the
    key-transaction row. */
module CryptoDataV3 {
  import opened Wrappers
  import opened Text
  import opened Limits
  import opened Query
  import CryptoDataV2

  const MIN_RESULTS: int := 1
  const MAX_RESULTS: int := 11

  /** The outcomes that showed a message box (or aborted the callback). */
  datatype InputError =
    | Invalid(reason: SyntaxError)  // "Please enter a valid number." or a ValueError from `int`
    | TooLow                        // "Number too low. ..."
    | TooLarge                      // "Number too large. ..."

  /** `validate_input`: the syntax stage, then "too low" before "too large". */
  function ValidateInput(value: string): (r: Result<nat, InputError>)
    ensures r.Ok? <==> IsDigits(value) && |value| <= MAX_STR_DIGITS && MIN_RESULTS <= DigitsValue(value) <= MAX_RESULTS
    ensures r.Ok? ==> r.value == DigitsValue(value) && MIN_RESULTS <= r.value <= MAX_RESULTS
    ensures r == Err(Invalid(NotANumber)) <==> !IsDigits(LStrip(value, '-'))
    ensures r == Err(TooLow) <==> ParseNumber(value).Ok? && ParseNumber(value).value < MIN_RESULTS
    ensures r == Err(TooLarge) <==> ParseNumber(value).Ok? && ParseNumber(value).value > MAX_RESULTS
  {
    match ParseNumber(value)
    case Err(e) => Err(Invalid(e))
    case Ok(num) =>
      if num < MIN_RESULTS then Err(TooLow)
      else if num > MAX_RESULTS then Err(TooLarge)
      else Ok(num as nat)
  }

  /** Moving the inline checks of the first version into `validate_input`
      kept their meaning: same accepted counts, same messages. */
  lemma ValidateInputMatchesV2(value: string)
    ensures ValidateInput(value).Ok? <==> CryptoDataV2.CheckLimit(value).Ok?
    ensures ValidateInput(value).Ok? ==> ValidateInput(value).value == CryptoDataV2.CheckLimit(value).value
    ensures ValidateInput(value) == Err(TooLow) <==> CryptoDataV2.CheckLimit(value) == Err(CryptoDataV2.TooLow)
    ensures ValidateInput(value) == Err(TooLarge) <==> CryptoDataV2.CheckLimit(value) == Err(CryptoDataV2.TooLarge)
    ensures forall e :: ValidateInput(value) == Err(Invalid(e)) <==> CryptoDataV2.CheckLimit(value) == Err(CryptoDataV2.Invalid(e))
  {
  }

  /** `update_table`: as in the final version, with the bound 1..11. */
  function UpdateTable(df: seq<Trade>, choice: string, entry: string, shown: View): (r: View)
    ensures ParseSortSpec(choice).None? || ValidateInput(entry).Err? ==> r == shown
    ensures ParseSortSpec(choice).Some? && ValidateInput(entry).Ok? ==>
              var spec, n := ParseSortSpec(choice).value, ValidateInput(entry).value;
              && r.rows == SortAndLimit(df, spec, n)
              && |r.rows| == Min(n, |df|) <= MAX_RESULTS
              && SortedBy(r.rows, spec)
              && multiset(r.rows) <= multiset(df)
              && r.key == (if df == [] then shown.key else KeyTransaction(df))
  {
    match ParseSortSpec(choice)
    case None => shown
    case Some(spec) =>
      match ValidateInput(entry)
      case Err(_) => shown
      case Ok(n) =>
        var rows := SortAndLimit(df, spec, n);
        View(rows, if df == [] then shown.key else KeyTransaction(df))
  }

  /** The main table is redrawn exactly as the first version redrew it. */
  lemma UpdateTableMatchesV2(df: seq<Trade>, choice: string, entry: string, shown: View)
    ensures UpdateTable(df, choice, entry, shown).rows == CryptoDataV2.UpdateTable(df, choice, entry, shown.rows)
  {
    ValidateInputMatchesV2(entry);
  }

  /** The key row is taken over the whole table, not over the rows shown:
      sorting two trades by ascending value (the choice
      "trade_value_usd ASC") and showing one hides the key transaction
      from the main table. */
  lemma KeyTransactionNotFromShownRows(choice: string, entry: string)
    requires ParseSortSpec(choice) == Some(SortSpec(TradeValueUsd, true))
    requires ValidateInput(entry) == Ok(1)
    ensures var low := Trade("0xA", "ETH", "USDC", 100, 1, "0x01");
            var high := Trade("0xB", "ETH", "USDC", 500, 2, "0x02");
            var r := UpdateTable([low, high], choice, entry, View([], None));
            r.rows == [low] && r.key == Some(high)
  {
    var low := Trade("0xA", "ETH", "USDC", 100, 1, "0x01");
    var high := Trade("0xB", "ETH", "USDC", 500, 2, "0x02");
    var df := [low, high];
    var spec := SortSpec(TradeValueUsd, true);
    assert SortAndLimit(df, spec, 1) == [low];
  }
}
