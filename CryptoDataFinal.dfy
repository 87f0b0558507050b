/** The query side of the final version: `validate_input` with the bound
    1..99 and the `update_table` callback that redraws the main table and
    the key-transaction row. */
module CryptoDataFinal {
  import opened Wrappers
  import opened Text
  import opened Limits
  import opened Query

  const MIN_RESULTS: int := 1
  const MAX_RESULTS: int := 99

  /** The outcomes that showed a message box (or aborted the callback). */
  datatype InputError =
    | Invalid(reason: SyntaxError)  // "Please enter a valid number." or a ValueError from `int`
    | OutOfRange                    // "Enter a number between 1 and 99."

  /** `validate_input`: the syntax stage, then one range check. Only a plain
      digit string whose value lies in 1..99 is accepted; a signed number
      passes the syntax stage and is then out of range. */
  function ValidateInput(value: string): (r: Result<nat, InputError>)
    ensures r.Ok? <==> IsDigits(value) && |value| <= MAX_STR_DIGITS && MIN_RESULTS <= DigitsValue(value) <= MAX_RESULTS
    ensures r.Ok? ==> r.value == DigitsValue(value) && MIN_RESULTS <= r.value <= MAX_RESULTS
    ensures r == Err(Invalid(NotANumber)) <==> !IsDigits(LStrip(value, '-'))
    ensures r == Err(OutOfRange) <==>
              ParseNumber(value).Ok? && !(MIN_RESULTS <= ParseNumber(value).value <= MAX_RESULTS)
  {
    match ParseNumber(value)
    case Err(e) => Err(Invalid(e))
    case Ok(num) =>
      if num < MIN_RESULTS || num > MAX_RESULTS then Err(OutOfRange) else Ok(num as nat)
  }

  /** Every count the entry label offers is accepted as typed. */
  lemma ValidateInputAcceptsRange(n: nat)
    requires MIN_RESULTS <= n <= MAX_RESULTS
    ensures ValidateInput(Decimal(n)) == Ok(n)
  {
    ParseNumberDecimal(n);
  }

  /** Zero passes the syntax stage and fails the range check. */
  lemma RejectsZero()
    ensures ValidateInput("0") == Err(OutOfRange)
  {
    ParseNumberDecimal(0);
    assert Decimal(0) == "0";
  }

  /** A negative number passes the syntax stage and fails the range check. */
  lemma RejectsNegative()
    ensures ValidateInput("-5") == Err(OutOfRange)
  {
    ParseNumberDecimal(5);
    assert "-" + Decimal(5) == "-5";
  }

  /** A count above the bound fails the range check. */
  lemma RejectsAboveRange()
    ensures ValidateInput("100") == Err(OutOfRange)
  {
    assert IsDigits("100");
    assert "100"[..2] == "10" && "10"[..1] == "1" && "1"[..0] == "";
  }

  /** Leading zeros are read as decimal, as `int` does. */
  lemma AcceptsLeadingZeros()
    ensures ValidateInput("007") == Ok(7)
  {
    var s := "007";
    assert IsDigits(s);
    assert DigitsValue(s[..2]) == 0 by {
      assert s[..2][..1] == "0" && "0"[..0] == "";
    }
  }

  /** Text that is not digits after the minus signs is refused first. */
  lemma SyntaxExamples()
    ensures ValidateInput("") == Err(Invalid(NotANumber))
    ensures ValidateInput("-") == Err(Invalid(NotANumber))
    ensures ValidateInput("1.5") == Err(Invalid(NotANumber))
    ensures ValidateInput(" 5") == Err(Invalid(NotANumber))
  {
    assert ValidateInput("") == Err(Invalid(NotANumber)) by {
      assert LStrip("", '-') == "";
    }
    assert ValidateInput("-") == Err(Invalid(NotANumber)) by {
      assert LStrip("-", '-') == "";
    }
    assert ValidateInput("1.5") == Err(Invalid(NotANumber)) by {
      LStripShape("1.5");
      assert !IsDigit("1.5"[1]);
    }
    assert ValidateInput(" 5") == Err(Invalid(NotANumber)) by {
      LStripShape(" 5");
      assert !IsDigit(" 5"[0]);
    }
  }

  /** "--5" passes the digit test and then makes `int` raise. */
  lemma ConversionExample()
    ensures ValidateInput("--5") == Err(Invalid(ConversionFailed))
  {
    DoubleMinusFails("5");
    assert "--" + "5" == "--5";
  }

  /** `update_table`: parse the drop-down choice, validate the count, then
      show the top rows and the key transaction of the whole table. Every
      failure returns before anything is redrawn; on an empty table the
      main table is redrawn and `idxmax` then raises, so the key row keeps
      what it showed. */
  function UpdateTable(df: seq<Trade>, choice: string, entry: string, shown: View): (r: View)
    ensures ParseSortSpec(choice).None? || ValidateInput(entry).Err? ==> r == shown
    ensures ParseSortSpec(choice).Some? && ValidateInput(entry).Ok? ==>
              var spec, n := ParseSortSpec(choice).value, ValidateInput(entry).value;
              && r.rows == SortAndLimit(df, spec, n)
              && |r.rows| == Min(n, |df|) <= MAX_RESULTS
              && SortedBy(r.rows, spec)
              && multiset(r.rows) <= multiset(df)
              && r.key == (if df == [] then shown.key else KeyTransaction(df))
  {
    match ParseSortSpec(choice)
    case None => shown
    case Some(spec) =>
      match ValidateInput(entry)
      case Err(_) => shown
      case Ok(n) =>
        var rows := SortAndLimit(df, spec, n);
        View(rows, if df == [] then shown.key else KeyTransaction(df))
  }

  /** The key row depends on the table alone: two successful refreshes of a
      non-empty table, whatever order and count they asked for, show the
      same key transaction. */
  lemma KeyIgnoresSortAndLimit(df: seq<Trade>, c1: string, e1: string, v1: View,
                               c2: string, e2: string, v2: View)
    requires df != []
    requires ParseSortSpec(c1).Some? && ValidateInput(e1).Ok?
    requires ParseSortSpec(c2).Some? && ValidateInput(e2).Ok?
    ensures UpdateTable(df, c1, e1, v1).key == UpdateTable(df, c2, e2, v2).key == KeyTransaction(df)
  {
  }
}
