# Crypto trades viewer: query engine and credential store

This project models the logic of a small desktop viewer for on-chain
trade records. The analyst picks a sort order from a drop-down and types
how many rows to show. The viewer then shows the top rows and the "key
transaction", which is the trade with the highest USD value. In the final
version a username/password store gates the viewer. Three versions of the
program are modelled:

- `Crypto_Data_V2.py` is the earliest of the three. Its checks are inline and allow 1..11 rows.
- `Crypto_Data_V3.py` moves the checks into `validate_input` and adds the key row.
- `Crypto_Data_Final.py` raises the bound to 1..99 and adds signup and login.

The window code is left out. What remains is modelled as values:

- A table is a `seq<Trade>`.
- A message box becomes an error value (`Result`/`Option`).
- A Tk callback that returns early, or that dies on an exception, leaves
  what the window showed unchanged.

Modules, one per concern:

- `Text`: the Python string operations the code uses (`isdigit`, `lstrip`,
  `strip`, `split`, and `re.search` with a one-character class) on ASCII.
- `Limits`: the syntax stage that all three versions share. It is
  `value.lstrip('-').isdigit()` followed by `int(value)`.
- `Query`: the trade record, the drop-down choices, sorting with
  `head(n)`, and `idxmax`.
- `CryptoDataV2`, `CryptoDataV3` and `CryptoDataFinal`: each version's
  count check and its `update_table`.
- `Credentials`: the password and name rules, a `UserStore` class whose
  `users` map is changed only by `Signup`, and `Login`.

Where the code and its intended behaviour disagree, the model follows
the code:

- Sorting uses pandas' default algorithm, which is not guaranteed to be
  stable. Nothing here claims stability. The reference sort in the model
  happens to be stable. `Query.SortedKeysUnique` shows that this choice
  changes only the order of rows with equal keys in the full sort. After
  `head(n)`, pandas may show a different row that has the same key as the
  last row shown. `Query.AnySortShowsSameKeys` proves the shown keys match
  position by position, not that the rows themselves do.
- Every leading `'-'` is stripped before the digit test, not only one.
  So `"--5"` passes that test and then `int` raises.
- An unknown sort column, a malformed choice and an empty table are not
  reported as errors. They raise exceptions inside the callback. On an
  empty table this happens after the main table has been redrawn.
- The name rule is `' ' in name.strip()`.
- The users file is overwritten in place.

## Model

| member | source | states |
|---|---|---|
| `Text.LStrip` | Crypto_Data_Final.py:46 | `value.lstrip('-')` is the suffix left after a run made only of `'-'`, and it does not start with `'-'` |
| `Text.Strip` | Crypto_Data_Final.py:259 | `name.strip()` is a slice of `name` with only whitespace outside it, and it neither starts nor ends with whitespace |
| `Text.Split` | Crypto_Data_Final.py:85 | `str.split()` returns only non-empty words without whitespace, and no words exactly when the text is all whitespace |
| `Text.SplitInterleave` | Crypto_Data_Final.py:85 | words separated by any non-empty runs of whitespace, with any whitespace before and after, split back into exactly those words |
| `Text.SplitCovers` | Crypto_Data_Final.py:85 | every string is its split words, in order, surrounded by whitespace separators, so `str.split()` drops only whitespace and returns the maximal non-whitespace runs |
| `Text.SplitTwoWords` | Crypto_Data_Final.py:85 | two words joined by one space split back into exactly those two words |
| `Text.Search` | Crypto_Data_Final.py:248-252 | `re.search` with a character class finds the first matching index, and finds none exactly when no character matches |
| `Text.DigitsValue` | Crypto_Data_Final.py:49 | the decimal value of a digit string is zero exactly when every digit is `'0'` |
| `Text.LeadingZeros` | Crypto_Data_Final.py:49 | leading zeros do not change the decimal value |
| `Text.DecimalRoundTrip` | Crypto_Data_Final.py:49 | the decimal numeral of `n` is a digit string whose decimal value is `n` |
| `Limits.ParseNumber` | Crypto_Data_Final.py:46-49 | "not a number" exactly when the text left after the minus signs is not a digit string; conversion succeeds exactly for at most 4300 digits with at most one leading minus; the value is the signed decimal value |
| `Limits.ParseNumberDecimal` | Crypto_Data_Final.py:46-49 | every numeral of at most 4300 digits, with or without one minus sign, parses to its value |
| `Limits.TooManyDigitsFails` | Crypto_Data_Final.py:46-49 | a digit string of more than 4300 digits, with or without a minus sign, passes the digit test and then `int` fails, whatever its value |
| `Limits.DoubleMinusFails` | Crypto_Data_Final.py:46-49 | two minus signs before digits pass the digit test, then `int` fails |
| `Query.ParseSortSpec` | Crypto_Data_Final.py:85-86 | a choice parses exactly when it splits into two tokens and the first is `trade_value_usd` or `timestamp`; it sorts by that column, ascending exactly when the second token is "ASC" |
| `Query.ChoiceParses` | Crypto_Data_Final.py:85-86 | a "column direction" choice splits into its two tokens, the column is a required column, and it parses ascending exactly when the direction is "ASC" |
| `Query.SortChoiceParses` | Crypto_Data_V3.py:7-8 | each of the four drop-down choices splits into a required column and ASC/DESC, and parses to its own (field, direction) pair |
| `Query.Insert` | Crypto_Data_Final.py:92 | inserting into a sorted table keeps it sorted and adds exactly that row |
| `Query.Head` | Crypto_Data_Final.py:92 | `head(n)` is the first `min(n, len(s))` rows of `s` |
| `Query.SortValues` | Crypto_Data_Final.py:92 | `sort_values` returns a permutation of the table that is sorted in the chosen direction |
| `Query.SortAndLimit` | Crypto_Data_Final.py:92 | `sort_values(...).head(n)` has `min(n, len(df))` rows, is sorted, is a sub-multiset of the table, and every row it leaves out may follow every row it shows |
| `Query.PrefixIsTop` | Crypto_Data_Final.py:92 | the first `k` rows of a sorted table may precede every row after them |
| `Query.SortedKeysUnique` | Crypto_Data_Final.py:92 | any two sorted permutations of the same rows have the same key at every position |
| `Query.AnySortShowsSameKeys` | Crypto_Data_Final.py:92 | whatever sort algorithm is used, the rows shown carry the same keys position by position |
| `Query.IdxMax` | Crypto_Data_Final.py:67 | `idxmax` gives an index whose value is at least every row's value and strictly above every earlier row's (the first maximum) |
| `Query.KeyTransaction` | Crypto_Data_Final.py:66-67 | the key transaction is absent exactly for an empty table; otherwise it is a row of the table with the largest value, at the first index holding that value |
| `Query.KeyValueIgnoresOrder` | Crypto_Data_Final.py:67 | reordering the table does not change the key transaction's value |
| `Query.KeyTransactionTopsDescendingView` | Crypto_Data_Final.py:92-94 | the key transaction's value is the value of the first row shown under "trade_value_usd DESC" |
| `CryptoDataFinal.ValidateInput` | Crypto_Data_Final.py:45-53 | accepts exactly a digit string of at most 4300 digits whose value is in 1..99 and returns that value; "not a number" exactly when the text after the minus signs is not digits; out of range exactly when it parses outside 1..99 |
| `CryptoDataFinal.ValidateInputAcceptsRange` | Crypto_Data_Final.py:45-53 | every count from 1 to 99, typed in decimal, is accepted as itself |
| `CryptoDataFinal.RejectsZero` | Crypto_Data_Final.py:49-52 | "0" passes the syntax stage and is out of range |
| `CryptoDataFinal.RejectsNegative` | Crypto_Data_Final.py:46-52 | "-5" passes the syntax stage and is out of range |
| `CryptoDataFinal.RejectsAboveRange` | Crypto_Data_Final.py:50-52 | "100" is out of range |
| `CryptoDataFinal.AcceptsLeadingZeros` | Crypto_Data_Final.py:46-53 | "007" is accepted as 7 |
| `CryptoDataFinal.SyntaxExamples` | Crypto_Data_Final.py:46-48 | "", "-", "1.5" and " 5" are "not a number" |
| `CryptoDataFinal.ConversionExample` | Crypto_Data_Final.py:46-49 | "--5" makes `int` raise |
| `CryptoDataFinal.UpdateTable` | Crypto_Data_Final.py:83-94 | a bad choice or a rejected count leaves the view unchanged. Otherwise the main table shows `min(n, len(df))` sorted rows of `df`, and the key row shows the first maximum of the whole table; on an empty table the key row keeps its old content |
| `CryptoDataFinal.KeyIgnoresSortAndLimit` | Crypto_Data_Final.py:92-94 | on a non-empty table, every successful refresh shows the same key transaction, whatever order and count were chosen |
| `CryptoDataV2.CheckLimit` | Crypto_Data_V2.py:21-35 | accepts exactly a digit string of at most 4300 digits with value in 1..11; every parsed value below 1, negatives included, is "too low"; above 11 is "too large"; "cannot be negative" is never reported |
| `CryptoDataV2.NegativeIsTooLow` | Crypto_Data_V2.py:27-35 | every negative numeral of at most 4300 digits gets "too low" |
| `CryptoDataV2.UpdateTable` | Crypto_Data_V2.py:14-46 | a failed check leaves the table unchanged; otherwise it shows at most 11 sorted rows of `df`, `min(n, len(df))` of them |
| `CryptoDataV3.ValidateInput` | Crypto_Data_V3.py:23-34 | accepts exactly a digit string of at most 4300 digits with value in 1..11; "too low" exactly when the parsed value is below 1; "too large" exactly when it is above 11 |
| `CryptoDataV3.ValidateInputMatchesV2` | Crypto_Data_V3.py:23-34 | gives the same outcome as the first version's inline checks on every input |
| `CryptoDataV3.UpdateTable` | Crypto_Data_V3.py:57-68 | as in the final version, with at most 11 rows |
| `CryptoDataV3.UpdateTableMatchesV2` | Crypto_Data_V3.py:57-67 | the main table is redrawn exactly as the first version redraws it |
| `CryptoDataV3.KeyTransactionNotFromShownRows` | Crypto_Data_V3.py:66-68 | with two trades sorted by ascending value and one row shown, the key row shows the trade the main table hides |
| `Credentials.ValidatePassword` | Crypto_Data_Final.py:242-255 | reports "too short" exactly when shorter than 8. Otherwise it reports "no number" exactly when no digit; then "no symbol" exactly when no character outside `[a-zA-Z0-9]`; it passes exactly the strong passwords |
| `Credentials.PasswordLengthBoundary` | Crypto_Data_Final.py:244-255 | "abcdef1!" (8 characters) passes, "abcde1!" (7) fails on length |
| `Credentials.PasswordRuleOrder` | Crypto_Data_Final.py:247-253 | "abcdefgh" has no number, "abcdefg1" has a number but no symbol |
| `Credentials.FullNameIffSpaceInStrip` | Crypto_Data_Final.py:259 | `' ' in name.strip()` holds exactly when a space has a non-whitespace character before it and one after it |
| `Credentials.ValidateName` | Crypto_Data_Final.py:258-261 | accepts exactly the full names |
| `Credentials.SignupCheck` | Crypto_Data_Final.py:264-277 | the reported error is the first failing check, in the order password length, digit, symbol, then name, then duplicate username; success exactly when all hold |
| `Credentials.SignupThenLogin` | Crypto_Data_Final.py:279 | after a successful signup, logging in with the same username and password returns the name exactly as typed |
| `Credentials.SignupKeepsOtherLogins` | Crypto_Data_Final.py:279 | a signup changes no other user's login outcome |
| `Credentials.LoginResult` | Crypto_Data_Final.py:234-239 | `login_user` returns a name exactly when the username exists and the stored digest equals the password's digest, and then it is the stored name |
| `Credentials.LoginDoesNotRevealAccounts` | Crypto_Data_Final.py:234-239 | an unknown username and a wrong password both give None |
| `Credentials.UserStore.constructor` | Crypto_Data_Final.py:217-222 | the store starts as the loaded contents (`map[]` for a missing file) |
| `Credentials.UserStore.Signup` | Crypto_Data_Final.py:264-281 | returns the first failing check and leaves the store unchanged; on success the username was absent, and exactly it is added, mapped to the password digest and the untrimmed name |
| `Credentials.UserStore.Login` | Crypto_Data_Final.py:234-239 | returns the stored name exactly when the username exists and the digests match; never changes the store |
| `Credentials.AliceSession` | Crypto_Data_Final.py:264-281 | a short password is refused, the first good signup succeeds, a repeated username is refused, and login then greets "Alice Smith" |

## Left out

- Tk window code is not modelled: themes, the login window, the info popup and the Treeview delete/insert loops. A view is a value instead.
- Message boxes are not modelled. Each message is an error constructor, and its text is quoted in a comment.
- CSV loading (`load_data`, and V2's top level) is not modelled. A table is given, and every record has all six fields.
- Module-level startup (`Crypto_Data_V3.py:110-112`, the whole of V2's top level) is not modelled.
- `load_user_data` and `save_user_data` do JSON file I/O. The store's `users` field stands for the file, so a missing file is `map[]` and each successful signup is a save. The non-atomic overwrite cannot be expressed.
- `hash_password` (SHA-256) is the store's `hash` field, an arbitrary deterministic function. Collision resistance is not modelled. So `Credentials.UserStore.Login` accepts any password whose digest matches.
- Trade values are pandas floats. They, and timestamps, are modelled as integers, because only their order is used. NaN handling is not modelled.
- `Query.SortValues`: the stable insertion sort is a modelling choice. pandas' default sort promises no order among equal keys. The contracts claim only sortedness, length, multiset and the top-N property.
- `Limits.ParseNumber` fixes `int`'s digit limit at its default of 4300 (`Limits.MAX_STR_DIGITS`). Interpreters older than Python 3.11 and the 2022 security releases have no limit. A limit changed through `PYTHONINTMAXSTRDIGITS` or `sys.set_int_max_str_digits` is not modelled.
- Character classes are ASCII only: `str.isdigit`, `\d`, `str.isspace` for `strip` and `split`. Non-ASCII digits (such as "²") and non-ASCII whitespace are not modelled. `[^a-zA-Z0-9]` is modelled exactly.
- `Query.ParseSortSpec` accepts only the two numeric columns. The final version's drop-down is read-only (`Crypto_Data_Final.py:412`), so it offers only the four choices. The V2 and V3 drop-downs accept free text (`Crypto_Data_V2.py:55`, `Crypto_Data_V3.py:80`), and text other than the two numeric columns is not modelled. The source either raises (`ValueError` from unpacking `split()`, or `KeyError`) or sorts by a string column. The model returns None, and the view stays as it was.
- The exceptions that end a callback are modelled as "the view is unchanged". These are `int("--5")`, a malformed choice, and `idxmax` on an empty table. Tk's error report is not modelled.
