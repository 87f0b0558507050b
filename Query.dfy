/** The trade query engine shared by the three versions of the program:
    the sort-spec string chosen in the drop-down, `df.sort_values(by=...,
    ascending=...).head(n)` and `df.loc[df['trade_value_usd'].idxmax()]`. */
module Query {
  import opened Wrappers
  import opened Text

  /** One row of the trade table. Both sort keys are modelled by integers:
      only their order is ever used. */
  datatype Trade = Trade(
    traderWallet: string,
    tokenBought: string,
    tokenSold: string,
    tradeValueUsd: int,
    timestamp: int,
    txHash: string)

  const REQUIRED_COLUMNS: set<string> :=
    {"trader_wallet", "token_bought", "token_sold", "trade_value_usd", "timestamp", "tx_hash"}

  const SORT_CHOICES: seq<string> :=
    ["trade_value_usd DESC", "trade_value_usd ASC", "timestamp DESC", "timestamp ASC"]

  /** The two columns the drop-down sorts by. */
  datatype SortField = TradeValueUsd | Timestamp

  datatype SortSpec = SortSpec(field: SortField, ascending: bool)

  function Key(t: Trade, f: SortField): int
  {
    match f
    case TradeValueUsd => t.tradeValueUsd
    case Timestamp => t.timestamp
  }

  /** The column header of a sort field; both are required columns. */
  function ColumnName(f: SortField): (name: string)
    ensures name in REQUIRED_COLUMNS
  {
    match f
    case TradeValueUsd => "trade_value_usd"
    case Timestamp => "timestamp"
  }

  /** `sort_col, order = selected_order.split()` and `ascending = (order == "ASC")`.
      None stands for the exceptions the source raises on other text
      (a wrong number of tokens, or a column this model does not sort by). */
  function ParseSortSpec(choice: string): (r: Option<SortSpec>)
    ensures r.Some? <==> |Split(choice)| == 2 && Split(choice)[0] in {ColumnName(TradeValueUsd), ColumnName(Timestamp)}
    ensures r.Some? ==> Split(choice)[0] == ColumnName(r.value.field)
    ensures r.Some? ==> (r.value.ascending <==> Split(choice)[1] == "ASC")
  {
    var tokens := Split(choice);
    if |tokens| != 2 then None
    else if tokens[0] == "trade_value_usd" then Some(SortSpec(TradeValueUsd, tokens[1] == "ASC"))
    else if tokens[0] == "timestamp" then Some(SortSpec(Timestamp, tokens[1] == "ASC"))
    else None
  }

  /** A choice made of a column token, one space and a direction token
      parses to that column, ascending exactly when the direction is "ASC". */
  lemma ChoiceParses(column: string, direction: string, field: SortField)
    requires column == "trade_value_usd" || column == "timestamp"
    requires direction == "ASC" || direction == "DESC"
    requires field == (if column == "timestamp" then Timestamp else TradeValueUsd)
    ensures Split(column + " " + direction) == [column, direction]
    ensures column in REQUIRED_COLUMNS
    ensures ParseSortSpec(column + " " + direction) == Some(SortSpec(field, direction == "ASC"))
  {
    assert forall i :: 0 <= i < |direction| ==> 'A' <= direction[i] <= 'Z';
    assert forall i :: 0 <= i < |column| ==> 'a' <= column[i] <= 'z' || column[i] == '_';
    SplitTwoWords(column, direction);
  }

  /** Every drop-down choice splits into a required column and a
      direction, and the four choices parse to the four (field, direction)
      pairs: by value then by time, descending before ascending. */
  lemma SortChoiceParses(k: nat)
    requires k < |SORT_CHOICES|
    ensures |Split(SORT_CHOICES[k])| == 2
    ensures Split(SORT_CHOICES[k])[0] in REQUIRED_COLUMNS
    ensures Split(SORT_CHOICES[k])[1] == "ASC" || Split(SORT_CHOICES[k])[1] == "DESC"
    ensures ParseSortSpec(SORT_CHOICES[k])
              == Some(SortSpec(if k < 2 then TradeValueUsd else Timestamp, k % 2 == 1))
  {
    if k == 0 {
      assert SORT_CHOICES[0] == "trade_value_usd" + " " + "DESC";
      ChoiceParses("trade_value_usd", "DESC", TradeValueUsd);
    } else if k == 1 {
      assert SORT_CHOICES[1] == "trade_value_usd" + " " + "ASC";
      ChoiceParses("trade_value_usd", "ASC", TradeValueUsd);
    } else if k == 2 {
      assert SORT_CHOICES[2] == "timestamp" + " " + "DESC";
      ChoiceParses("timestamp", "DESC", Timestamp);
    } else {
      assert SORT_CHOICES[3] == "timestamp" + " " + "ASC";
      ChoiceParses("timestamp", "ASC", Timestamp);
    }
  }

  /** `a` may be shown before `b` under `spec`. */
  predicate Precedes(spec: SortSpec, a: Trade, b: Trade)
  {
    if spec.ascending then Key(a, spec.field) <= Key(b, spec.field)
    else Key(a, spec.field) >= Key(b, spec.field)
  }

  predicate SortedBy(s: seq<Trade>, spec: SortSpec)
  {
    forall i, j :: 0 <= i < j < |s| ==> Precedes(spec, s[i], s[j])
  }

  /** Puts `x` in front of the first row it may precede. */
  function Insert(spec: SortSpec, x: Trade, s: seq<Trade>): (r: seq<Trade>)
    requires SortedBy(s, spec)
    ensures multiset(r) == multiset(s) + multiset{x}
    ensures SortedBy(r, spec)
  {
    if s == [] then [x]
    else if Precedes(spec, x, s[0]) then [x] + s
    else
      var tail := Insert(spec, x, s[1..]);
      assert s == [s[0]] + s[1..];
      ConsSorted(spec, s[0], tail, s[1..], x);
      [s[0]] + tail
  }

  /** `[h] + tail` is sorted when `h` precedes every row of `tail`, which
      holds of the rows of `rest` and of `x`. */
  lemma ConsSorted(spec: SortSpec, h: Trade, tail: seq<Trade>, rest: seq<Trade>, x: Trade)
    requires SortedBy(tail, spec) && SortedBy([h] + rest, spec)
    requires multiset(tail) == multiset(rest) + multiset{x}
    requires !Precedes(spec, x, h)
    ensures SortedBy([h] + tail, spec)
  {
    forall j | 0 <= j < |tail| ensures Precedes(spec, h, tail[j]) {
      var y := tail[j];
      assert y in multiset(tail);
      if y == x {
        assert Precedes(spec, h, x);
      } else {
        assert multiset(tail)[y] == multiset(rest)[y];
        assert y in multiset(rest);
        var k :| 0 <= k < |rest| && rest[k] == y;
        assert ([h] + rest)[0] == h && ([h] + rest)[k + 1] == y;
      }
    }
    var r := [h] + tail;
    forall i, j | 0 <= i < j < |r| ensures Precedes(spec, r[i], r[j]) {
      if i > 0 {
        assert r[i] == tail[i - 1] && r[j] == tail[j - 1];
      } else {
        assert r[j] == tail[j - 1];
      }
    }
  }

  /** A reference sort, stable: `sort_values(by=spec.field, ascending=spec.ascending)`. */
  function SortValues(df: seq<Trade>, spec: SortSpec): (r: seq<Trade>)
    ensures multiset(r) == multiset(df)
    ensures SortedBy(r, spec)
  {
    if df == [] then []
    else
      assert df == [df[0]] + df[1..];
      Insert(spec, df[0], SortValues(df[1..], spec))
  }

  function Min(a: int, b: int): int { if a <= b then a else b }

  /** `.head(n)`: the first `n` rows, or all of them when there are fewer. */
  function Head(s: seq<Trade>, n: nat): (r: seq<Trade>)
    ensures |r| == Min(n, |s|) && r == s[..|r|]
  {
    if n <= |s| then s[..n] else s
  }

  /** The rows shown for a valid count `n`: `min(n, |df|)` rows of `df`,
      in the chosen order, and no row left out may precede one shown. */
  function SortAndLimit(df: seq<Trade>, spec: SortSpec, n: nat): (r: seq<Trade>)
    ensures |r| == Min(n, |df|)
    ensures SortedBy(r, spec)
    ensures multiset(r) <= multiset(df)
    ensures forall x, y :: x in multiset(r) && y in multiset(df) - multiset(r) ==> Precedes(spec, x, y)
  {
    var sorted := SortValues(df, spec);
    var r := Head(sorted, n);
    PrefixIsTop(sorted, spec, |r|);
    r
  }

  /** A prefix of a sorted sequence precedes everything after it. */
  lemma PrefixIsTop(s: seq<Trade>, spec: SortSpec, k: nat)
    requires SortedBy(s, spec) && k <= |s|
    ensures multiset(s) - multiset(s[..k]) == multiset(s[k..])
    ensures forall x, y :: x in multiset(s[..k]) && y in multiset(s) - multiset(s[..k]) ==> Precedes(spec, x, y)
  {
    assert s == s[..k] + s[k..];
    forall x, y | x in multiset(s[..k]) && y in multiset(s[k..]) ensures Precedes(spec, x, y) {
      var i :| 0 <= i < k && s[..k][i] == x;
      var j :| 0 <= j < |s| - k && s[k..][j] == y;
      assert s[i] == x && s[k + j] == y;
    }
  }

  /** Two orders of the same rows that both respect `spec` agree on the
      sort key at every position: whichever sort is used, only rows with
      equal keys can trade places. */
  lemma {:induction false} SortedKeysUnique(a: seq<Trade>, b: seq<Trade>, spec: SortSpec)
    requires SortedBy(a, spec) && SortedBy(b, spec)
    requires multiset(a) == multiset(b)
    ensures |a| == |b|
    ensures forall i :: 0 <= i < |a| ==> Key(a[i], spec.field) == Key(b[i], spec.field)
    decreases |a|
  {
    assert |a| == |multiset(a)| == |multiset(b)| == |b|;
    if a != [] {
      var x := a[0];
      assert x in multiset(b);
      var q :| 0 <= q < |b| && b[q] == x;
      var rest := RemoveAt(b, q, spec);
      assert a == [x] + a[1..];
      assert multiset(rest) == multiset(a[1..]);
      SortedKeysUnique(a[1..], rest, spec);
      LeadingTies(a, b, q, spec);
      forall i | 0 <= i < |a| ensures Key(a[i], spec.field) == Key(b[i], spec.field) {
        if i > 0 {
          assert a[i] == a[1..][i - 1];
        }
      }
    }
  }

  /** `b` without its row at `q`: still sorted, one copy of that row fewer. */
  lemma RemoveAt(b: seq<Trade>, q: nat, spec: SortSpec) returns (rest: seq<Trade>)
    requires SortedBy(b, spec) && q < |b|
    ensures rest == b[..q] + b[q + 1..]
    ensures SortedBy(rest, spec)
    ensures multiset(rest) == multiset(b) - multiset{b[q]}
    ensures forall i :: 0 <= i < q ==> rest[i] == b[i]
    ensures forall i :: q <= i < |rest| ==> rest[i] == b[i + 1]
  {
    rest := b[..q] + b[q + 1..];
    RemoveAtMultiset(b, q);
    RemoveAtSorted(b, q, spec, rest);
  }

  lemma RemoveAtMultiset(b: seq<Trade>, q: nat)
    requires q < |b|
    ensures multiset(b[..q] + b[q + 1..]) == multiset(b) - multiset{b[q]}
  {
    var left, right := b[..q], b[q + 1..];
    assert b == left + [b[q]] + right;
  }

  lemma RemoveAtSorted(b: seq<Trade>, q: nat, spec: SortSpec, rest: seq<Trade>)
    requires SortedBy(b, spec) && q < |b|
    requires rest == b[..q] + b[q + 1..]
    ensures SortedBy(rest, spec)
  {
    forall i, j | 0 <= i < j < |rest| ensures Precedes(spec, rest[i], rest[j]) {
      var i' := if i < q then i else i + 1;
      var j' := if j < q then j else j + 1;
      assert rest[i] == b[i'] && rest[j] == b[j'];
    }
  }

  /** When `a[0]` sits at `q` in `b`, every row of `b` up to `q` shares its key. */
  lemma LeadingTies(a: seq<Trade>, b: seq<Trade>, q: nat, spec: SortSpec)
    requires SortedBy(a, spec) && SortedBy(b, spec)
    requires multiset(a) == multiset(b)
    requires q < |b| && a != [] && b[q] == a[0]
    ensures forall j :: 0 <= j <= q ==> Key(b[j], spec.field) == Key(a[0], spec.field)
  {
    assert b[0] in multiset(a);
    var p :| 0 <= p < |a| && a[p] == b[0];
    assert p == 0 || Precedes(spec, a[0], a[p]);
    forall j | 0 <= j <= q ensures Key(b[j], spec.field) == Key(a[0], spec.field) {
      assert j == 0 || Precedes(spec, b[0], b[j]);
      assert j == q || Precedes(spec, b[j], b[q]);
    }
  }

  /** Whatever sort produced `sorted`, its first `n` rows show the same
      keys, position by position, as the rows `SortAndLimit` shows. */
  lemma AnySortShowsSameKeys(df: seq<Trade>, sorted: seq<Trade>, spec: SortSpec, n: nat)
    requires SortedBy(sorted, spec) && multiset(sorted) == multiset(df)
    ensures |Head(sorted, n)| == |SortAndLimit(df, spec, n)|
    ensures forall i :: 0 <= i < |Head(sorted, n)| ==>
              Key(Head(sorted, n)[i], spec.field) == Key(SortAndLimit(df, spec, n)[i], spec.field)
  {
    SortedKeysUnique(sorted, SortValues(df, spec), spec);
  }

  /** `df['trade_value_usd'].idxmax()`: the index of the first row with the
      largest trade value. */
  function IdxMax(df: seq<Trade>): (i: nat)
    requires |df| > 0
    ensures i < |df|
    ensures forall k :: 0 <= k < |df| ==> df[k].tradeValueUsd <= df[i].tradeValueUsd
    ensures forall k :: 0 <= k < i ==> df[k].tradeValueUsd < df[i].tradeValueUsd
  {
    if |df| == 1 then 0
    else
      var j := IdxMax(df[..|df| - 1]);
      if df[|df| - 1].tradeValueUsd > df[j].tradeValueUsd then |df| - 1 else j
  }

  /** `df.loc[df['trade_value_usd'].idxmax()]`, None where `idxmax` raises
      on an empty table. */
  function KeyTransaction(df: seq<Trade>): (r: Option<Trade>)
    ensures r.None? <==> df == []
    ensures r.Some? ==> r.value in df
    ensures r.Some? ==> forall t :: t in df ==> t.tradeValueUsd <= r.value.tradeValueUsd
    ensures r.Some? ==> exists i :: 0 <= i < |df| && df[i] == r.value
                          && forall k :: 0 <= k < i ==> df[k].tradeValueUsd < df[i].tradeValueUsd
  {
    if df == [] then None else Some(df[IdxMax(df)])
  }

  /** The key transaction's value depends only on the rows of the table,
      not on their order: re-sorting the table leaves it unchanged. */
  lemma KeyValueIgnoresOrder(a: seq<Trade>, b: seq<Trade>)
    requires multiset(a) == multiset(b)
    ensures KeyTransaction(a).None? <==> KeyTransaction(b).None?
    ensures KeyTransaction(a).Some? ==>
              KeyTransaction(a).value.tradeValueUsd == KeyTransaction(b).value.tradeValueUsd
  {
    if a != [] {
      var x, y := KeyTransaction(a).value, KeyTransaction(b).value;
      assert x in multiset(b) && y in multiset(a);
    } else {
      assert |multiset(b)| == 0;
    }
  }

  /** The key transaction carries the value shown first in the
      "trade_value_usd DESC" view. */
  lemma KeyTransactionTopsDescendingView(df: seq<Trade>, n: nat)
    requires df != [] && n >= 1
    ensures SortAndLimit(df, SortSpec(TradeValueUsd, false), n) != []
    ensures SortAndLimit(df, SortSpec(TradeValueUsd, false), n)[0].tradeValueUsd
              == KeyTransaction(df).value.tradeValueUsd
  {
    var spec := SortSpec(TradeValueUsd, false);
    var r := SortAndLimit(df, spec, n);
    var top := r[0];
    var key := KeyTransaction(df).value;
    assert top in multiset(df);
    assert top in df;
    if key in multiset(df) - multiset(r) {
      assert Precedes(spec, top, key);
    } else {
      assert key in multiset(r);
      var i :| 0 <= i < |r| && r[i] == key;
      assert i == 0 || Precedes(spec, top, key);
    }
  }

  /** What the window shows: the main table and the key-transaction row. */
  datatype View = View(rows: seq<Trade>, key: Option<Trade>)
}
