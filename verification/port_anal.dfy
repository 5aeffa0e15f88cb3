/**
  `backend/portAnal.py`: the value table behind the portfolio pie chart. Each
  portfolio row whose quantity converts to an integer and whose ticker has a
  latest price contributes price × quantity under its normalised ticker; the
  contributions are then summed per ticker, in ticker order.
*/
module PortAnal {
  import opened Wrappers
  import opened Portfolio
  import Text

  /** One element of `assets`: a kept row. */
  datatype Entry = Entry(asset: string, quantity: int, price: real, value: real)

  /** One row of the grouped table: a ticker with its summed quantity and value. */
  datatype Holding = Holding(asset: string, quantity: int, value: real)

  /** `_latest_price(ticker)`: the last stored adjusted close, `None` when there is none. */
  type PriceOracle = string -> Option<real>

  /** `str(row["Asset"])`: a cell pandas reads as NaN (empty, or a marker such as "NA") prints as "nan". */
  function AssetText(asset: Option<string>): string
  {
    if asset.None? then "nan" else asset.value
  }

  /** `value = price * qty` */
  function Worth(price: real, quantity: int): real
  {
    price * (quantity as real)
  }

  /** What the loop of `_build_value_df` appends for `row`, or `None` when it skips the row. */
  function RowEntry(row: Row, latestPrice: PriceOracle): (r: Option<Entry>)
    ensures r.Some? ==> row.quantity == Some(r.value.quantity) && latestPrice(r.value.asset) == Some(r.value.price)
  {
    var ticker := NormalizeTicker(AssetText(row.asset));
    if row.quantity.None? then None
    else
      var price := latestPrice(ticker);
      if price.None? then None
      else Some(Entry(ticker, row.quantity.value, price.value, Worth(price.value, row.quantity.value)))
  }

  /**
    The loop keeps a row exactly when its quantity converted and its
    normalised ticker has a latest price; the entry it keeps carries that
    ticker (already in normal form), the row's quantity, the price, and
    price × quantity as its value.
  */
  lemma RowEntrySpec(row: Row, latestPrice: PriceOracle)
    ensures var e := RowEntry(row, latestPrice);
            && (e.Some? <==> row.quantity.Some? && latestPrice(NormalizeTicker(AssetText(row.asset))).Some?)
            && (e.Some? ==> && e.value.asset == NormalizeTicker(AssetText(row.asset))
                            && NormalizeTicker(e.value.asset) == e.value.asset
                            && e.value.quantity == row.quantity.value
                            && latestPrice(e.value.asset) == Some(e.value.price)
                            && e.value.value == Worth(e.value.price, e.value.quantity))
  {
    NormalizeTickerIdempotent(AssetText(row.asset));
  }

  /** The results `f` gives for the elements of `xs`, in order, leaving out the `None`s. */
  function Collect<X, Y>(xs: seq<X>, f: X -> Option<Y>): seq<Y>
  {
    if xs == [] then []
    else
      var n := |xs| - 1;
      Collect(xs[..n], f) + (if f(xs[n]).Some? then [f(xs[n]).value] else [])
  }

  /** The collected results are exactly those `f` gives for some element, and there are at most as many as elements. */
  lemma {:induction false} CollectSpec<X, Y>(xs: seq<X>, f: X -> Option<Y>)
    ensures |Collect(xs, f)| <= |xs|
    ensures forall y :: y in Collect(xs, f) <==> exists i :: 0 <= i < |xs| && f(xs[i]) == Some(y)
  {
    if xs != [] {
      var n := |xs| - 1;
      var prefix := xs[..n];
      CollectSpec(prefix, f);
      forall y ensures y in Collect(xs, f) <==> exists i :: 0 <= i < |xs| && f(xs[i]) == Some(y) {
        if y in Collect(prefix, f) {
          var i :| 0 <= i < n && f(prefix[i]) == Some(y);
          assert xs[i] == prefix[i];
        }
        if i :| 0 <= i < |xs| && f(xs[i]) == Some(y) {
          if i < n {
            assert prefix[i] == xs[i];
          }
        }
      }
    }
  }

  /** The `assets` list after the loop has seen `rows`. */
  function KeptEntries(rows: seq<Row>, latestPrice: PriceOracle): (r: seq<Entry>)
    ensures |r| <= |rows|
    ensures forall e :: e in r ==> latestPrice(e.asset) == Some(e.price)
  {
    var f := row => RowEntry(row, latestPrice);
    CollectSpec(rows, f);
    assert forall e :: e in Collect(rows, f) ==> exists i :: 0 <= i < |rows| && f(rows[i]) == Some(e);
    Collect(rows, f)
  }

  /**
    The kept entries are exactly the entries of the rows the loop does not
    skip: a row contributes when its quantity converted and its normalised
    ticker has a latest price, and then it contributes price × quantity
    under that ticker.
  */
  lemma KeptEntriesSpec(rows: seq<Row>, latestPrice: PriceOracle)
    ensures var kept := KeptEntries(rows, latestPrice);
            && |kept| <= |rows|
            && forall e :: e in kept <==> exists i :: 0 <= i < |rows| && RowEntry(rows[i], latestPrice) == Some(e)
  {
    CollectSpec(rows, row => RowEntry(row, latestPrice));
  }

  // ----- group by asset -----

  /** Holdings strictly ordered by ticker, as `groupby` sorts its keys: in particular one holding per ticker. */
  predicate SortedByAsset(gs: seq<Holding>)
  {
    forall i, j :: 0 <= i < j < |gs| ==> Text.StrLess(gs[i].asset, gs[j].asset)
  }

  /** Adds an entry to sorted holdings: to the holding of its ticker, or as a new holding in ticker order. */
  function AddEntry(gs: seq<Holding>, e: Entry): (r: seq<Holding>)
    ensures |gs| <= |r| <= |gs| + 1
  {
    if gs == [] then [Holding(e.asset, e.quantity, e.value)]
    else if gs[0].asset == e.asset then [Holding(e.asset, gs[0].quantity + e.quantity, gs[0].value + e.value)] + gs[1..]
    else if Text.StrLess(e.asset, gs[0].asset) then [Holding(e.asset, e.quantity, e.value)] + gs
    else [gs[0]] + AddEntry(gs[1..], e)
  }

  /** `groupby("Asset").agg({"Quantity": "sum", "Value": "sum"})` on the kept entries. */
  function GroupByAsset(entries: seq<Entry>): (r: seq<Holding>)
    ensures |r| <= |entries|
    ensures entries != [] ==> r != []
  {
    if entries == [] then []
    else AddEntry(GroupByAsset(entries[..|entries| - 1]), entries[|entries| - 1])
  }

  /** The quantity the entries hold of ticker `a`. */
  function SumQuantity(entries: seq<Entry>, a: string): int
  {
    if entries == [] then 0
    else
      var n := |entries| - 1;
      SumQuantity(entries[..n], a) + (if entries[n].asset == a then entries[n].quantity else 0)
  }

  /** The value the entries hold of ticker `a`. */
  function SumValue(entries: seq<Entry>, a: string): real
  {
    if entries == [] then 0.0
    else
      var n := |entries| - 1;
      SumValue(entries[..n], a) + (if entries[n].asset == a then entries[n].value else 0.0)
  }

  /** The value of all entries. */
  function EntriesValue(entries: seq<Entry>): real
  {
    if entries == [] then 0.0 else EntriesValue(entries[..|entries| - 1]) + entries[|entries| - 1].value
  }

  /** The quantity the holdings record for ticker `a`. */
  function HeldQuantity(gs: seq<Holding>, a: string): int
  {
    if gs == [] then 0 else (if gs[0].asset == a then gs[0].quantity else 0) + HeldQuantity(gs[1..], a)
  }

  /** The value the holdings record for ticker `a`. */
  function HeldValue(gs: seq<Holding>, a: string): real
  {
    if gs == [] then 0.0 else (if gs[0].asset == a then gs[0].value else 0.0) + HeldValue(gs[1..], a)
  }

  /** `df["Value"].sum()` */
  function TotalValue(gs: seq<Holding>): real
  {
    if gs == [] then 0.0 else gs[0].value + TotalValue(gs[1..])
  }

  /** Adding an entry to sorted holdings keeps them sorted, and the tickers held become the old ones plus the entry's. */
  lemma {:induction false} AddEntrySorted(gs: seq<Holding>, e: Entry)
    requires SortedByAsset(gs)
    ensures SortedByAsset(AddEntry(gs, e))
    ensures forall a :: a in Assets(AddEntry(gs, e)) <==> a in Assets(gs) || a == e.asset
  {
    var r := AddEntry(gs, e);
    if gs == [] {
    } else if gs[0].asset == e.asset {
      assert Assets(r) == Assets(gs) by {
        assert r[1..] == gs[1..];
        AssetsCons(r);
        AssetsCons(gs);
      }
    } else if Text.StrLess(e.asset, gs[0].asset) {
      AssetsCons(r);
      assert r[1..] == gs;
      forall i, j | 0 <= i < j < |r| ensures Text.StrLess(r[i].asset, r[j].asset) {
        if i == 0 && j > 1 {
          Text.StrLessTransitive(e.asset, gs[0].asset, gs[j - 1].asset);
        }
      }
    } else {
      var rest := AddEntry(gs[1..], e);
      AddEntrySorted(gs[1..], e);
      Text.StrLessTotal(e.asset, gs[0].asset);
      assert r == [gs[0]] + rest;
      AssetsCons(r);
      AssetsCons(gs);
      assert r[1..] == rest;
      forall j | 0 <= j < |rest| ensures Text.StrLess(gs[0].asset, rest[j].asset) {
        assert rest[j].asset in Assets(rest);
        if rest[j].asset != e.asset {
          var m :| 0 <= m < |gs[1..]| && gs[1..][m].asset == rest[j].asset;
          assert gs[m + 1].asset == rest[j].asset;
        }
      }
      forall i, j | 0 <= i < j < |r| ensures Text.StrLess(r[i].asset, r[j].asset) {
        if i == 0 {
          assert r[j] == rest[j - 1];
        } else {
          assert r[i] == rest[i - 1] && r[j] == rest[j - 1];
        }
      }
    }
  }

  /** The tickers of some holdings. */
  function Assets(gs: seq<Holding>): set<string>
  {
    set i | 0 <= i < |gs| :: gs[i].asset
  }

  lemma AssetsCons(gs: seq<Holding>)
    requires gs != []
    ensures Assets(gs) == {gs[0].asset} + Assets(gs[1..])
  {
    forall a | a in Assets(gs) ensures a in {gs[0].asset} + Assets(gs[1..]) {
      var i :| 0 <= i < |gs| && gs[i].asset == a;
      if i > 0 {
        assert gs[1..][i - 1] == gs[i];
      }
    }
    forall a | a in Assets(gs[1..]) ensures a in Assets(gs) {
      var i :| 0 <= i < |gs[1..]| && gs[1..][i].asset == a;
      assert gs[i + 1] == gs[1..][i];
    }
  }

  /** Adding an entry adds its quantity and value to its own ticker only, and its value to the total. */
  lemma {:induction false} AddEntrySums(gs: seq<Holding>, e: Entry, a: string)
    ensures HeldQuantity(AddEntry(gs, e), a) == HeldQuantity(gs, a) + (if a == e.asset then e.quantity else 0)
    ensures HeldValue(AddEntry(gs, e), a) == HeldValue(gs, a) + (if a == e.asset then e.value else 0.0)
    ensures TotalValue(AddEntry(gs, e)) == TotalValue(gs) + e.value
  {
    if gs != [] && gs[0].asset != e.asset && !Text.StrLess(e.asset, gs[0].asset) {
      AddEntrySums(gs[1..], e, a);
      assert AddEntry(gs, e)[1..] == AddEntry(gs[1..], e);
    } else if gs != [] && gs[0].asset != e.asset {
      assert AddEntry(gs, e)[1..] == gs;
    } else if gs != [] {
      assert AddEntry(gs, e)[1..] == gs[1..];
    }
  }

  /** The tickers of some entries. */
  function EntryAssets(entries: seq<Entry>): set<string>
  {
    set i | 0 <= i < |entries| :: entries[i].asset
  }

  /** Grouping keeps the holdings sorted, holds exactly the entries' tickers, and sums quantities, values and the total. */
  lemma {:induction false} GroupByAssetSums(entries: seq<Entry>)
    ensures var gs := GroupByAsset(entries);
            && SortedByAsset(gs)
            && Assets(gs) == EntryAssets(entries)
            && (forall a :: HeldQuantity(gs, a) == SumQuantity(entries, a) && HeldValue(gs, a) == SumValue(entries, a))
            && TotalValue(gs) == EntriesValue(entries)
  {
    if entries != [] {
      var n := |entries| - 1;
      var prefix := entries[..n];
      var e := entries[n];
      EntryAssetsSnoc(entries);
      GroupByAssetSums(prefix);
      var prev := GroupByAsset(prefix);
      assert GroupByAsset(entries) == AddEntry(prev, e);
      AddEntrySorted(prev, e);
      forall a ensures HeldQuantity(GroupByAsset(entries), a) == SumQuantity(entries, a)
                       && HeldValue(GroupByAsset(entries), a) == SumValue(entries, a) {
        AddEntrySums(prev, e, a);
      }
      AddEntrySums(prev, e, e.asset);
    }
  }

  /** The tickers of some entries and one more are the earlier tickers plus its own. */
  lemma EntryAssetsSnoc(entries: seq<Entry>)
    requires entries != []
    ensures EntryAssets(entries) == EntryAssets(entries[..|entries| - 1]) + {entries[|entries| - 1].asset}
  {
    var n := |entries| - 1;
    var prefix := entries[..n];
    forall a | a in EntryAssets(entries) ensures a in EntryAssets(prefix) + {entries[n].asset} {
      var i :| 0 <= i < |entries| && entries[i].asset == a;
      if i < n {
        assert prefix[i] == entries[i];
      }
    }
    forall a | a in EntryAssets(prefix) ensures a in EntryAssets(entries) {
      var i :| 0 <= i < n && prefix[i].asset == a;
      assert entries[i] == prefix[i];
    }
  }

  /** In sorted holdings each holding is the only one of its ticker, so the recorded sums are its own. */
  lemma {:induction false} HeldOfSorted(gs: seq<Holding>, i: int)
    requires SortedByAsset(gs) && 0 <= i < |gs|
    ensures HeldQuantity(gs, gs[i].asset) == gs[i].quantity && HeldValue(gs, gs[i].asset) == gs[i].value
  {
    var a := gs[i].asset;
    if i == 0 {
      NotHeldAfter(gs[1..], a);
    } else {
      assert gs[1..][i - 1] == gs[i];
      HeldOfSorted(gs[1..], i - 1);
      Text.StrLessIrreflexive(a);
      assert Text.StrLess(gs[0].asset, a);
    }
  }

  /** Nothing is recorded for a ticker ordered before every held one. */
  lemma {:induction false} NotHeldAfter(gs: seq<Holding>, a: string)
    requires SortedByAsset(gs) && forall j :: 0 <= j < |gs| ==> Text.StrLess(a, gs[j].asset)
    ensures HeldQuantity(gs, a) == 0 && HeldValue(gs, a) == 0.0
  {
    if gs != [] {
      Text.StrLessIrreflexive(a);
      assert gs[0].asset != a;
      NotHeldAfter(gs[1..], a);
    }
  }

  /**
    `groupby` yields one holding per distinct ticker of the kept entries, in
    ticker order; each holding's quantity and value are the sums over the
    entries of its ticker, and the total value is the sum of all entries'
    values.
  */
  lemma GroupByAssetSpec(entries: seq<Entry>)
    ensures var gs := GroupByAsset(entries);
            && SortedByAsset(gs)
            && Assets(gs) == EntryAssets(entries)
            && (forall i :: 0 <= i < |gs| ==>
                  gs[i].quantity == SumQuantity(entries, gs[i].asset) && gs[i].value == SumValue(entries, gs[i].asset))
            && TotalValue(gs) == EntriesValue(entries)
  {
    var gs := GroupByAsset(entries);
    GroupByAssetSums(entries);
    forall i | 0 <= i < |gs| ensures gs[i].quantity == SumQuantity(entries, gs[i].asset)
                                  && gs[i].value == SumValue(entries, gs[i].asset) {
      HeldOfSorted(gs, i);
    }
  }

  /** One more row seen by the loop adds that row's entry, if any, at the end. */
  lemma KeptEntriesStep(rows: seq<Row>, i: int, latestPrice: PriceOracle)
    requires 0 <= i < |rows|
    ensures KeptEntries(rows[..i + 1], latestPrice)
            == KeptEntries(rows[..i], latestPrice)
               + (if RowEntry(rows[i], latestPrice).Some? then [RowEntry(rows[i], latestPrice).value] else [])
  {
    assert rows[..i + 1][..i] == rows[..i];
  }

  /** Grouping leaves nothing exactly when there was nothing to group. */
  lemma GroupByAssetEmpty(entries: seq<Entry>)
    ensures GroupByAsset(entries) == [] <==> entries == []
  {
    GroupByAssetSums(entries);
    if entries != [] {
      assert entries[0].asset in EntryAssets(entries);
    }
  }

  /** The table has rows and both the Asset and the Quantity column. */
  predicate Usable(portfolio: Table)
  {
    portfolio.rows != [] && "Asset" in portfolio.columns && "Quantity" in portfolio.columns
  }

  /**
    `_build_value_df()` on the loaded portfolio (an empty table when there
    is no readable file): empty when the table is empty or lacks a needed
    column, otherwise the kept entries grouped by ticker.
  */
  method BuildValueTable(portfolio: Table, latestPrice: PriceOracle) returns (groups: seq<Holding>)
    ensures !Usable(portfolio) ==> groups == []
    ensures Usable(portfolio) ==> groups == GroupByAsset(KeptEntries(portfolio.rows, latestPrice))
  {
    if portfolio.rows == [] || !({"Asset", "Quantity"} <= portfolio.columns) {
      return [];
    }
    var rows := portfolio.rows;
    var assets: seq<Entry> := [];
    var i := 0;
    while i < |rows|
      invariant 0 <= i <= |rows|
      invariant assets == KeptEntries(rows[..i], latestPrice)
    {
      KeptEntriesStep(rows, i, latestPrice);
      var row := rows[i];
      var ticker := NormalizeTicker(AssetText(row.asset));
      i := i + 1;
      if row.quantity.None? {
        continue;
      }
      var quantity := row.quantity.value;
      var price := latestPrice(ticker);
      if price.None? {
        continue;
      }
      var value := Worth(price.value, quantity);
      assets := assets + [Entry(ticker, quantity, price.value, value)];
    }
    assert rows[..i] == rows;
    if assets == [] {
      return [];
    }
    groups := GroupByAsset(assets);
  }

  const PiePath := "current_portfolio/PApie.png"

  /** `_save_pie(df)`: no chart for an empty table or a total value that is not positive. */
  function SavePie(groups: seq<Holding>): (r: Option<string>)
    ensures r.None? <==> groups == [] || TotalValue(groups) <= 0.0
    ensures r.Some? ==> r.value == PiePath
  {
    if groups == [] || TotalValue(groups) <= 0.0 then None else Some(PiePath)
  }

  /**
    `run_portfolio_analysis()`: a chart is drawn exactly when the table is
    usable, some row is kept, and the kept rows' values add up to more than
    zero.
  */
  method RunPortfolioAnalysis(portfolio: Table, latestPrice: PriceOracle) returns (r: Option<string>)
    ensures r.Some? <==> Usable(portfolio) && KeptEntries(portfolio.rows, latestPrice) != []
                         && EntriesValue(KeptEntries(portfolio.rows, latestPrice)) > 0.0
    ensures r.Some? ==> r.value == PiePath
  {
    var groups := BuildValueTable(portfolio, latestPrice);
    var kept := KeptEntries(portfolio.rows, latestPrice);
    GroupByAssetEmpty(kept);
    GroupByAssetSums(kept);
    r := SavePie(groups);
  }
}
