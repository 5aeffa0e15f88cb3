/**
  `update_current_portfolio_data`: the tickers of the current portfolio are
  synced one after the other over a common window running from January 1 of
  `years` years ago to today; the symbols whose sync failed are collected
  and reported together.
*/
module PortfolioUpdate {
  import opened Wrappers
  import opened PriceSeries
  import opened RangeSync
  import opened Calendar
  import opened Portfolio

  /** The exceptions `update_current_portfolio_data` lets escape. */
  datatype UpdateError =
    | NoPortfolio                          // FileNotFoundError: no CSV in current_portfolio/
    | MissingAssetColumn                   // ValueError: no 'Asset' column
    | NoTickers                            // ValueError: no ticker left after normalising
    | YearOutOfRange(year: int)            // ValueError raised by date(start_year, 1, 1)
    | UpdateFailed(symbols: seq<Symbol>)   // RuntimeError naming the symbols that failed

  predicate NoDuplicates(xs: seq<string>)
  {
    forall i, j :: 0 <= i < j < |xs| ==> xs[i] != xs[j]
  }

  /**
    The index labels `df["Asset"].dropna()` keeps: the rows whose Asset cell
    is present, each once, in row order.
  */
  function PresentRows(rows: seq<Row>): (idx: seq<nat>)
    ensures forall k :: 0 <= k < |idx| ==> idx[k] < |rows| && rows[idx[k]].asset.Some?
    ensures forall k, m :: 0 <= k < m < |idx| ==> idx[k] < idx[m]
    ensures forall i :: 0 <= i < |rows| && rows[i].asset.Some? ==> i in idx
  {
    if rows == [] then []
    else
      var n := |rows| - 1;
      var rest := PresentRows(rows[..n]);
      assert forall k :: 0 <= k < |rest| ==> rows[..n][rest[k]] == rows[rest[k]];
      assert forall i :: 0 <= i < n ==> rows[..n][i] == rows[i];
      if rows[n].asset.Some? then rest + [n] else rest
  }

  /**
    `df["Asset"].dropna().astype(str)`: the present cells, in the order of
    their rows (the k-th is the cell of the k-th present row).
  */
  function PresentAssets(rows: seq<Row>): (cells: seq<string>)
    ensures |cells| == |PresentRows(rows)|
    ensures forall k :: 0 <= k < |cells| ==> rows[PresentRows(rows)[k]].asset == Some(cells[k])
    ensures forall c :: c in cells <==> exists i :: 0 <= i < |rows| && rows[i].asset == Some(c)
  {
    var idx := PresentRows(rows);
    var cells := seq(|idx|, k requires 0 <= k < |idx| => rows[idx[k]].asset.value);
    PresentCells(rows, idx, cells);
    cells
  }

  /** The cells read off the present rows are exactly the values the present cells hold. */
  lemma PresentCells(rows: seq<Row>, idx: seq<nat>, cells: seq<string>)
    requires forall k :: 0 <= k < |idx| ==> idx[k] < |rows| && rows[idx[k]].asset.Some?
    requires forall i :: 0 <= i < |rows| && rows[i].asset.Some? ==> i in idx
    requires |cells| == |idx| && forall k :: 0 <= k < |idx| ==> cells[k] == rows[idx[k]].asset.value
    ensures forall c :: c in cells <==> exists i :: 0 <= i < |rows| && rows[i].asset == Some(c)
  {
    forall c ensures c in cells <==> exists i :: 0 <= i < |rows| && rows[i].asset == Some(c) {
      if c in cells {
        var k :| 0 <= k < |cells| && cells[k] == c;
        assert rows[idx[k]].asset == Some(c);
      }
      if i :| 0 <= i < |rows| && rows[i].asset == Some(c) {
        var k :| 0 <= k < |idx| && idx[k] == i;
        assert cells[k] == c;
      }
    }
  }

  /** `.str.strip().str.upper()` */
  function NormalizeAll(cells: seq<string>): (r: seq<string>)
    ensures |r| == |cells|
    ensures forall i :: 0 <= i < |r| ==> NormalizeTicker(r[i]) == r[i]
    ensures forall i :: 0 <= i < |r| && r[i] != [] ==> !Text.IsSpace(r[i][0]) && !Text.IsSpace(r[i][|r[i]| - 1])
  {
    AllIdempotent(cells);
    seq(|cells|, i requires 0 <= i < |cells| => NormalizeTicker(cells[i]))
  }

  /** Every cell, once normalised, is in normal form. */
  lemma AllIdempotent(cells: seq<string>)
    ensures forall i :: 0 <= i < |cells| ==> NormalizeTicker(NormalizeTicker(cells[i])) == NormalizeTicker(cells[i])
  {
    forall i | 0 <= i < |cells| ensures NormalizeTicker(NormalizeTicker(cells[i])) == NormalizeTicker(cells[i]) {
      NormalizeTickerIdempotent(cells[i]);
    }
  }

  /** Index of the first occurrence of `x` in `xs`. */
  function FirstIndex(xs: seq<string>, x: string): (k: nat)
    requires x in xs
    ensures k < |xs| && xs[k] == x && forall m :: 0 <= m < k ==> xs[m] != x
  {
    if xs[0] == x then 0 else 1 + FirstIndex(xs[1..], x)
  }

  /** `.unique()`: each value once, in the order of first occurrence. */
  function Unique(xs: seq<string>): (r: seq<string>)
    ensures forall x :: x in r <==> x in xs
    ensures NoDuplicates(r)
  {
    if xs == [] then []
    else
      var n := |xs| - 1;
      var u := Unique(xs[..n]);
      assert forall x :: x in xs <==> x in xs[..n] || x == xs[n] by {
        assert xs == xs[..n] + [xs[n]];
      }
      if xs[n] in u then u else u + [xs[n]]
  }

  /** `[t for t in tickers if t]` */
  function DropEmpty(xs: seq<string>): (r: seq<string>)
    ensures forall x :: x in r <==> x in xs && x != ""
    ensures NoDuplicates(xs) ==> NoDuplicates(r)
  {
    if xs == [] then []
    else
      var n := |xs| - 1;
      var rest := DropEmpty(xs[..n]);
      assert forall x :: x in xs <==> x in xs[..n] || x == xs[n] by {
        assert xs == xs[..n] + [xs[n]];
      }
      if xs[n] != "" then
        assert NoDuplicates(xs) ==> xs[n] !in xs[..n] && NoDuplicates(xs[..n]);
        rest + [xs[n]]
      else
        assert NoDuplicates(xs) ==> NoDuplicates(xs[..n]);
        rest
  }

  /** The normalised Asset values of the portfolio, before duplicates and empties are dropped. */
  function NormalizedAssets(t: Table): seq<string>
  {
    NormalizeAll(PresentAssets(t.rows))
  }

  /** `_extract_tickers()` on the portfolio file, `None` when there is none. */
  function ExtractTickers(portfolio: Option<Table>): (r: Result<seq<Symbol>, UpdateError>)
    ensures portfolio.None? ==> r == Failure(NoPortfolio)
    ensures portfolio.Some? && "Asset" !in portfolio.value.columns ==> r == Failure(MissingAssetColumn)
    ensures portfolio.Some? && "Asset" in portfolio.value.columns ==>
              && (r.Success? || r == Failure(NoTickers))
              && (r.Success? <==> exists x :: x in NormalizedAssets(portfolio.value) && x != "")
    ensures r.Success? ==> r.value != [] && NoDuplicates(r.value) && forall t :: t in r.value ==> t != ""
  {
    if portfolio.None? then Failure(NoPortfolio)
    else if "Asset" !in portfolio.value.columns then Failure(MissingAssetColumn)
    else
      var norm := NormalizedAssets(portfolio.value);
      var tickers := DropEmpty(Unique(norm));
      NoneLeftIffAllEmpty(norm);
      if tickers == [] then Failure(NoTickers) else Success(tickers)
  }

  /** Nothing is left after `.unique()` and dropping empty strings exactly when there is no non-empty value. */
  lemma NoneLeftIffAllEmpty(xs: seq<string>)
    ensures DropEmpty(Unique(xs)) == [] <==> !exists x :: x in xs && x != ""
  {
    var d := DropEmpty(Unique(xs));
    if d != [] {
      assert d[0] in d;
    }
  }

  /** Dropping elements keeps the relative order of those that remain. */
  lemma {:induction false} DropEmptyKeepsOrder(xs: seq<string>, norm: seq<string>)
    requires forall x :: x in xs ==> x in norm
    requires forall i, j :: 0 <= i < j < |xs| ==> FirstIndex(norm, xs[i]) < FirstIndex(norm, xs[j])
    ensures forall i, j :: 0 <= i < j < |DropEmpty(xs)| ==> FirstIndex(norm, DropEmpty(xs)[i]) < FirstIndex(norm, DropEmpty(xs)[j])
  {
    if xs != [] {
      var n := |xs| - 1;
      DropEmptyKeepsOrder(xs[..n], norm);
      var rest := DropEmpty(xs[..n]);
      forall i | 0 <= i < |rest| ensures FirstIndex(norm, rest[i]) < FirstIndex(norm, xs[n]) {
        assert rest[i] in xs[..n];
        var k :| 0 <= k < n && xs[..n][k] == rest[i];
        assert xs[k] == rest[i];
      }
    }
  }

  /** A value occurring in a prefix first occurs at the same index in the whole sequence. */
  lemma FirstIndexPrefix(xs: seq<string>, n: nat, x: string)
    requires n <= |xs| && x in xs[..n]
    ensures FirstIndex(xs, x) == FirstIndex(xs[..n], x) < n
  {
    var k := FirstIndex(xs[..n], x);
    assert xs[k] == x;
  }

  /** `Unique` lists the values in the order in which each first occurs. */
  lemma {:induction false} UniqueFirstSeenOrder(xs: seq<string>)
    ensures forall i, j :: 0 <= i < j < |Unique(xs)| ==> FirstIndex(xs, Unique(xs)[i]) < FirstIndex(xs, Unique(xs)[j])
  {
    if xs != [] {
      var n := |xs| - 1;
      var u := Unique(xs[..n]);
      UniqueFirstSeenOrder(xs[..n]);
      var r := Unique(xs);
      assert r == if xs[n] in u then u else u + [xs[n]];
      forall i, j | 0 <= i < j < |r| ensures FirstIndex(xs, r[i]) < FirstIndex(xs, r[j]) {
        assert r[i] == u[i] && u[i] in xs[..n];
        FirstIndexPrefix(xs, n, u[i]);
        if j < |u| {
          assert r[j] == u[j] && u[j] in xs[..n];
          FirstIndexPrefix(xs, n, u[j]);
        } else {
          assert r[j] == xs[n] && xs[n] !in xs[..n];
          assert FirstIndex(xs, xs[n]) == n;
        }
      }
    }
  }

  /** A value is a normalised Asset value exactly when some row's present Asset cell normalises to it. */
  lemma NormalizedAssetsMembers(t: Table, x: string)
    ensures x in NormalizedAssets(t) <==> exists i :: 0 <= i < |t.rows| && t.rows[i].asset.Some?
                                                     && x == NormalizeTicker(t.rows[i].asset.value)
  {
    if x in NormalizedAssets(t) {
      NormalizedAssetFromRow(t, x);
    }
    if exists i :: 0 <= i < |t.rows| && t.rows[i].asset.Some? && x == NormalizeTicker(t.rows[i].asset.value) {
      var i :| 0 <= i < |t.rows| && t.rows[i].asset.Some? && x == NormalizeTicker(t.rows[i].asset.value);
      RowGivesNormalizedAsset(t, i);
    }
  }

  lemma NormalizedAssetFromRow(t: Table, x: string)
    requires x in NormalizedAssets(t)
    ensures exists i :: 0 <= i < |t.rows| && t.rows[i].asset.Some? && x == NormalizeTicker(t.rows[i].asset.value)
  {
    var cells := PresentAssets(t.rows);
    var norm := NormalizeAll(cells);
    var k :| 0 <= k < |norm| && norm[k] == x;
    var c := cells[k];
    assert c in cells;
    var i :| 0 <= i < |t.rows| && t.rows[i].asset == Some(c);
    assert x == NormalizeTicker(t.rows[i].asset.value);
  }

  lemma RowGivesNormalizedAsset(t: Table, i: int)
    requires 0 <= i < |t.rows| && t.rows[i].asset.Some?
    ensures NormalizeTicker(t.rows[i].asset.value) in NormalizedAssets(t)
  {
    var cells := PresentAssets(t.rows);
    var c := t.rows[i].asset.value;
    assert c in cells;
    var k :| 0 <= k < |cells| && cells[k] == c;
    assert NormalizeAll(cells)[k] == NormalizeTicker(c);
  }

  /**
    The extracted tickers are exactly the distinct non-empty values that some
    row's Asset cell normalises to, and each is already in normal form.
  */
  lemma ExtractTickersMembers(t: Table, x: string)
    requires "Asset" in t.columns && ExtractTickers(Some(t)).Success?
    ensures x in ExtractTickers(Some(t)).value <==>
              x != "" && exists i :: 0 <= i < |t.rows| && t.rows[i].asset.Some?
                                     && x == NormalizeTicker(t.rows[i].asset.value)
    ensures x in ExtractTickers(Some(t)).value ==> NormalizeTicker(x) == x
  {
    var norm := NormalizedAssets(t);
    assert ExtractTickers(Some(t)).value == DropEmpty(Unique(norm));
    assert x in ExtractTickers(Some(t)).value <==> x in norm && x != "";
    NormalizedAssetsMembers(t, x);
    if x in norm {
      InNormalForm(norm, x);
    }
  }

  /** A value of a normalised list is in normal form. */
  lemma InNormalForm(norm: seq<string>, x: string)
    requires forall i :: 0 <= i < |norm| ==> NormalizeTicker(norm[i]) == norm[i]
    requires x in norm
    ensures NormalizeTicker(x) == x
  {
    var k :| 0 <= k < |norm| && norm[k] == x;
  }

  /** The extracted tickers appear in the order in which each first occurs among the normalised Asset values. */
  lemma TickersFollowNormalized(t: Table)
    requires "Asset" in t.columns && ExtractTickers(Some(t)).Success?
    ensures var tickers := ExtractTickers(Some(t)).value;
            var norm := NormalizedAssets(t);
            && (forall x :: x in tickers ==> x in norm)
            && forall i, j :: 0 <= i < j < |tickers| ==> FirstIndex(norm, tickers[i]) < FirstIndex(norm, tickers[j])
  {
    var norm := NormalizedAssets(t);
    assert ExtractTickers(Some(t)).value == DropEmpty(Unique(norm));
    UniqueFirstSeenOrder(norm);
    DropEmptyKeepsOrder(Unique(norm), norm);
  }

  /** Row `i` has a present Asset cell that normalises to `x`. */
  predicate RowGives(rows: seq<Row>, i: int, x: string)
    requires 0 <= i < |rows|
  {
    rows[i].asset.Some? && NormalizeTicker(rows[i].asset.value) == x
  }

  /** Some row before row `r` gives `x`. */
  predicate GivenBefore(rows: seq<Row>, r: int, x: string)
  {
    exists q :: 0 <= q < r && q < |rows| && RowGives(rows, q, x)
  }

  /**
    The extracted tickers are listed in the order of the rows where they
    first occur: whenever a row gives a later ticker, an earlier row gives
    each ticker listed before it.
  */
  lemma ExtractTickersOrder(t: Table)
    requires "Asset" in t.columns && ExtractTickers(Some(t)).Success?
    ensures var tickers := ExtractTickers(Some(t)).value;
            forall a, b, r :: 0 <= a < b < |tickers| && 0 <= r < |t.rows| && RowGives(t.rows, r, tickers[b]) ==>
              GivenBefore(t.rows, r, tickers[a])
  {
    var tickers := ExtractTickers(Some(t)).value;
    TickersFollowNormalized(t);
    RowOrderFromFirstSeen(t, tickers);
  }

  /** Tickers listed in first-seen order of the normalised values are listed in the order of their first rows. */
  lemma RowOrderFromFirstSeen(t: Table, tickers: seq<string>)
    requires forall x :: x in tickers ==> x in NormalizedAssets(t)
    requires forall i, j :: 0 <= i < j < |tickers| ==>
               FirstIndex(NormalizedAssets(t), tickers[i]) < FirstIndex(NormalizedAssets(t), tickers[j])
    ensures forall a, b, r :: 0 <= a < b < |tickers| && 0 <= r < |t.rows| && RowGives(t.rows, r, tickers[b]) ==>
              GivenBefore(t.rows, r, tickers[a])
  {
    forall a, b, r | 0 <= a < b < |tickers| && 0 <= r < |t.rows| && RowGives(t.rows, r, tickers[b])
      ensures GivenBefore(t.rows, r, tickers[a])
    {
      assert tickers[a] in tickers && tickers[b] in tickers;
      EarlierRowGives(t, tickers[a], tickers[b], r);
    }
  }

  /** A value first seen before another among the normalised values is given by a row before any row giving the other. */
  lemma EarlierRowGives(t: Table, x: string, y: string, r: int)
    requires x in NormalizedAssets(t) && y in NormalizedAssets(t)
    requires FirstIndex(NormalizedAssets(t), x) < FirstIndex(NormalizedAssets(t), y)
    requires 0 <= r < |t.rows| && RowGives(t.rows, r, y)
    ensures GivenBefore(t.rows, r, x)
  {
    var idx := PresentRows(t.rows);
    var cells := PresentAssets(t.rows);
    var norm := NormalizedAssets(t);
    var kr :| 0 <= kr < |idx| && idx[kr] == r;
    assert norm[kr] == y;
    var ka := FirstIndex(norm, x);
    assert ka < kr;
    var q := idx[ka];
    assert RowGives(t.rows, q, x);
  }

  /** The common target window `[start, end]` of a batch, as day ordinals. */
  datatype Window = Window(start: Day, end: Day)

  /**
    `date(end_date.year - years, 1, 1)` to `end_date`: January 1 of the start
    year through today, or the ValueError `date` raises for a year outside
    1..9999.
  */
  function BatchWindow(today: Date, years: int): (r: Result<Window, UpdateError>)
    requires ValidDate(today)
    ensures r.Failure? <==> !(MinYear <= today.year - years <= MaxYear)
    ensures r.Failure? ==> r.error == YearOutOfRange(today.year - years)
    ensures r.Success? ==> r.value.start == Ordinal(NewYear(today.year - years)) && r.value.end == Ordinal(today)
    ensures r.Success? && years >= 0 ==> r.value.start <= r.value.end
  {
    var startYear := today.year - years;
    if !(MinYear <= startYear <= MaxYear) then Failure(YearOutOfRange(startYear))
    else
      var w := Window(Ordinal(NewYear(startYear)), Ordinal(today));
      if years >= 0 then NewYearNotAfter(startYear, today); Success(w) else Success(w)
  }

  /** The store and the failures collected after syncing a prefix of the tickers. */
  datatype BatchState = BatchState(files: map<Symbol, seq<Bar>>, failures: seq<Symbol>)

  /** The series a symbol has after a sync with outcome `out` from `stored`. */
  function SeriesAfter(stored: seq<Bar>, out: SyncOutcome): seq<Bar>
  {
    if out.written.Some? then out.written.value else stored
  }

  /** One turn of the loop: `symbol` is synced against the store as it is, and recorded when that fails. */
  function SyncStep(st: BatchState, symbol: Symbol, w: Window, fetch: Fetcher): (next: BatchState)
    requires AllSorted(st.files)
    ensures AllSorted(next.files)
  {
    var stored := StoredIn(st.files, symbol);
    var out := Sync(stored, symbol, w.start, w.end, fetch);
    if out.written.Some? then
      SyncWrites(stored, symbol, w.start, w.end, fetch);
      AllSortedUpdate(st.files, symbol, out.written.value);
      BatchState(Apply(st.files, symbol, out), if out.ok then st.failures else st.failures + [symbol])
    else
      BatchState(Apply(st.files, symbol, out), if out.ok then st.failures else st.failures + [symbol])
  }

  /**
    A turn changes only the synced symbol: its series becomes what its sync
    writes, and it joins the failures when that sync fails.
  */
  lemma SyncStepEffect(st: BatchState, symbol: Symbol, w: Window, fetch: Fetcher, s: Symbol)
    requires AllSorted(st.files)
    ensures var next := SyncStep(st, symbol, w, fetch);
            var out := Sync(StoredIn(st.files, symbol), symbol, w.start, w.end, fetch);
            && (s != symbol ==> (s in next.files <==> s in st.files) && StoredIn(next.files, s) == StoredIn(st.files, s)
                                && (s in next.failures <==> s in st.failures))
            && (s == symbol ==> StoredIn(next.files, s) == SeriesAfter(StoredIn(st.files, s), out)
                                && (s in next.failures <==> s in st.failures || !out.ok))
  {
  }

  /**
    The loop of `update_current_portfolio_data`: each ticker in turn is
    synced over the window against the store as the previous tickers left
    it, and appended to the failures when its sync reports failure.
  */
  function SyncBatch(files: map<Symbol, seq<Bar>>, tickers: seq<Symbol>, w: Window, fetch: Fetcher): (st: BatchState)
    requires AllSorted(files)
    ensures AllSorted(st.files)
  {
    if tickers == [] then BatchState(files, [])
    else
      var n := |tickers| - 1;
      SyncStep(SyncBatch(files, tickers[..n], w, fetch), tickers[n], w, fetch)
  }

  /** Only tickers of the batch are ever recorded as failures. */
  lemma {:induction false} SyncBatchFailuresAreTickers(files: map<Symbol, seq<Bar>>, tickers: seq<Symbol>, w: Window, fetch: Fetcher, s: Symbol)
    requires AllSorted(files) && s in SyncBatch(files, tickers, w, fetch).failures
    ensures s in tickers
  {
    var n := |tickers| - 1;
    var prev := SyncBatch(files, tickers[..n], w, fetch);
    SyncStepEffect(prev, tickers[n], w, fetch, s);
    if s != tickers[n] {
      SyncBatchFailuresAreTickers(files, tickers[..n], w, fetch, s);
      assert s in tickers[..n];
    }
  }

  /** A batch leaves the files of symbols that are not among its tickers as they were. */
  lemma {:induction false} SyncBatchUntouched(files: map<Symbol, seq<Bar>>, tickers: seq<Symbol>, w: Window, fetch: Fetcher, s: Symbol)
    requires AllSorted(files) && s !in tickers
    ensures var st := SyncBatch(files, tickers, w, fetch);
            (s in st.files <==> s in files) && StoredIn(st.files, s) == StoredIn(files, s) && s !in st.failures
  {
    if tickers != [] {
      var n := |tickers| - 1;
      assert s !in tickers[..n] by { assert forall x :: x in tickers[..n] ==> x in tickers; }
      SyncBatchUntouched(files, tickers[..n], w, fetch, s);
      SyncStepEffect(SyncBatch(files, tickers[..n], w, fetch), tickers[n], w, fetch, s);
    }
  }

  /**
    With distinct tickers every ticker is synced against the series the store
    held before the batch: afterwards it holds what that sync writes (the
    stored series when nothing is written), and the ticker is among the
    failures exactly when that sync failed.
  */
  lemma {:induction false} SyncBatchAt(files: map<Symbol, seq<Bar>>, tickers: seq<Symbol>, w: Window, fetch: Fetcher, k: int)
    requires AllSorted(files) && NoDuplicates(tickers) && 0 <= k < |tickers|
    ensures var st := SyncBatch(files, tickers, w, fetch);
            var t := tickers[k];
            var out := Sync(StoredIn(files, t), t, w.start, w.end, fetch);
            && StoredIn(st.files, t) == SeriesAfter(StoredIn(files, t), out)
            && (t in st.failures <==> !out.ok)
  {
    var n := |tickers| - 1;
    if k == n {
      SyncBatchAtLast(files, tickers, w, fetch);
    } else {
      NoDuplicatesPrefix(tickers);
      SyncBatchAt(files, tickers[..n], w, fetch, k);
      SyncBatchAtEarlier(files, tickers, w, fetch, k);
    }
  }

  /** `SyncBatchAt` for the last ticker: the earlier turns left its series alone. */
  lemma SyncBatchAtLast(files: map<Symbol, seq<Bar>>, tickers: seq<Symbol>, w: Window, fetch: Fetcher)
    requires AllSorted(files) && NoDuplicates(tickers) && tickers != []
    ensures var st := SyncBatch(files, tickers, w, fetch);
            var t := tickers[|tickers| - 1];
            var out := Sync(StoredIn(files, t), t, w.start, w.end, fetch);
            && StoredIn(st.files, t) == SeriesAfter(StoredIn(files, t), out)
            && (t in st.failures <==> !out.ok)
  {
    var n := |tickers| - 1;
    var t := tickers[n];
    LastNotInPrefix(tickers);
    var prev := SyncBatch(files, tickers[..n], w, fetch);
    SyncBatchUntouched(files, tickers[..n], w, fetch, t);
    assert StoredIn(prev.files, t) == StoredIn(files, t) && t !in prev.failures;
    SyncStepEffect(prev, t, w, fetch, t);
  }

  /** `SyncBatchAt` for an earlier ticker: the last turn leaves its series and its failure alone. */
  lemma SyncBatchAtEarlier(files: map<Symbol, seq<Bar>>, tickers: seq<Symbol>, w: Window, fetch: Fetcher, k: int)
    requires AllSorted(files) && NoDuplicates(tickers) && 0 <= k < |tickers| - 1
    requires var st := SyncBatch(files, tickers[..|tickers| - 1], w, fetch);
             var t := tickers[k];
             var out := Sync(StoredIn(files, t), t, w.start, w.end, fetch);
             && StoredIn(st.files, t) == SeriesAfter(StoredIn(files, t), out)
             && (t in st.failures <==> !out.ok)
    ensures var st := SyncBatch(files, tickers, w, fetch);
            var t := tickers[k];
            var out := Sync(StoredIn(files, t), t, w.start, w.end, fetch);
            && StoredIn(st.files, t) == SeriesAfter(StoredIn(files, t), out)
            && (t in st.failures <==> !out.ok)
  {
    var n := |tickers| - 1;
    var prev := SyncBatch(files, tickers[..n], w, fetch);
    assert tickers[k] != tickers[n];
    SyncStepEffect(prev, tickers[n], w, fetch, tickers[k]);
  }

  /** The last of distinct values does not occur before it. */
  lemma LastNotInPrefix(xs: seq<string>)
    requires NoDuplicates(xs) && xs != []
    ensures xs[|xs| - 1] !in xs[..|xs| - 1]
  {
    var n := |xs| - 1;
    forall j | 0 <= j < n ensures xs[..n][j] != xs[n] { assert xs[j] != xs[n]; }
  }

  /** A prefix of distinct values holds distinct values. */
  lemma NoDuplicatesPrefix(xs: seq<string>)
    requires NoDuplicates(xs) && xs != []
    ensures NoDuplicates(xs[..|xs| - 1])
  {
    var n := |xs| - 1;
    forall i, j | 0 <= i < j < n ensures xs[..n][i] != xs[..n][j] { assert xs[i] != xs[j]; }
  }

  /** The batch reports no failure exactly when no ticker is among its failures. */
  lemma SyncBatchNoFailures(files: map<Symbol, seq<Bar>>, tickers: seq<Symbol>, w: Window, fetch: Fetcher)
    requires AllSorted(files)
    ensures var st := SyncBatch(files, tickers, w, fetch);
            st.failures == [] <==> forall k :: 0 <= k < |tickers| ==> tickers[k] !in st.failures
  {
    var st := SyncBatch(files, tickers, w, fetch);
    if st.failures != [] {
      var s := st.failures[0];
      SyncBatchFailuresAreTickers(files, tickers, w, fetch, s);
      var k :| 0 <= k < |tickers| && tickers[k] == s;
    }
  }

  /**
    In a batch over distinct tickers a ticker fails exactly when it had no
    stored series and the provider returned nothing for the whole window.
  */
  lemma SyncBatchFailedAt(files: map<Symbol, seq<Bar>>, tickers: seq<Symbol>, w: Window, fetch: Fetcher, k: int)
    requires AllSorted(files) && NoDuplicates(tickers) && 0 <= k < |tickers|
    ensures tickers[k] in SyncBatch(files, tickers, w, fetch).failures
            <==> StoredIn(files, tickers[k]) == [] && fetch(tickers[k], w.start, w.end + 1) == []
  {
    var t := tickers[k];
    var stored := StoredIn(files, t);
    var out := Sync(stored, t, w.start, w.end, fetch);
    assert !out.ok <==> stored == [] && fetch(t, w.start, w.end + 1) == [];
    SyncBatchAt(files, tickers, w, fetch, k);
  }

  /** A batch over distinct tickers succeeds exactly when every ticker has a stored series or receives some bars. */
  lemma SyncBatchSucceeds(files: map<Symbol, seq<Bar>>, tickers: seq<Symbol>, w: Window, fetch: Fetcher)
    requires AllSorted(files) && NoDuplicates(tickers)
    ensures SyncBatch(files, tickers, w, fetch).failures == [] <==>
              forall k :: 0 <= k < |tickers| ==> StoredIn(files, tickers[k]) != [] || fetch(tickers[k], w.start, w.end + 1) != []
  {
    forall k | 0 <= k < |tickers|
      ensures tickers[k] in SyncBatch(files, tickers, w, fetch).failures
              <==> StoredIn(files, tickers[k]) == [] && fetch(tickers[k], w.start, w.end + 1) == []
    {
      SyncBatchFailedAt(files, tickers, w, fetch, k);
    }
    SyncBatchNoFailures(files, tickers, w, fetch);
  }

  /**
    Reference reading of the failure list: the tickers, in order, that had
    no stored series and for which the provider returned nothing over the
    whole window.
  */
  function FailedTickers(files: map<Symbol, seq<Bar>>, tickers: seq<Symbol>, w: Window, fetch: Fetcher): (r: seq<Symbol>)
    requires AllSorted(files)
    ensures |r| <= |tickers|
  {
    if tickers == [] then []
    else
      var n := |tickers| - 1;
      FailedTickers(files, tickers[..n], w, fetch) + (if FailsAlone(files, tickers[n], w, fetch) then [tickers[n]] else [])
  }

  /** The ticker has no stored series and the provider returns nothing for the whole window. */
  predicate FailsAlone(files: map<Symbol, seq<Bar>>, t: Symbol, w: Window, fetch: Fetcher)
    requires AllSorted(files)
  {
    StoredIn(files, t) == [] && fetch(t, w.start, w.end + 1) == []
  }

  /**
    With distinct tickers the batch's failure list is exactly the tickers
    that fail on their own against the store before the batch, in ticker
    order.
  */
  lemma {:induction false} SyncBatchFailuresInOrder(files: map<Symbol, seq<Bar>>, tickers: seq<Symbol>, w: Window, fetch: Fetcher)
    requires AllSorted(files) && NoDuplicates(tickers)
    ensures SyncBatch(files, tickers, w, fetch).failures == FailedTickers(files, tickers, w, fetch)
  {
    if tickers != [] {
      var n := |tickers| - 1;
      NoDuplicatesPrefix(tickers);
      SyncBatchFailuresInOrder(files, tickers[..n], w, fetch);
      FailuresLastTurn(files, tickers, w, fetch);
    }
  }

  /** The last turn of a batch over distinct tickers appends the last ticker exactly when it fails on its own. */
  lemma FailuresLastTurn(files: map<Symbol, seq<Bar>>, tickers: seq<Symbol>, w: Window, fetch: Fetcher)
    requires AllSorted(files) && NoDuplicates(tickers) && tickers != []
    ensures var n := |tickers| - 1;
            var t := tickers[n];
            SyncBatch(files, tickers, w, fetch).failures
              == SyncBatch(files, tickers[..n], w, fetch).failures + (if FailsAlone(files, t, w, fetch) then [t] else [])
  {
    var n := |tickers| - 1;
    var t := tickers[n];
    LastNotInPrefix(tickers);
    var prev := SyncBatch(files, tickers[..n], w, fetch);
    SyncBatchUntouched(files, tickers[..n], w, fetch, t);
    assert SyncBatch(files, tickers, w, fetch) == SyncStep(prev, t, w, fetch);
    TurnAppends(prev, t, w, fetch, files);
  }

  /** A turn appends its symbol to the failures exactly when the symbol has no series and receives nothing. */
  lemma TurnAppends(st: BatchState, symbol: Symbol, w: Window, fetch: Fetcher, files: map<Symbol, seq<Bar>>)
    requires AllSorted(st.files) && AllSorted(files) && StoredIn(st.files, symbol) == StoredIn(files, symbol)
    ensures SyncStep(st, symbol, w, fetch).failures == st.failures + (if FailsAlone(files, symbol, w, fetch) then [symbol] else [])
  {
    var out := Sync(StoredIn(st.files, symbol), symbol, w.start, w.end, fetch);
    SyncStepOf(st, symbol, w, fetch, out.ok, Apply(st.files, symbol, out));
  }

  /** The batch over one more ticker is one more turn of the loop. */
  lemma SyncBatchSnoc(files: map<Symbol, seq<Bar>>, tickers: seq<Symbol>, i: int, w: Window, fetch: Fetcher)
    requires AllSorted(files) && 0 <= i < |tickers|
    ensures SyncBatch(files, tickers[..i + 1], w, fetch) == SyncStep(SyncBatch(files, tickers[..i], w, fetch), tickers[i], w, fetch)
  {
    assert tickers[..i + 1][..i] == tickers[..i];
  }

  /** A turn of the loop is what `_update_symbol` reports and writes for its symbol. */
  lemma SyncStepOf(st: BatchState, symbol: Symbol, w: Window, fetch: Fetcher, ok: bool, files: map<Symbol, seq<Bar>>)
    requires AllSorted(st.files)
    requires var out := Sync(StoredIn(st.files, symbol), symbol, w.start, w.end, fetch);
             ok == out.ok && files == Apply(st.files, symbol, out)
    ensures SyncStep(st, symbol, w, fetch) == BatchState(files, if ok then st.failures else st.failures + [symbol])
  {
  }

  /**
    The loop of `update_current_portfolio_data`: syncs each ticker over the
    window in turn and collects, in order, the tickers whose sync failed.
  */
  method SyncTickers(store: PriceStore, tickers: seq<Symbol>, w: Window, fetch: Fetcher) returns (failures: seq<Symbol>)
    requires store.Valid()
    modifies store
    ensures store.Valid()
    ensures BatchState(store.files, failures) == SyncBatch(old(store.files), tickers, w, fetch)
  {
    failures := [];
    var i := 0;
    while i < |tickers|
      invariant 0 <= i <= |tickers|
      invariant store.Valid()
      invariant SyncBatch(old(store.files), tickers[..i], w, fetch) == BatchState(store.files, failures)
    {
      var symbol := tickers[i];
      SyncBatchSnoc(old(store.files), tickers, i, w, fetch);
      ghost var before := BatchState(store.files, failures);
      var ok, _ := store.UpdateSymbol(symbol, w.start, w.end, fetch);
      SyncStepOf(before, symbol, w, fetch, ok, store.files);
      if !ok {
        failures := failures + [symbol];
      }
      i := i + 1;
    }
    assert tickers[..i] == tickers;
  }

  /**
    `update_current_portfolio_data(years)` on the store, with `today` the UTC
    date: extracts the tickers, computes the window, syncs every ticker and
    raises with the list of failed symbols when there is one; otherwise
    returns the tickers.
  */
  method UpdateCurrentPortfolioData(store: PriceStore, portfolio: Option<Table>, today: Date, years: int, fetch: Fetcher)
    returns (r: Result<seq<Symbol>, UpdateError>)
    requires store.Valid() && ValidDate(today)
    modifies store
    ensures store.Valid()
    ensures ExtractTickers(portfolio).Failure? ==>
              r == Failure(ExtractTickers(portfolio).error) && store.files == old(store.files)
    ensures ExtractTickers(portfolio).Success? && BatchWindow(today, years).Failure? ==>
              r == Failure(BatchWindow(today, years).error) && store.files == old(store.files)
    ensures ExtractTickers(portfolio).Success? && BatchWindow(today, years).Success? ==>
              var tickers := ExtractTickers(portfolio).value;
              var st := SyncBatch(old(store.files), tickers, BatchWindow(today, years).value, fetch);
              var failed := FailedTickers(old(store.files), tickers, BatchWindow(today, years).value, fetch);
              && store.files == st.files
              && r == if failed == [] then Success(tickers) else Failure(UpdateFailed(failed))
  {
    var extracted := ExtractTickers(portfolio);
    if extracted.Failure? {
      return Failure(extracted.error);
    }
    var tickers := extracted.value;
    var window := BatchWindow(today, years);
    if window.Failure? {
      return Failure(window.error);
    }
    var failures := SyncTickers(store, tickers, window.value, fetch);
    SyncBatchFailuresInOrder(old(store.files), tickers, window.value, fetch);
    if failures != [] {
      return Failure(UpdateFailed(failures));
    }
    return Success(tickers);
  }
}
