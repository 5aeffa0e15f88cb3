# EquiViz backend core in Dafny

This project models the Python backend of EquiViz, a small equity-portfolio tool, and proves properties of that model. It covers four parts of the backend:

- **Range store and incremental sync** (`backend/getStonks.py`). The store keeps one price series per ticker symbol. `_update_symbol` fetches only the ranges the store is missing for a target window:
  - the whole window when nothing is stored;
  - a "prepend" range before the earliest stored day;
  - an "append" range after the latest stored day.

  It then merges the fetched bars into the stored series: sort by date, drop duplicate dates, keep the later bar. `update_current_portfolio_data` runs this for every ticker of the current portfolio over a common window. The window runs from January 1 of `years` years ago to today. The batch collects the symbols that failed. `_extract_tickers` normalises the portfolio's Asset column into those tickers.
- **Input validators** (`backend/createPort.py` and `backend/postPort.py`). `validate_portfolio_input` is an ordered chain of checks on a submitted form. It returns `(is_valid, message)`. postPort's version also asks the market-data provider whether the ticker exists.
- **File names and the save guard** (`backend/postPort.py`). `_slugify_name` turns a portfolio name into a file name. `save_portfolio` rejects a name whose slug is empty.
- **Value aggregation** (`backend/portAnal.py`). `_build_value_df` values every usable row of the portfolio at the ticker's latest price and sums per ticker. `_save_pie` draws nothing for an empty or non-positive total.

How the model represents the system:

- **Days.** A day is its proleptic Gregorian ordinal, the number `date.toordinal()` gives. `timedelta(days=1)` becomes `+ 1`. Module `Calendar` computes ordinals and proves that they order dates chronologically.
- **The store.** The stored CSV files are the field `files: map<Symbol, seq<Bar>>` of the class `RangeSync.PriceStore`. Its invariant `Valid()` says every stored series is strictly increasing by date.
- **Outside calls become parameters.** The provider `_fetch`, `_latest_price`, the market lookup, `int()`, `strptime`, `datetime.utcnow()` and `datetime.now()` are all passed in as parameters.

Two modelling choices are visible in the contracts:

- **The merge is a stable sort.** The merge is a fold that inserts each bar in date order and replaces any bar of the same date. This equals a *stable* sort followed by `drop_duplicates(keep="last")`, so a fetched bar always wins over a stored bar of the same date. pandas' default `sort_values` is not stable. The model assumes the stable order, which is what "keep last" is meant to achieve.
- **Gaps can lie outside the target window.** The code does not clamp the prepend and append ranges. When the target window starts after the latest stored day, the append range still starts at the day after the latest stored day. When the window ends before the earliest stored day, the prepend range still runs up to that earliest day. `RangeSync.Gaps` states this: every gap day lies in the window or between the window and the stored range, and never inside the stored range.

## Model

| member | source | states |
|---|---|---|
| PriceSeries.Lookup | backend/getStonks.py:86 | the bar a series holds for a date is one of its bars with that date, and there is none exactly when no bar has that date |
| PriceSeries.UpsertKeeps | backend/getStonks.py:86 | inserting a bar adds at most one bar: the result holds the new bar, and every other bar in it was already in the series |
| PriceSeries.LookupAppend | backend/getStonks.py:83-86 | in a concatenation of frames, the later frame's bar for a date wins over the earlier frame's |
| PriceSeries.UpsertSpec | backend/getStonks.py:86 | inserting a bar keeps the series strictly sorted by date; the bar replaces the one of its date and every other date is unchanged |
| PriceSeries.NormalizeSpec | backend/getStonks.py:86 | sort plus drop_duplicates(keep="last") gives a strictly sorted series that holds, for each date, the last input bar of that date |
| PriceSeries.NormalizeKeeps | backend/getStonks.py:86 | sorting and deduplicating never lengthens the series, keeps only input bars, and always keeps the last input bar |
| PriceSeries.SortedDeterminedByLookup | backend/getStonks.py:86 | two strictly sorted series holding the same bar for every date are equal, so the sorted, deduplicated result is unique |
| PriceSeries.MergeSpec | backend/getStonks.py:83-88 | the merged series is strictly sorted, its dates are the union of the stored and fetched dates, a fetched bar wins on its date and a stored bar is kept elsewhere |
| PriceSeries.Merge | backend/getStonks.py:83-86 | every merged bar is a stored or a fetched bar, and the last fetched bar is always in the result |
| PriceSeries.NormalizeSorted | backend/getStonks.py:32 | sorting and deduplicating a series that is already strictly sorted leaves it unchanged |
| PriceSeries.MergeIdempotent | backend/getStonks.py:83-86 | merging the same fetched bars into an already merged series changes nothing |
| PriceSeries.MergeKeepsUnfetched | backend/getStonks.py:83-86 | a stored bar whose date was not fetched survives the merge |
| Calendar.OrdinalOrder | backend/getStonks.py:64 | comparing dates chronologically is comparing their ordinals, and equal ordinals mean equal dates |
| Calendar.NewYearNotAfter | backend/getStonks.py:119-120 | January 1 of a year no later than a date's year is not after that date |
| Calendar.Ordinal | backend/getStonks.py:61-64 | every ordinal is at least 1, and 1 only for 0001-01-01, the first day `date` allows |
| Calendar.OrdinalWithinYear | backend/getStonks.py:61-62 | a date's ordinal lies after the ordinals of all earlier years and within its own year's |
| Calendar.NextDayOrdinal | backend/getStonks.py:53-71 | every date except 9999-12-31 has a next calendar day, which is valid, comes after it and has the next ordinal, so `+ timedelta(days=1)` is `+ 1` on ordinals. Only 9999-12-31 has no next day |
| RangeSync.Earliest | backend/getStonks.py:61 | the earliest stored day is a stored day and no stored bar is earlier |
| RangeSync.Latest | backend/getStonks.py:62 | the latest stored day is a stored day and no stored bar is later |
| RangeSync.Gaps | backend/getStonks.py:53-74 | with nothing stored, the one range is the whole window. Otherwise there is a prepend range [start, earliest) iff start < earliest, and an append range [latest+1, end+1) iff end > latest. No gap day is in the stored range. The gaps are disjoint. Every window day outside the stored range is in some gap |
| RangeSync.FetchAllEmpty | backend/getStonks.py:64-74 | the fetched bars are empty exactly when every requested range came back empty |
| RangeSync.Sync | backend/getStonks.py:42-89 | a sync fails iff nothing is stored and the provider returns nothing for the whole window, and a failed sync writes nothing. A stored range that already covers the window gives success with no write |
| RangeSync.FetchAroundStored | backend/getStonks.py:60-74 | with a stored series, exactly the gap ranges are requested, in order. The frames are the stored series followed by the fetched bars, and there is only one frame iff nothing came back |
| RangeSync.FetchSpan | backend/getStonks.py:64-74 | one request records its range and adds its answer to the bars received; the frames still concatenate to the stored series plus the bars received, and are a single frame exactly when no bars were received |
| RangeSync.SyncWritesIffFetched | backend/getStonks.py:64-78 | the series is written iff some gap fetch returned bars. With a stored series and nothing fetched, the result is success with the store unchanged |
| RangeSync.SyncWrites | backend/getStonks.py:83-88 | a written series is non-empty and strictly sorted. Its dates are the stored plus fetched dates, and fetched bars win |
| RangeSync.SyncWriteIdempotent | backend/getStonks.py:83-86 | merging the fetched bars once more into the written series changes nothing |
| RangeSync.StoredIn | backend/getStonks.py:25-35 | reading a symbol gives a strictly sorted series, empty when the symbol has no file |
| RangeSync.PriceStore.Stored | backend/getStonks.py:25-35 | the series read back for a symbol is strictly sorted |
| RangeSync.PriceStore.constructor | backend/getStonks.py:25-35 | a store built from strictly sorted series is valid and holds exactly those series |
| RangeSync.PriceStore.UpdateSymbol | backend/getStonks.py:42-89 | keeps every series strictly sorted. Requests exactly the gap ranges, in order. Reports the outcome of Sync on the old series and writes exactly what Sync writes, for that symbol only |
| Scenarios.MarchStoredFirstHalfRequested | backend/getStonks.py:61-74 | with 2021-03-01..2021-03-31 stored and 2021-01-01..2021-06-30 targeted, exactly two ranges are fetched: [2021-01-01, 2021-03-01) and [2021-04-01, 2021-07-01) |
| Text.Trim | backend/postPort.py:66 | the result is a slice `s[i..j]` with only stripped characters before `i` and from `j` on, and neither end of it is a stripped character. A string that needs no stripping is unchanged |
| Text.TrimEmptyIffAll | backend/postPort.py:66 | stripping leaves nothing exactly when every character is one of those stripped |
| Text.Strip | backend/createPort.py:14 | `strip()` returns a slice of the string with only whitespace cut from either side and no whitespace left at either end |
| Text.StripEmptyIffAllSpace | backend/createPort.py:14 | `name.strip()` is empty exactly when the name is whitespace only, which is how a blank name is tested |
| Text.UpperKeepsSpace | backend/getStonks.py:104 | upper-casing leaves no lower-case ASCII letter and changes no character's whitespace status |
| Text.Upper | backend/getStonks.py:104 | upper-casing keeps the length, turns each lower-case ASCII letter into the same letter in upper case, and leaves every other character unchanged |
| Text.UpperIgnoresCase | backend/getStonks.py:104 | two strings that differ only in ASCII letter case upper-case to the same string |
| Text.UpperIdempotent | backend/getStonks.py:104 | upper-casing twice is upper-casing once |
| Portfolio.NormalizeTicker | backend/getStonks.py:102-104 | a normalised ticker has no whitespace at either end and no lower-case ASCII letter |
| Portfolio.NormalizeTickerIdempotent | backend/getStonks.py:103-104 | a stripped, upper-cased ticker is already in normal form |
| PortfolioUpdate.PresentRows | backend/getStonks.py:100-101 | `dropna()` keeps the rows whose Asset cell is present, every one of them, in file order |
| PortfolioUpdate.PresentAssets | backend/getStonks.py:100-102 | the k-th present Asset value is the cell of the k-th present row in file order, and the values are exactly those some row's Asset cell holds |
| PortfolioUpdate.NormalizeAll | backend/getStonks.py:103-104 | one value per cell, each already in normal form (normalising it again changes nothing) and with no whitespace at either end |
| PortfolioUpdate.Unique | backend/getStonks.py:105 | unique() keeps every value and only those values, without duplicates |
| PortfolioUpdate.UniqueFirstSeenOrder | backend/getStonks.py:105 | unique() lists values in the order of their first occurrence |
| PortfolioUpdate.DropEmpty | backend/getStonks.py:108 | dropping empty strings keeps exactly the non-empty values and keeps them distinct |
| PortfolioUpdate.DropEmptyKeepsOrder | backend/getStonks.py:108 | dropping empty strings keeps the relative order of the rest |
| PortfolioUpdate.ExtractTickers | backend/getStonks.py:92-111 | no portfolio and no Asset column are the corresponding errors. With an Asset column the result is either the tickers or "No tickers found", and it is the tickers exactly when some present Asset cell normalises to a non-empty string. A successful result is non-empty, duplicate-free and has no empty ticker |
| PortfolioUpdate.NormalizedAssetsMembers | backend/getStonks.py:99-104 | a value is a normalised Asset value exactly when some present Asset cell normalises to it |
| PortfolioUpdate.ExtractTickersMembers | backend/getStonks.py:99-110 | the tickers are exactly the non-empty normalisations of the present Asset cells, each already stripped and upper-cased |
| PortfolioUpdate.TickersFollowNormalized | backend/getStonks.py:103-108 | the tickers are listed in the order of their first occurrence among the normalised Asset values |
| PortfolioUpdate.ExtractTickersOrder | backend/getStonks.py:99-110 | the tickers follow the file's rows: for any ticker listed before another, some row giving the earlier ticker comes before every row giving the later one |
| PortfolioUpdate.BatchWindow | backend/getStonks.py:116-119 | the window runs from January 1 of (year − years) to today. It is the ValueError of date() exactly when that year is outside 1..9999, and with years ≥ 0 it is not empty |
| PortfolioUpdate.SyncStep | backend/getStonks.py:123-126 | one turn of the loop keeps every stored series strictly sorted |
| PortfolioUpdate.SyncStepEffect | backend/getStonks.py:123-126 | one turn changes only the synced symbol. It becomes what its sync writes, and it joins the failures iff its sync fails |
| PortfolioUpdate.SyncBatch | backend/getStonks.py:122-126 | the batch keeps every stored series strictly sorted |
| PortfolioUpdate.SyncBatchFailuresAreTickers | backend/getStonks.py:122-126 | only tickers of the batch are recorded as failures |
| PortfolioUpdate.SyncBatchUntouched | backend/getStonks.py:122-126 | symbols outside the batch keep their files and are not failures |
| PortfolioUpdate.SyncBatchAt | backend/getStonks.py:122-126 | with distinct tickers, each ticker ends with what its own sync against the pre-batch store writes, and is a failure exactly when that sync fails |
| PortfolioUpdate.SyncBatchNoFailures | backend/getStonks.py:128-130 | the failure list is empty exactly when no ticker is in it |
| PortfolioUpdate.SyncBatchFailedAt | backend/getStonks.py:122-126 | a ticker fails exactly when it had no stored series and the provider returned nothing for the whole window |
| PortfolioUpdate.SyncBatchSucceeds | backend/getStonks.py:122-130 | the batch succeeds exactly when every ticker has a stored series or receives some bars |
| PortfolioUpdate.FailedTickers | backend/getStonks.py:121-125 | reference list of failures: the tickers, in order, with no stored series and no bars from the provider for the window; never longer than the tickers |
| PortfolioUpdate.SyncBatchFailuresInOrder | backend/getStonks.py:121-125 | with distinct tickers the batch's failure list is exactly that reference list, in ticker order |
| PortfolioUpdate.SyncTickers | backend/getStonks.py:122-126 | the loop leaves the store and the failure list exactly as the batch fold does, keeping every series strictly sorted |
| PortfolioUpdate.UpdateCurrentPortfolioData | backend/getStonks.py:114-130 | extraction and window errors escape with the store untouched. Otherwise the store is the batch's result, and the outcome is the tickers when no ticker failed, or else the error listing exactly the tickers with no stored series and no bars for the window, in ticker order |
| Form.RunGuardsAccepts | backend/createPort.py:13-41 | a check chain accepts exactly when every check passes, and a valid result always carries the success message |
| Form.RunGuardsFirst | backend/createPort.py:13-41 | the first check that does not pass decides the outcome |
| Form.RunGuardsSkip | backend/createPort.py:13-41 | checks that pass do not affect the outcome of the checks after them |
| Form.RunGuardsFirstOfHead | backend/createPort.py:13-22 | a failing name or ticker check decides the outcome before the quantity and date are looked at |
| Form.RunGuardsAppendAccepts | backend/createPort.py:13-41 | a two-part chain accepts exactly when the first part all passes and the second part accepts |
| Form.QuantityAndDate | backend/createPort.py:24-41 | the quantity and date checks behave as the chain: quantity present (else TypeError), parsable, positive; then date present (else TypeError), parsable, not in the future |
| Form.QuantityAndDateAccepts | backend/createPort.py:24-41 | these checks accept exactly a quantity parsing to a positive int with a date that parses and is not after today |
| CreatePort.ValidatePortfolioInput | backend/createPort.py:3-41 | the validator raises only TypeError, only for a missing quantity or date, and only once the name and ticker checks have passed. A valid result is always the success pair |
| CreatePort.ValidateFollowsGuards | backend/createPort.py:3-41 | the validator's outcome is the first failing check's, in the order name, ticker letters, ticker length, quantity, date |
| CreatePort.HeadPasses | backend/createPort.py:13-22 | the name and ticker checks all pass iff the name is not blank and the ticker is present, letters only and at most 5 long |
| CreatePort.ValidateAccepts | backend/createPort.py:13-41 | accepted iff the name is not blank, the ticker is letters only and at most 5 long, the quantity is a positive int and the date parses and is not after today. Any valid result is the success pair |
| CreatePort.ValidateFirstFailure | backend/createPort.py:13-41 | whatever the later fields hold, the first failing check's message or exception is the result |
| PostPort.ValidatePortfolioInput | backend/postPort.py:9-62 | the validator raises only TypeError, only for a missing quantity or date, and only once the name and ticker checks have passed and the market reported rows for the ticker. A valid result is always the success pair |
| PostPort.ValidateFollowsGuards | backend/postPort.py:9-62 | the validator's outcome is the first failing check's, in the order name, ticker present, ticker length ≤ 8, market history, quantity, date |
| PostPort.HeadPasses | backend/postPort.py:19-43 | the name and ticker checks all pass iff the name is not blank, the ticker is non-empty and at most 8 long, and the market reports some rows for it |
| PostPort.ValidateAccepts | backend/postPort.py:19-62 | accepted iff the name is not blank, the ticker is non-empty, at most 8 long and has market rows, the quantity is a positive int and the date is valid and not in the future |
| PostPort.ValidateFirstFailure | backend/postPort.py:19-62 | the market is consulted only after the ticker checks, and a market miss or error rejects before quantity and date |
| PostPort.ReplaceRuns | backend/postPort.py:66 | the substitution's output holds only characters of [A-Za-z0-9._-] |
| PostPort.TrimmedSlug | backend/postPort.py:66 | stripping `_` from a string of allowed characters leaves allowed characters and no `_` at either end |
| PostPort.Slugify | backend/postPort.py:65-67 | a slug holds only characters of [A-Za-z0-9._-] and neither starts nor ends with `_` |
| PostPort.ReplaceRunsIdentity | backend/postPort.py:66 | a string of allowed characters is not changed by the substitution |
| PostPort.ReplaceRunsSplit | backend/postPort.py:66 | each maximal run of disallowed characters becomes exactly one `_` |
| PostPort.ReplaceRunsKeeps | backend/postPort.py:66 | a character other than `_` appears after the substitution exactly when the input has it and it is allowed |
| PostPort.SlugifyIdentity | backend/postPort.py:65-67 | a name of allowed characters that does not start or end with `_` is its own slug |
| PostPort.SlugifyIdempotent | backend/postPort.py:65-67 | slugifying a slug changes nothing |
| PostPort.TrimUnderscoresEmpty | backend/postPort.py:66 | strip('_') leaves nothing exactly when the string is all underscores |
| PostPort.SlugifyEmpty | backend/postPort.py:65-67 | a slug is empty exactly when the name holds no letter, digit, `.` or `-` |
| PostPort.StrippedName | backend/postPort.py:82 | a missing name becomes "", and the stripped name has no whitespace at either end |
| PostPort.SavePortfolio | backend/postPort.py:78-105 | on success the file name is slug + ".csv": over 4 characters, only allowed characters, not starting with `_`, with no saved file of that name. The empty-slug ValueError occurs exactly when the quantity converts and the slug is empty |
| PostPort.CsvFileName | backend/postPort.py:105 | appending ".csv" to a slug keeps it within the allowed characters |
| PostPort.SavePortfolioRejectsName | backend/postPort.py:82-90 | saving raises "Invalid current_portfolio name." exactly when the quantity converts and the stripped name has no letter, digit, `.` or `-` |
| PortAnal.RowEntry | backend/portAnal.py:50-59 | a kept row's entry carries the row's converted quantity and the latest price of its ticker |
| PortAnal.RowEntrySpec | backend/portAnal.py:50-59 | a row is kept iff its quantity is an int and its normalised ticker has a price. It contributes that ticker, the quantity, the price and price × quantity |
| PortAnal.CollectSpec | backend/portAnal.py:48-59 | the loop's list holds exactly the entries of the rows it keeps, and is no longer than the rows |
| PortAnal.KeptEntries | backend/portAnal.py:48-59 | the loop keeps at most one entry per row, and every kept entry's price is its ticker's latest price |
| PortAnal.KeptEntriesSpec | backend/portAnal.py:48-59 | the kept entries are exactly the entries of the non-skipped rows |
| PortAnal.KeptEntriesStep | backend/portAnal.py:49-59 | one more row adds its entry, if any, at the end of the list |
| PortAnal.AddEntrySorted | backend/portAnal.py:65 | adding an entry keeps the groups ordered by ticker and adds its ticker to the tickers held |
| PortAnal.AddEntrySums | backend/portAnal.py:65 | adding an entry adds its quantity and value to its own ticker only, and its value to the total |
| PortAnal.GroupByAssetSums | backend/portAnal.py:64-65 | the groups are ordered, hold exactly the entries' tickers, and per ticker hold the summed quantity and value. The total is the sum of all entries' values |
| PortAnal.HeldOfSorted | backend/portAnal.py:65 | in ordered groups, each ticker's sums are its own group's |
| PortAnal.NotHeldAfter | backend/portAnal.py:65 | nothing is held of a ticker ordered before all groups |
| PortAnal.GroupByAsset | backend/portAnal.py:64-65 | grouping gives at most one group per entry, and at least one group when there are entries |
| PortAnal.GroupByAssetSpec | backend/portAnal.py:64-66 | one group per distinct ticker, in ticker order. Each group's quantity and value are the sums over its ticker's entries, and the total is the sum of the entry values |
| PortAnal.GroupByAssetEmpty | backend/portAnal.py:61-62 | grouping yields nothing exactly when there are no entries |
| PortAnal.BuildValueTable | backend/portAnal.py:43-66 | a portfolio with no rows or missing Asset or Quantity gives an empty table. Otherwise the result is the kept entries grouped by ticker |
| PortAnal.SavePie | backend/portAnal.py:69-71 | no chart exactly when the table is empty or its total value is ≤ 0 |
| PortAnal.RunPortfolioAnalysis | backend/portAnal.py:85-91 | a chart is produced exactly when the portfolio is usable, some row is kept and the kept values total more than 0 |

## Left out

- CSV reading and writing are not modelled. This covers `pd.read_csv`, `to_csv` with `float_format`, `mkdir`, paths and `_clear_portfolio_dir`, as well as the header and row append at the end of `save_portfolio`. The store is a map from symbol to series. The current portfolio is a `Table` value. In `portAnal` an absent or unreadable file is an empty table. In `getStonks` an absent file is `None` (the FileNotFoundError of `_extract_tickers`). A file that `pd.read_csv` cannot parse raises its own exception there, such as EmptyDataError, which the code does not catch; that case is not modelled.
- `_read_existing` treats an unreadable file as absent, and the model takes it as absent too. A file without a Date column makes `read_csv(parse_dates=["Date"])` raise, which `_read_existing` also turns into an empty frame, so it is absent as well. A Date column whose values do not parse as dates is not modelled: `.date()` then raises AttributeError in `_update_symbol`, and nothing catches it.
- RangeSync.PriceStore.Valid assumes the stored series are strictly sorted by date. `_read_existing` sorts, but a hand-edited file with duplicate dates is not represented.
- PriceSeries.Normalize assumes a stable sort. pandas' default sort is not stable, so with duplicate dates the bar pandas keeps may differ from the later one.
- `_normalize_df` column flattening and column selection are not modelled. A fetched frame is the sequence of bars the provider returns.
- Exceptions raised by the provider `_fetch` are not modelled. The code does not catch them, and the model's provider is a total function.
- The `if not frames: return False` branch of `_update_symbol` is unreachable: when the fetch result is non-empty, `frames` is non-empty. It is left out.
- RangeSync.Gaps: adding one day to `date.max` raises OverflowError in Python. The model's `+ 1` on ordinals does not overflow.
- PortfolioUpdate.UpdateCurrentPortfolioData reports failures as the list of symbols. The text "Failed to update data for: ..." with its comma join is not reproduced.
- Text.Upper maps only ASCII letters, whereas Python's `str.upper()` also maps other Unicode letters.
- CreatePort.ValidatePortfolioInput checks `isalpha` on ASCII letters only, whereas Python accepts any Unicode letter.
- Form.QuantityAndDate: `int()` and `strptime` are parameters. The model does not reimplement Python's integer-literal and `%Y-%m-%d` grammars.
- Form fields are optional strings. A JSON field of another type is not modelled, such as a number for `quantity` or a non-string `name`, which raises AttributeError at `.strip()`.
- PostPort.ValidatePortfolioInput: the yfinance lookup is a parameter that reports the row count or the exception text.
- PortAnal.RowEntrySpec: prices and values are exact reals, not floats. `int(row["Quantity"])` is applied before the model sees the row; the row holds its result or `None`.
- `_latest_price`'s file access is a parameter.
- PortAnal.SavePie: the matplotlib drawing and the PNG write are not modelled. The result is the output path.
- The web layer (`app.py`), the Streamlit UI (`EquiViz.py`), `Stock_Analysis.py` and the frontend are not part of this model.
