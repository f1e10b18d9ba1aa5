# StockDataScraper incremental merge, in Dafny

A model of the two scraper scripts of StockDataScraper, `scrape_stock_akshare.py` and
`scrape_stock.py`. Both fetch daily price rows for a list of tickers over a date window and
fold them into one CSV table keyed by (Ticker, Date). The model covers:

- `parse_tickers`: split on commas, strip, upper-case, drop blanks; the default is `["AAPL"]`.
- `date_from_env`: unset or empty gives the default; otherwise `%Y-%m-%d`, then `%Y/%m/%d`;
  otherwise a `ValueError` naming the variable.
- `main`'s window check (`start > end` raises), the per-ticker fetch loop that keeps only
  non-empty frames, the early return when every frame is empty, and the merge.
- `fetch_us_stock` (akshare): the provider's whole history is cut to the closed window
  `[start, end]`, renamed, stamped with the ticker and put in a fixed column order.
- `fetch_one` (yfinance): the provider is asked for `[start, end + 1)`. The frame is
  stamped with the ticker and its date index. The column list is restricted to the columns
  present; "Close" appears twice when "Adj Close" is missing.
- `merge_incremental`, which has three paths:
  - no file: the batch is sorted by (Ticker, Date), and duplicate keys are kept;
  - unreadable file: the batch is returned untouched;
  - stored table: stored rows then batch rows, keep the first row of each key, then sort.

Modules follow the program's structure. `Rows` holds rows, keys, the key order and the
table invariants. `Sorting` holds the stable multi-key `sort_values`. `Dedup` holds
`drop_duplicates` with `keep='first'`. `Merge` holds `merge_incremental`. `Tickers` and
`Dates` hold the configuration parsers. `Pipeline` holds the part of `main` the two scripts
share. `Akshare` and `Yahoo` hold each script's fetch and `main`. `Seqs` and `Wrappers`
are generic helpers.

Dates are day ordinals (`int`): every date in the scripts is a midnight `datetime`, so
comparing datetimes is comparing days. Prices are opaque `real` cells that the scripts
never compare. Python's `str` ordering is modelled as lexicographic order on code points.

### What the merge does with repeated keys

Both scripts' docstrings (line 8 of each) promise a CSV merged automatically and without
duplicates, and `merge_incremental`'s own docstring says it deduplicates and sorts. Only the
stored-table path does both:

- Stored table: stored rows come first and `drop_duplicates` keeps pandas' default
  `keep='first'`, so a stored row wins over a re-fetched row with the same key, whatever
  prices the re-fetch carries (`Merge.StoredRowsSurvive`,
  `Merge.StoredCloseWinsOverRefetchedClose`).
- No stored file: the batch is only sorted. A batch that repeats a key (for instance
  TICKERS="AAPL,AAPL") writes both rows (`Merge.DuplicateInBatchOnlyDroppedWithStoredTable`),
  and running again with the same batch drops the repeat
  (`Merge.RerunAfterFreshDuplicateChangesTable`).
- Unreadable stored file: the batch is written back as given, neither deduplicated nor
  sorted; the next run that reads it sorts it (`Merge.RerunAfterUnreadableSortsTable`).
- `main` never merges an empty batch: when every fetch comes back empty it returns before
  merging and writes nothing (`Pipeline.RunScript`).

## Model

| member | source | states |
|---|---|---|
| Tickers.ParseTickers | scrape_stock_akshare.py:32-36 | Unset or empty gives exactly ["AAPL"]. Otherwise the result is the normalised comma pieces in input order, with blank pieces dropped and every non-blank piece kept as often as it occurs. Every ticker is non-empty, has no whitespace at either end, has no lower-case ASCII letter and no comma. |
| Tickers.ParseJoinRoundTrip | scrape_stock.py:31-35 | Joining any non-empty list of well-formed tickers with commas and parsing it again gives the same list. Every non-empty parsed list is such a list. |
| Tickers.OnlySeparatorsYieldNoTickers | scrape_stock_akshare.py:34-36 | A non-empty value made only of commas and whitespace parses to no ticker at all; it does not fall back to AAPL. |
| Tickers.NormalizeIdempotent | scrape_stock_akshare.py:36 | Normalising a piece (strip, then upper) twice gives the same as doing it once. |
| Tickers.NormalizeTicker | scrape_stock_akshare.py:36 | A well-formed ticker is its own normal form. |
| Tickers.Strip | scrape_stock_akshare.py:36 | `strip()` is the infix of the input between its leading and trailing whitespace (Python's `isspace` set). Its ends are not whitespace, and it is empty exactly when the input is all whitespace. |
| Tickers.StripTrimmed | scrape_stock_akshare.py:36 | A string with no whitespace at either end is unchanged by `strip()`. |
| Tickers.Upper | scrape_stock_akshare.py:36 | `upper()` keeps the length, leaves no lower-case ASCII letter, shifts each lower-case letter to its capital and keeps every other character. |
| Tickers.Normalize | scrape_stock_akshare.py:36 | `t.strip().upper()` is no longer than the piece, has no lower-case ASCII letter and no whitespace at either end, and is empty exactly when the piece is all whitespace. |
| Tickers.JoinSplit | scrape_stock_akshare.py:36 | Splitting on commas loses nothing: joining the pieces with commas rebuilds the input. |
| Tickers.SplitJoin | scrape_stock_akshare.py:36 | Comma-free pieces survive a join followed by a split. |
| Tickers.Split | scrape_stock_akshare.py:36 | `split(",")` gives at least one piece and no piece holds a comma. |
| Tickers.SplitPieceCount | scrape_stock_akshare.py:36 | `split(",")` gives one more piece than the value has commas. |
| Dates.DateFromEnv | scrape_stock_akshare.py:39-49 | Unset or empty gives the default. Otherwise the result is a success exactly when one of the two formats parses: the dash format's day when it parses, the slash format's day when only that one does. A failure names the variable and its text. |
| Pipeline.Window | scrape_stock_akshare.py:118-122 | START is read first: a bad START is reported even when END is bad too, and a bad END only when START is good. The window is accepted exactly when both dates parse and start <= end, and fails with StartAfterEnd exactly when both parse and start > end. With neither variable set and defaults in order, the window is the defaults. |
| Pipeline.FetchAll | scrape_stock_akshare.py:128-129 | The provider is called once per ticker, in ticker order, each time for the same window. |
| Pipeline.CollectNonEmpty | scrape_stock_akshare.py:127-131 | The kept frames are the non-empty fetch results, in ticker order. Skipping the empty ones loses no row. The list is empty exactly when every ticker came back empty. |
| Pipeline.BatchRowsComeFromTickers | scrape_stock_akshare.py:137 | Every row of the concatenated batch was returned by the fetch of one of the requested tickers. |
| Pipeline.RunScript | scrape_stock_akshare.py:110-140 | A run stops with a configuration error exactly when the window fails, and then with the window's error. With a valid window, nothing is written exactly when every ticker's fetch is empty; otherwise the table written is the merge of all fetched rows, in ticker order, into the stored table, and the "new" count is the batch size. |
| Pipeline.FreshTableHoldsOnlyFetchedRows | scrape_stock.py:118-130 | A run that writes without a readable stored table writes only rows that this run fetched for the requested tickers. |
| Akshare.InWindowBars | scrape_stock_akshare.py:62-63 | The filter keeps exactly the bars dated inside the closed window, every copy of each, in provider order. |
| Akshare.Stamp | scrape_stock_akshare.py:70-84 | A stamped row keeps the bar's date, carries the requested ticker, and holds under each of Open, High, Low, Close and Volume the bar's value that the rename puts there. |
| Akshare.FetchUsStock | scrape_stock_akshare.py:52-91 | A raise, None, an empty frame or an empty window gives no rows. Otherwise there is one row per in-window bar, in order, stamped with the requested ticker, under the header Date, Ticker, Open, High, Low, Close, Volume. |
| Akshare.Run | scrape_stock_akshare.py:110-122 | With neither START nor END set, the 30-day default window cannot fail. A write without a readable stored table holds only rows of requested tickers dated inside the window. |
| Yahoo.ProviderEnd | scrape_stock.py:53 | Asking the provider for [start, end + 1) covers exactly the days of the closed window [start, end]. |
| Yahoo.CandidateColumns | scrape_stock.py:73-82 | The candidate header has eight names, from Date and Ticker to Volume, and names Adj Close exactly when the frame has that column. |
| Yahoo.SelectColumns | scrape_stock.py:73-83 | The selected header is the candidate list in order, restricted to present columns. Each present column appears as often as it is a candidate. |
| Yahoo.ColumnsWithoutAdjClose | scrape_stock.py:79-83 | With the usual columns and no "Adj Close", the header is Date, Ticker, Open, High, Low, Close, Close, Volume. |
| Yahoo.ColumnsWithAdjClose | scrape_stock.py:79-83 | With "Adj Close" present, it takes the seventh place, after Close. |
| Yahoo.CloseTwiceWithoutAdjClose | scrape_stock.py:79-80 | Whatever else is missing, a frame with Close and without Adj Close gets the Close column twice. |
| Yahoo.DateAndTickerLead | scrape_stock.py:70-83 | Date and Ticker, which are always set, head the selected header. |
| Yahoo.StampRow | scrape_stock.py:70-84 | A stamped row carries the requested ticker and the bar's date, with one cell per selected column after Date and Ticker, each cell being the bar's value in that column. |
| Yahoo.FetchOne | scrape_stock.py:51-84 | A raise or an empty frame gives no rows. Otherwise the header is the selected columns, and there is one row per downloaded row, in order, each stamped with the requested ticker and its date. |
| Yahoo.Run | scrape_stock.py:102-131 | With neither START nor END set, the 365-day default window cannot fail. A write without a readable stored table holds only rows of requested tickers. |
| Merge.MergeIncremental | scrape_stock_akshare.py:94-107 | No file: the batch sorted, with the same rows and multiplicities. Unreadable file: the batch unchanged. Stored table: sorted, with unique keys and exactly the keys of stored plus batch, each row being the first row of its key in stored-then-batch order. No path invents a row. |
| Merge.AbsentKeepsBatchOrderPerKey | scrape_stock.py:89-90 | Without a file, the rows sharing a key are all written, in batch order. |
| Merge.DuplicateInBatchOnlyDroppedWithStoredTable | scrape_stock.py:89-97 | A key repeated in a batch is written twice without a file, but only its first row is written against a stored table lacking that key. |
| Merge.StoredRowsSurvive | scrape_stock.py:96-97 | Every row of a stored table with unique keys survives a merge, whatever the batch carries for its key. |
| Merge.RefetchOfStoredKeysIsNoOp | scrape_stock.py:96-97 | Merging a batch whose keys are all stored leaves a canonical table unchanged, even when the prices differ. |
| Merge.MergeIdempotent | scrape_stock_akshare.py:105-106 | Against a stored table, merging the same batch again into the result changes nothing. |
| Merge.RerunAfterFreshDuplicateChangesTable | scrape_stock_akshare.py:96-97 | Across runs the no-file path is not idempotent: when a batch repeats a key, merging it again into the table the no-file run wrote gives a different table. |
| Merge.RerunAfterUnreadableSortsTable | scrape_stock_akshare.py:99-103 | Nor is the unreadable-file path: an unsorted batch written back as given changes when the next run merges it again. |
| Merge.StoredCloseWinsOverRefetchedClose | scrape_stock_akshare.py:105-106 | A stored (MSFT, day 19724) row with close 100 is kept over a re-fetched row for the same key with close 105. |
| Sorting.SortByKey | scrape_stock_akshare.py:106 | The sort output is ordered by (Ticker, Date) and is a permutation of its input. |
| Sorting.SortStable | scrape_stock_akshare.py:97 | The sort is stable: the rows sharing a key keep their relative order. |
| Sorting.SortSortedIsIdentity | scrape_stock_akshare.py:106 | Sorting an already sorted table leaves it exactly as it was. |
| Sorting.SortKeepsKeys | scrape_stock_akshare.py:106 | Sorting keeps the key set, and keeps keys unique when they were. |
| Dedup.DropDuplicateKeys | scrape_stock_akshare.py:106 | The result is an ordered subsequence of the input with unique keys and exactly the input's keys. Each kept row is the earliest row of its key, and the kept rows come in the order their keys first occur in the input, even when a kept row recurs later. |
| Dedup.RecurringRowKeepsItsPlace | scrape_stock_akshare.py:106 | When a kept row recurs after a row with another key, as when TICKERS names a ticker twice, `[x, y, x]` keeps `[x, y]`. |
| Dedup.DropDuplicateKeysOfUnique | scrape_stock_akshare.py:106 | A sequence without duplicate keys is returned unchanged. |
| Dedup.FirstWithKeyPrefix | scrape_stock_akshare.py:105-106 | When the stored rows already hold a key, that key's first row in stored-then-batch order is the stored one. |
| Rows.CanonicalIffStrictlyAscending | scrape_stock_akshare.py:106 | A table is sorted with unique keys exactly when its keys strictly ascend. |
| Rows.KeyOrder | scrape_stock_akshare.py:106 | The (Ticker, Date) order is a strict total order. |

## Left out

- Network providers: `ak.stock_us_daily` and `yf.download` are function parameters. Each
  returns a raise, nothing, or a frame. Retries, rate limits and yfinance's MultiIndex
  columns are not modelled.
- File system and CSV: `os.path.exists`, `pd.read_csv` and `to_csv` are reduced to the
  `Stored` value the merge observes: no file, an unreadable file, or its rows. Parsing CSV
  text and writing it back are not modelled.
- Headers of the merged table: when the frames' headers differ and every header has
  distinct names, `pd.concat` takes their union and fills gaps with NaN. A merged row keeps
  only its own cells, and the written header is not modelled.
- Pipeline.RunScript: models a write wherever the yfinance script may instead stop on a
  `pd.concat` error. A frame fetched without "Adj Close" carries two columns named "Close",
  and pandas raises when it has to reindex such a frame against a wider header: a batch
  mixing tickers with and without "Adj Close" fails at the concat in `main`
  (scrape_stock.py:128).
- Merge.MergeIncremental: models a merge wherever the yfinance script may instead stop on
  the same error. A stored CSV written from such a frame is read back with its second
  "Close" renamed "Close.1", so a later batch with two "Close" columns fails at the concat
  in `merge_incremental` (scrape_stock.py:96), outside its `try`. Column names are not part
  of a row, so the model cannot tell these cases apart.
- Headers of empty frames: an empty result is `Frame([], [])`. The scripts may return an
  empty frame that still has columns; `main` discards it either way.
- A provider frame without the expected columns: pandas raises `KeyError` inside the
  akshare fetch's `try`. It is modelled as the provider raising.
- The clock: `datetime.utcnow()` becomes the `today` parameter of each `Run`.
- Time zones: `tz_localize(None)` on yfinance's date index is not modelled. A downloaded
  row already carries its day ordinal.
- Date parsing: `datetime.strptime` becomes a parameter that accepts or rejects a string
  in a format. The overflow of `end + 1 day` at the last representable date is not modelled.
- Floating point: prices are `real`, and NaN is not modelled.
- Tickers.Upper: only ASCII letters are upper-cased. Python's `str.upper` also maps
  non-ASCII letters (and expands some, such as "ß" to "SS"). That mapping is not modelled.
- Logging and the summary message are not modelled, except for the "new" count, which is
  part of `Pipeline.RunScript`.
