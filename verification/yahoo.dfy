/**
 * The yfinance script: `fetch_one` over `yf.download`, and its `main`. The provider is
 * asked for the window itself, with an exclusive upper bound, and its rows are not
 * filtered again.
 */
module Yahoo {
  import opened Wrappers
  import opened Rows
  import opened Seqs
  import opened Tickers
  import opened Dates
  import opened Merge
  import opened Pipeline

  /** One row of a downloaded frame: its index date and a value for every column. */
  datatype Bar = Bar(date: Day, cells: string -> real)

  /** `yf.download(...)`: raises, or returns a frame with a set of columns and its rows. */
  datatype Download = Raised | Downloaded(columns: set<string>, bars: seq<Bar>)

  /** How many days before today the default window starts. */
  const DefaultWindowDays: nat := 365

  /**
   * `end + timedelta(days=1)`: the provider's end is exclusive, so the caller's inclusive
   * window `[start, end]` is the provider's `[start, end + 1)`.
   */
  function ProviderEnd(end: Day): (e: Day)
    ensures forall start: Day, d: Day :: InWindow(d, start, end) <==> start <= d < e
  {
    end + 1
  }

  /**
   * The header `fetch_one` asks for, before dropping the columns the frame lacks: eight
   * names from Date and Ticker to Volume, naming Adj Close exactly when the frame has it.
   */
  function CandidateColumns(present: set<string>): (cols: seq<string>)
    ensures |cols| == 8 && cols[0] == "Date" && cols[1] == "Ticker" && cols[7] == "Volume"
    ensures "Adj Close" in cols <==> "Adj Close" in present
  {
    ["Date", "Ticker", "Open", "High", "Low", "Close",
     if "Adj Close" in present then "Adj Close" else "Close",
     "Volume"]
  }

  /**
   * `[c for c in cols if c in df.columns]`: the candidate header, in order, restricted to
   * the columns the frame has, each kept as often as it is a candidate.
   */
  function SelectColumns(present: set<string>): (cols: seq<string>)
    ensures IsSubsequence(cols, CandidateColumns(present))
    ensures forall c | c in cols :: c in present
    ensures forall c | c in present :: multiset(cols)[c] == multiset(CandidateColumns(present))[c]
  {
    Filter((c: string) => c in present, CandidateColumns(present))
  }

  /** The columns yfinance returns besides Adj Close, plus the two `fetch_one` sets. */
  const BaseColumns: set<string> := {"Date", "Ticker", "Open", "High", "Low", "Close", "Volume"}

  /** Without an "Adj Close" column, "Close" is selected twice. */
  lemma ColumnsWithoutAdjClose(present: set<string>)
    requires BaseColumns <= present && "Adj Close" !in present
    ensures SelectColumns(present) == ["Date", "Ticker", "Open", "High", "Low", "Close", "Close", "Volume"]
  {
    var p := (c: string) => c in present;
    var cands := CandidateColumns(present);
    FilterAll(p, cands);
  }

  /** With an "Adj Close" column it takes the seventh place, after "Close". */
  lemma ColumnsWithAdjClose(present: set<string>)
    requires BaseColumns <= present && "Adj Close" in present
    ensures SelectColumns(present) == ["Date", "Ticker", "Open", "High", "Low", "Close", "Adj Close", "Volume"]
  {
    var p := (c: string) => c in present;
    var cands := CandidateColumns(present);
    assert cands == ["Date", "Ticker", "Open", "High", "Low", "Close", "Adj Close", "Volume"];
    assert forall c | c in cands :: p(c);
    FilterAll(p, cands);
  }

  /** Whatever else is missing, a frame with Close and without Adj Close gets Close twice. */
  lemma CloseTwiceWithoutAdjClose(present: set<string>)
    requires "Close" in present && "Adj Close" !in present
    ensures multiset(SelectColumns(present))["Close"] == 2
  {
    var cands := CandidateColumns(present);
    assert cands == ["Date", "Ticker", "Open", "High", "Low", "Close", "Close", "Volume"];
    CountClose();
  }

  lemma CountClose()
    ensures multiset(["Date", "Ticker", "Open", "High", "Low", "Close", "Close", "Volume"])["Close"] == 2
  {
  }

  /** Date and Ticker, which `fetch_one` always sets, head the selected header. */
  lemma DateAndTickerLead(present: set<string>)
    requires "Date" in present && "Ticker" in present
    ensures var cols := SelectColumns(present);
            |cols| >= 2 && cols[0] == "Date" && cols[1] == "Ticker"
  {
    var p := (c: string) => c in present;
    var cands := CandidateColumns(present);
    assert cands[1..][1..] == cands[2..];
    assert Filter(p, cands) == [cands[0]] + Filter(p, cands[1..]);
    assert Filter(p, cands[1..]) == [cands[1]] + Filter(p, cands[2..]);
  }

  /** `df["Ticker"] = ticker` and `df[cols]` for one downloaded row. */
  function StampRow(ticker: string, columns: seq<string>, b: Bar): (r: Row)
    requires |columns| >= 2
    ensures r.ticker == ticker && r.date == b.date && |r.cells| == |columns| - 2
    ensures forall j | 0 <= j < |r.cells| :: r.cells[j] == b.cells(columns[j + 2])
  {
    Row(b.date, ticker, seq(|columns| - 2, j requires 0 <= j < |columns| - 2 => b.cells(columns[j + 2])))
  }

  /**
   * `fetch_one(ticker, start, end)`. The provider is asked for `[start, end + 1)`. A raise
   * or an empty frame gives an empty frame; otherwise one row per downloaded row, in order,
   * stamped with the requested ticker, each cell the row's value in the selected column.
   */
  function FetchOne(ticker: string, start: Day, end: Day,
                    download: (string, Day, Day) -> Download): (f: Frame)
    ensures forall x | x in f.rows :: x.ticker == ticker
    ensures |f.rows| > 0 ==> Shaped(f)
    ensures var response := download(ticker, start, ProviderEnd(end));
            !(response.Downloaded? && |response.bars| > 0 && response.columns != {}) ==> f.rows == []
    ensures var response := download(ticker, start, ProviderEnd(end));
            response.Downloaded? && |response.bars| > 0 && response.columns != {} ==>
              f.columns == SelectColumns(response.columns + {"Date", "Ticker"})
    ensures var response := download(ticker, start, ProviderEnd(end));
            response.Downloaded? && |response.bars| > 0 && response.columns != {} ==>
              && |f.rows| == |response.bars|
              && |f.columns| >= 2
              && forall i | 0 <= i < |f.rows| :: f.rows[i] == StampRow(ticker, f.columns, response.bars[i])
  {
    var response := download(ticker, start, ProviderEnd(end));
    if response.Raised? || |response.bars| == 0 || response.columns == {} then Frame([], [])
    else
      var present := response.columns + {"Date", "Ticker"};
      DateAndTickerLead(present);
      StampFrame(ticker, SelectColumns(present), response.bars)
  }

  /** The selected header over the downloaded rows, each stamped with the ticker. */
  function StampFrame(ticker: string, cols: seq<string>, bars: seq<Bar>): (f: Frame)
    requires |cols| >= 2 && cols[0] == "Date" && cols[1] == "Ticker"
    ensures f.columns == cols && Shaped(f)
    ensures |f.rows| == |bars|
    ensures forall i | 0 <= i < |bars| :: f.rows[i] == StampRow(ticker, f.columns, bars[i])
    ensures forall x | x in f.rows :: x.ticker == ticker
  {
    var rows := seq(|bars|, i requires 0 <= i < |bars| => StampRow(ticker, cols, bars[i]));
    assert forall x | x in rows :: x.ticker == ticker && |x.cells| == |cols| - 2;
    Frame(cols, rows)
  }

  /**
   * `main` of the yfinance script. With neither START nor END set the 365-day default
   * window is valid, so the run cannot fail on configuration; a run that writes without
   * having read a stored table writes only rows of requested tickers. Their dates are
   * whatever the provider returned for the requested window: the script does not check them.
   */
  function Run(env: Env, today: Day, parse: (string, DateFormat) -> Option<Day>,
               download: (string, Day, Day) -> Download, stored: Stored): (o: Outcome)
    ensures env.start.None? && env.end.None? ==> !o.ConfigFailed?
    ensures o.Written? && !stored.Table? ==>
              forall x | x in o.table :: x.ticker in ParseTickers(env.tickers)
  {
    var fetch: Fetch := (t, s, e) => FetchOne(t, s, e, download);
    FreshTableHoldsOnlyFetchedRows(env, today - DefaultWindowDays, today, parse, fetch, stored);
    RunScript(env, today - DefaultWindowDays, today, parse, fetch, stored)
  }
}
