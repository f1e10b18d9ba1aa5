/**
 * The akshare script: `fetch_us_stock` over `ak.stock_us_daily`, and its `main`.
 * The provider returns a ticker's whole daily history; the script cuts the window itself.
 */
module Akshare {
  import opened Wrappers
  import opened Rows
  import opened Seqs
  import opened Tickers
  import opened Dates
  import opened Merge
  import opened Pipeline

  /** One row of `ak.stock_us_daily`, columns date, open, high, low, close, volume. */
  datatype DailyBar = DailyBar(date: Day, open: real, high: real, low: real, close: real, volume: real)

  /** `ak.stock_us_daily(symbol=ticker, adjust="")`: raises, returns None, or returns a frame. */
  datatype DailyResponse = Raised | NoFrame | Bars(bars: seq<DailyBar>)

  /** The column order `fetch_us_stock` selects. */
  const Columns: seq<string> := ["Date", "Ticker", "Open", "High", "Low", "Close", "Volume"]

  /** How many days before today the default window starts. */
  const DefaultWindowDays: nat := 30

  /**
   * `df[(df['date'] >= start) & (df['date'] <= end)]`: exactly the bars dated inside the
   * closed window, every copy of each, in provider order.
   */
  function InWindowBars(bars: seq<DailyBar>, start: Day, end: Day): (kept: seq<DailyBar>)
    ensures IsSubsequence(kept, bars)
    ensures forall b | b in kept :: InWindow(b.date, start, end)
    ensures forall b: DailyBar | InWindow(b.date, start, end) :: multiset(kept)[b] == multiset(bars)[b]
  {
    Filter((b: DailyBar) => InWindow(b.date, start, end), bars)
  }

  /** The value a renamed bar holds under `column`, if the rename produces that column. */
  function Renamed(b: DailyBar, column: string): Option<real>
  {
    match column
    case "Open" => Some(b.open)
    case "High" => Some(b.high)
    case "Low" => Some(b.low)
    case "Close" => Some(b.close)
    case "Volume" => Some(b.volume)
    case _ => None
  }

  /**
   * Rename date/open/high/low/close/volume, set `df['Ticker'] = ticker` and select
   * `Columns`: the row keeps the bar's date, carries the ticker, and holds under each
   * price column of the header the bar's value renamed to it.
   */
  function Stamp(ticker: string, b: DailyBar): (r: Row)
    ensures r.ticker == ticker && r.date == b.date
    ensures |r.cells| == |Columns| - 2
    ensures forall j | 0 <= j < |r.cells| :: Renamed(b, Columns[j + 2]) == Some(r.cells[j])
  {
    Row(b.date, ticker, [b.open, b.high, b.low, b.close, b.volume])
  }

  /**
   * `fetch_us_stock(ticker, start, end)` given what the provider returned for `ticker`.
   * A raise, None, an empty frame or an empty window all give an empty frame; otherwise
   * the in-window bars, in provider order, each stamped with the requested ticker, under
   * the fixed header Date, Ticker, Open, High, Low, Close, Volume.
   */
  function FetchUsStock(ticker: string, start: Day, end: Day, response: DailyResponse): (f: Frame)
    ensures forall x | x in f.rows :: x.ticker == ticker && InWindow(x.date, start, end)
    ensures |f.rows| > 0 ==> f.columns == Columns && Shaped(f)
    ensures !response.Bars? ==> f.rows == []
    ensures response.Bars? ==>
              var kept := InWindowBars(response.bars, start, end);
              && |f.rows| == |kept|
              && forall i | 0 <= i < |kept| :: f.rows[i] == Stamp(ticker, kept[i])
  {
    match response
    case Raised => Frame([], [])
    case NoFrame => Frame([], [])
    case Bars(bars) =>
      if |bars| == 0 then Frame([], [])
      else
        var kept := InWindowBars(bars, start, end);
        if |kept| == 0 then Frame([], [])
        else
          Frame(Columns, StampAll(ticker, kept, start, end))
  }

  /** The kept bars, each stamped; every row keeps its bar's in-window date. */
  function StampAll(ticker: string, kept: seq<DailyBar>, start: Day, end: Day): (rows: seq<Row>)
    requires forall b | b in kept :: InWindow(b.date, start, end)
    ensures |rows| == |kept|
    ensures forall i | 0 <= i < |kept| :: rows[i] == Stamp(ticker, kept[i])
    ensures forall x | x in rows :: x.ticker == ticker && InWindow(x.date, start, end) && |x.cells| == 5
  {
    var rows := seq(|kept|, i requires 0 <= i < |kept| => Stamp(ticker, kept[i]));
    assert forall i | 0 <= i < |kept| :: kept[i] in kept;
    rows
  }

  /**
   * `main` of the akshare script. With neither START nor END set the 30-day default window
   * is valid, so the run cannot fail on configuration; a run that writes without having
   * read a stored table writes only rows of requested tickers dated inside the window.
   */
  function Run(env: Env, today: Day, parse: (string, DateFormat) -> Option<Day>,
               provider: string -> DailyResponse, stored: Stored): (o: Outcome)
    ensures env.start.None? && env.end.None? ==> !o.ConfigFailed?
    ensures o.Written? && !stored.Table? ==>
              && Window(env, today - DefaultWindowDays, today, parse).Success?
              && var (start, end) := Window(env, today - DefaultWindowDays, today, parse).value;
                 forall x | x in o.table :: x.ticker in ParseTickers(env.tickers) && InWindow(x.date, start, end)
  {
    var fetch: Fetch := (t, s, e) => FetchUsStock(t, s, e, provider(t));
    FreshTableHoldsOnlyFetchedRows(env, today - DefaultWindowDays, today, parse, fetch, stored);
    RunScript(env, today - DefaultWindowDays, today, parse, fetch, stored)
  }
}
