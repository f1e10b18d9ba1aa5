/**
 * The body of `main`, shared by both scripts: parse the configuration, reject a window
 * whose start is after its end, fetch each ticker, keep the non-empty frames and, unless
 * there are none, merge them into the stored table.
 */
module Pipeline {
  import opened Wrappers
  import opened Rows
  import opened Seqs
  import opened Tickers
  import opened Dates
  import opened Merge

  /** The environment variables `main` reads. */
  datatype Env = Env(tickers: Option<string>, start: Option<string>, end: Option<string>)

  /**
   * How a run ends: a `ValueError` before any fetch, the all-empty return that writes
   * nothing, or `to_csv` of the merged table together with the count the summary reports.
   */
  datatype Outcome =
    | ConfigFailed(error: ConfigError)
    | NothingFetched
    | Written(table: seq<Row>, reportedNew: nat)

  /** A per-ticker fetch for a closed date window; failures come back as empty frames. */
  type Fetch = (string, Day, Day) -> Frame

  /**
   * START, then END, then the `start > end` check: a bad START is reported even when END
   * is bad too. A window that passes is never empty.
   */
  function Window(env: Env, defaultStart: Day, defaultEnd: Day,
                  parse: (string, DateFormat) -> Option<Day>): (w: Result<(Day, Day), ConfigError>)
    ensures w.Success? ==> w.value.0 <= w.value.1
    ensures w.Success? <==>
              && DateFromEnv("START", env.start, defaultStart, parse).Success?
              && DateFromEnv("END", env.end, defaultEnd, parse).Success?
              && DateFromEnv("START", env.start, defaultStart, parse).value
                 <= DateFromEnv("END", env.end, defaultEnd, parse).value
    ensures w == Failure(StartAfterEnd) <==>
              && DateFromEnv("START", env.start, defaultStart, parse).Success?
              && DateFromEnv("END", env.end, defaultEnd, parse).Success?
              && DateFromEnv("START", env.start, defaultStart, parse).value
                 > DateFromEnv("END", env.end, defaultEnd, parse).value
    ensures env.start.None? && env.end.None? && defaultStart <= defaultEnd ==>
              w == Success((defaultStart, defaultEnd))
    ensures DateFromEnv("START", env.start, defaultStart, parse).Failure? ==>
              w == Failure(DateFromEnv("START", env.start, defaultStart, parse).error)
    ensures DateFromEnv("START", env.start, defaultStart, parse).Success?
            && DateFromEnv("END", env.end, defaultEnd, parse).Failure? ==>
              w == Failure(DateFromEnv("END", env.end, defaultEnd, parse).error)
  {
    match DateFromEnv("START", env.start, defaultStart, parse)
    case Failure(e) => Failure(e)
    case Success(start) =>
      match DateFromEnv("END", env.end, defaultEnd, parse)
      case Failure(e) => Failure(e)
      case Success(end) =>
        if start > end then Failure(StartAfterEnd) else Success((start, end))
  }

  /** What the provider gives for each ticker, in ticker order, empty results included. */
  function FetchAll(tickers: seq<string>, fetch: Fetch, start: Day, end: Day): (frames: seq<Frame>)
    ensures |frames| == |tickers|
    ensures forall i | 0 <= i < |tickers| :: frames[i] == fetch(tickers[i], start, end)
  {
    seq(|tickers|, i requires 0 <= i < |tickers| => fetch(tickers[i], start, end))
  }

  /**
   * The loop filling `all_frames`: the non-empty results in ticker order. Skipping the
   * empty ones loses no row, and the list is empty exactly when every ticker came back empty.
   */
  function CollectNonEmpty(tickers: seq<string>, fetch: Fetch, start: Day, end: Day): (frames: seq<Frame>)
    ensures forall i | 0 <= i < |frames| :: |frames[i].rows| > 0
    ensures IsSubsequence(frames, FetchAll(tickers, fetch, start, end))
    ensures AllRows(frames) == AllRows(FetchAll(tickers, fetch, start, end))
    ensures |frames| == 0 <==> forall t | t in tickers :: |fetch(t, start, end).rows| == 0
    decreases |tickers|
  {
    if |tickers| == 0 then []
    else
      var f := fetch(tickers[0], start, end);
      var rest := CollectNonEmpty(tickers[1..], fetch, start, end);
      var all := FetchAll(tickers, fetch, start, end);
      FetchAllCons(tickers, fetch, start, end);
      assert forall t | t in tickers :: t == tickers[0] || t in tickers[1..];
      assert AllRows(all) == f.rows + AllRows(all[1..]);
      if |f.rows| > 0 then
        assert ([f] + rest)[1..] == rest;
        [f] + rest
      else
        rest
  }

  lemma FetchAllCons(tickers: seq<string>, fetch: Fetch, start: Day, end: Day)
    requires |tickers| > 0
    ensures var all := FetchAll(tickers, fetch, start, end);
            && all == [fetch(tickers[0], start, end)] + FetchAll(tickers[1..], fetch, start, end)
            && all[1..] == FetchAll(tickers[1..], fetch, start, end)
  {
  }

  /** Every row of the batch was returned for one of the requested tickers. */
  lemma {:induction false} BatchRowsComeFromTickers(tickers: seq<string>, fetch: Fetch, start: Day, end: Day)
    ensures forall x | x in AllRows(FetchAll(tickers, fetch, start, end)) ::
              exists i | 0 <= i < |tickers| :: x in fetch(tickers[i], start, end).rows
    decreases |tickers|
  {
    if |tickers| > 0 {
      var all := FetchAll(tickers, fetch, start, end);
      FetchAllCons(tickers, fetch, start, end);
      BatchRowsComeFromTickers(tickers[1..], fetch, start, end);
      forall x | x in AllRows(all)
        ensures exists i | 0 <= i < |tickers| :: x in fetch(tickers[i], start, end).rows
      {
        if x !in all[0].rows {
          var i :| 0 <= i < |tickers[1..]| && x in fetch(tickers[1..][i], start, end).rows;
          assert x in fetch(tickers[i + 1], start, end).rows;
        }
      }
    }
  }

  /**
   * `main` after the providers and the file system are abstracted. Configuration errors
   * depend on neither the fetch nor the stored table; an all-empty fetch writes nothing;
   * otherwise the table written is the merge of every ticker's rows, in ticker order, and
   * the summary's "new" count is the batch size, whatever the merge kept of it.
   */
  function RunScript(env: Env, defaultStart: Day, defaultEnd: Day,
                     parse: (string, DateFormat) -> Option<Day>,
                     fetch: Fetch, stored: Stored): (o: Outcome)
    ensures Window(env, defaultStart, defaultEnd, parse).Failure? ==>
              o == ConfigFailed(Window(env, defaultStart, defaultEnd, parse).error)
    ensures o.ConfigFailed? <==> Window(env, defaultStart, defaultEnd, parse).Failure?
    ensures Window(env, defaultStart, defaultEnd, parse).Success? ==>
              var (start, end) := Window(env, defaultStart, defaultEnd, parse).value;
              var tickers := ParseTickers(env.tickers);
              var batch := AllRows(FetchAll(tickers, fetch, start, end));
              o == if forall t | t in tickers :: |fetch(t, start, end).rows| == 0
                   then NothingFetched
                   else Written(MergeIncremental(batch, stored), |batch|)
  {
    var tickers := ParseTickers(env.tickers);
    match Window(env, defaultStart, defaultEnd, parse)
    case Failure(e) => ConfigFailed(e)
    case Success((start, end)) =>
      var frames := CollectNonEmpty(tickers, fetch, start, end);
      if |frames| == 0 then NothingFetched
      else
        var batch := AllRows(frames);
        Written(MergeIncremental(batch, stored), |batch|)
  }

  /**
   * A run that writes without having read a table (no file, or an unreadable one) writes
   * only rows fetched for the requested tickers in that run.
   */
  lemma FreshTableHoldsOnlyFetchedRows(env: Env, defaultStart: Day, defaultEnd: Day,
                                      parse: (string, DateFormat) -> Option<Day>,
                                      fetch: Fetch, stored: Stored)
    ensures var o := RunScript(env, defaultStart, defaultEnd, parse, fetch, stored);
            o.Written? && !stored.Table? ==>
              && Window(env, defaultStart, defaultEnd, parse).Success?
              && var (start, end) := Window(env, defaultStart, defaultEnd, parse).value;
                 forall x | x in o.table ::
                   exists t | t in ParseTickers(env.tickers) :: x in fetch(t, start, end).rows
  {
    var o := RunScript(env, defaultStart, defaultEnd, parse, fetch, stored);
    if o.Written? && !stored.Table? {
      var (start, end) := Window(env, defaultStart, defaultEnd, parse).value;
      var tickers := ParseTickers(env.tickers);
      BatchRowsComeFromTickers(tickers, fetch, start, end);
      forall x | x in o.table
        ensures exists t | t in tickers :: x in fetch(t, start, end).rows
      {
        var i :| 0 <= i < |tickers| && x in fetch(tickers[i], start, end).rows;
        assert tickers[i] in tickers;
      }
    }
  }
}
