/**
 * Price rows, their (Ticker, Date) identity key, the key order pandas sorts by,
 * and the table-level invariants the merge is meant to establish.
 */
module Rows {

  /** A calendar date as a day ordinal; every date in the scripts is a midnight datetime. */
  type Day = int

  /**
   * One observation. `cells` holds the price columns after Date and Ticker in the
   * frame's column order; they are opaque payload and never compared by the scripts.
   */
  datatype Row = Row(date: Day, ticker: string, cells: seq<real>)

  /** The identity key `["Ticker", "Date"]` used by both `drop_duplicates` and `sort_values`. */
  datatype Key = Key(ticker: string, date: Day)

  /** A data frame: a header and its rows. The first two columns are Date and Ticker. */
  datatype Frame = Frame(columns: seq<string>, rows: seq<Row>)

  /** The header starts Date, Ticker and every row has one cell per remaining column. */
  predicate Shaped(f: Frame)
  {
    && |f.columns| >= 2
    && f.columns[0] == "Date" && f.columns[1] == "Ticker"
    && forall r | r in f.rows :: |r.cells| == |f.columns| - 2
  }

  function KeyOf(r: Row): Key
  {
    Key(r.ticker, r.date)
  }

  /** Python `str` ordering: lexicographic on code points, a proper prefix sorts first. */
  predicate StrLess(a: string, b: string)
    decreases |a|
  {
    if |a| == 0 then |b| > 0
    else if |b| == 0 then false
    else if a[0] == b[0] then StrLess(a[1..], b[1..])
    else a[0] < b[0]
  }

  /** Ascending by ticker, then chronologically by date. */
  predicate KeyLess(a: Key, b: Key)
  {
    StrLess(a.ticker, b.ticker) || (a.ticker == b.ticker && a.date < b.date)
  }

  lemma {:induction false} StrLessIrreflexive(a: string)
    ensures !StrLess(a, a)
    decreases |a|
  {
    if |a| > 0 {
      StrLessIrreflexive(a[1..]);
    }
  }

  lemma {:induction false} StrLessTransitive(a: string, b: string, c: string)
    requires StrLess(a, b) && StrLess(b, c)
    ensures StrLess(a, c)
    decreases |a|
  {
    if |a| > 0 && a[0] == b[0] && b[0] == c[0] {
      StrLessTransitive(a[1..], b[1..], c[1..]);
    }
  }

  lemma {:induction false} StrLessTotal(a: string, b: string)
    ensures a == b || StrLess(a, b) || StrLess(b, a)
    decreases |a|
  {
    if |a| > 0 && |b| > 0 && a[0] == b[0] {
      StrLessTotal(a[1..], b[1..]);
      assert a == [a[0]] + a[1..];
      assert b == [b[0]] + b[1..];
    }
  }

  lemma KeyLessIrreflexive(a: Key)
    ensures !KeyLess(a, a)
  {
    StrLessIrreflexive(a.ticker);
  }

  lemma KeyLessTransitive(a: Key, b: Key, c: Key)
    requires KeyLess(a, b) && KeyLess(b, c)
    ensures KeyLess(a, c)
  {
    if StrLess(a.ticker, b.ticker) && StrLess(b.ticker, c.ticker) {
      StrLessTransitive(a.ticker, b.ticker, c.ticker);
    }
  }

  /** The key order is a strict total order, so sorting by it is well defined. */
  lemma KeyOrder()
    ensures forall a: Key :: !KeyLess(a, a)
    ensures forall a: Key, b: Key, c: Key :: KeyLess(a, b) && KeyLess(b, c) ==> KeyLess(a, c)
    ensures forall a: Key, b: Key :: a == b || KeyLess(a, b) || KeyLess(b, a)
  {
    forall a: Key
      ensures !KeyLess(a, a)
    {
      StrLessIrreflexive(a.ticker);
    }
    forall a: Key, b: Key, c: Key | KeyLess(a, b) && KeyLess(b, c)
      ensures KeyLess(a, c)
    {
      if StrLess(a.ticker, b.ticker) && StrLess(b.ticker, c.ticker) {
        StrLessTransitive(a.ticker, b.ticker, c.ticker);
      }
    }
    forall a: Key, b: Key
      ensures a == b || KeyLess(a, b) || KeyLess(b, a)
    {
      StrLessTotal(a.ticker, b.ticker);
    }
  }

  /** No row is followed by a row with a smaller key (duplicates allowed). */
  predicate Sorted(s: seq<Row>)
  {
    forall i, j | 0 <= i < j < |s| :: !KeyLess(KeyOf(s[j]), KeyOf(s[i]))
  }

  /** No two rows share a (Ticker, Date) key. */
  predicate UniqueKeys(s: seq<Row>)
  {
    forall i, j | 0 <= i < j < |s| :: KeyOf(s[i]) != KeyOf(s[j])
  }

  /** The on-disk invariant of the stored table: sorted and free of duplicate keys. */
  predicate Canonical(s: seq<Row>)
  {
    Sorted(s) && UniqueKeys(s)
  }

  /** Strictly ascending keys. */
  predicate StrictlyAscending(s: seq<Row>)
  {
    forall i, j | 0 <= i < j < |s| :: KeyLess(KeyOf(s[i]), KeyOf(s[j]))
  }

  /** A canonical table is exactly a table whose keys strictly ascend. */
  lemma CanonicalIffStrictlyAscending(s: seq<Row>)
    ensures Canonical(s) <==> StrictlyAscending(s)
  {
    KeyOrder();
  }

  /** The set of keys present in a row sequence. */
  function Keys(s: seq<Row>): set<Key>
  {
    set r | r in s :: KeyOf(r)
  }

  lemma KeysAppend(a: seq<Row>, b: seq<Row>)
    ensures Keys(a + b) == Keys(a) + Keys(b)
  {
    assert forall r :: r in a + b <==> r in a || r in b;
  }

  lemma KeysSingleton(x: Row)
    ensures Keys([x]) == {KeyOf(x)}
  {
    assert x in [x];
  }

  lemma KeysCons(s: seq<Row>)
    requires |s| > 0
    ensures Keys(s) == {KeyOf(s[0])} + Keys(s[1..])
  {
    assert s == [s[0]] + s[1..];
    KeysAppend([s[0]], s[1..]);
  }

  /** The rows carrying key `k`, in their order in `s`. */
  function WithKey(s: seq<Row>, k: Key): seq<Row>
    decreases |s|
  {
    if |s| == 0 then []
    else (if KeyOf(s[0]) == k then [s[0]] else []) + WithKey(s[1..], k)
  }

  lemma WithKeyCons(x: Row, s: seq<Row>, k: Key)
    ensures WithKey([x] + s, k) == (if KeyOf(x) == k then [x] else []) + WithKey(s, k)
  {
    assert ([x] + s)[1..] == s;
  }

  lemma {:induction false} WithKeyAppend(a: seq<Row>, b: seq<Row>, k: Key)
    ensures WithKey(a + b, k) == WithKey(a, k) + WithKey(b, k)
    decreases |a|
  {
    if |a| == 0 {
      assert a + b == b;
    } else {
      assert (a + b)[1..] == a[1..] + b;
      WithKeyAppend(a[1..], b, k);
    }
  }

  /** The rows of all frames, frame after frame: `pd.concat(frames, ignore_index=True)`. */
  function AllRows(frames: seq<Frame>): seq<Row>
    decreases |frames|
  {
    if |frames| == 0 then [] else frames[0].rows + AllRows(frames[1..])
  }
}
