/**
 * `merge_incremental(new_df, path)`: reconcile a freshly fetched batch with the table
 * stored at `path`. The file system is reduced to what the function observes of it.
 */
module Merge {
  import opened Rows
  import opened Sorting
  import opened Dedup

  /**
   * What `merge_incremental` finds at the output path: no file (`os.path.exists` is false),
   * a file `pd.read_csv` raises on, or a table it reads.
   */
  datatype Stored = Absent | Unreadable | Table(rows: seq<Row>)

  /**
   * The three paths of `merge_incremental`:
   *  - no file: the batch sorted by (Ticker, Date), duplicates kept (an empty batch is returned as is);
   *  - unreadable file: the batch exactly as given, neither sorted nor deduplicated;
   *  - stored table: stored rows then batch rows, first row of each key kept, sorted.
   */
  function MergeIncremental(newRows: seq<Row>, stored: Stored): (r: seq<Row>)
    ensures stored.Absent? ==> Sorted(r) && multiset(r) == multiset(newRows)
    ensures stored.Unreadable? ==> r == newRows
    ensures stored.Table? ==> Canonical(r) && Keys(r) == Keys(stored.rows + newRows)
    ensures stored.Table? ==>
              forall x | x in r :: KeyOf(x) in Keys(stored.rows + newRows)
                                   && x == FirstWithKey(stored.rows + newRows, KeyOf(x))
    ensures forall x | x in r :: x in newRows || (stored.Table? && x in stored.rows)
  {
    match stored
    case Absent =>
      if |newRows| == 0 then newRows
      else
        var sorted := SortByKey(newRows);
        assert forall x | x in sorted :: multiset(sorted)[x] > 0;
        sorted
    case Unreadable => newRows
    case Table(prior) =>
      var combined := prior + newRows;
      var deduped := DropDuplicateKeys(combined);
      SortKeepsKeys(deduped);
      var sorted := SortByKey(deduped);
      assert forall x | x in sorted :: x in deduped by {
        forall x | x in sorted ensures x in deduped {
          assert multiset(sorted)[x] > 0;
        }
      }
      assert forall x | x in deduped :: x in combined by {
        Seqs.SubsequenceMultiset(deduped, combined);
        forall x | x in deduped ensures x in combined {
          assert multiset(deduped)[x] > 0;
        }
      }
      sorted
  }

  /**
   * Without a stored file, rows that share a key keep their batch order: the sort is stable
   * and nothing is dropped.
   */
  lemma AbsentKeepsBatchOrderPerKey(newRows: seq<Row>, k: Key)
    ensures WithKey(MergeIncremental(newRows, Absent), k) == WithKey(newRows, k)
  {
    if |newRows| > 0 {
      SortStable(newRows, k);
    }
  }

  /**
   * The two paths differ on a batch that repeats a key: without a file both rows are
   * written, against a stored table only the first survives.
   */
  lemma DuplicateInBatchOnlyDroppedWithStoredTable(a: Row, b: Row, prior: seq<Row>)
    requires KeyOf(a) == KeyOf(b) && KeyOf(a) !in Keys(prior)
    ensures WithKey(MergeIncremental([a, b], Absent), KeyOf(a)) == [a, b]
    ensures WithKey(MergeIncremental([a, b], Table(prior)), KeyOf(a)) == [a]
  {
    var k := KeyOf(a);
    AbsentKeepsBatchOrderPerKey([a, b], k);
    assert [a, b][1..] == [b];
    assert [b][1..] == [];
    assert WithKey([b], k) == [b];
    assert WithKey([a, b], k) == [a, b];
    FirstOfBatchKeyWins(a, b, prior);
  }

  /** Against a stored table lacking the key, the batch's first row with it is the one kept. */
  lemma FirstOfBatchKeyWins(a: Row, b: Row, prior: seq<Row>)
    requires KeyOf(a) == KeyOf(b) && KeyOf(a) !in Keys(prior)
    ensures WithKey(MergeIncremental([a, b], Table(prior)), KeyOf(a)) == [a]
  {
    var k := KeyOf(a);
    var r := MergeIncremental([a, b], Table(prior));
    KeysAppend(prior, [a, b]);
    assert k in Keys(r);
    var y :| y in r && KeyOf(y) == k;
    var i :| 0 <= i < |r| && r[i] == y;
    FirstWithKeyAfterMissingPrefix(prior, [a, b], k);
    assert y == a;
    OnlyRowWithKey(r, i);
  }

  lemma {:induction false} FirstWithKeyAfterMissingPrefix(a: seq<Row>, b: seq<Row>, k: Key)
    requires k !in Keys(a) && |b| > 0 && KeyOf(b[0]) == k
    ensures k in Keys(a + b) && FirstWithKey(a + b, k) == b[0]
    decreases |a|
  {
    KeysAppend(a, b);
    if |a| == 0 {
      assert a + b == b;
    } else {
      KeysCons(a);
      assert (a + b)[1..] == a[1..] + b;
      FirstWithKeyAfterMissingPrefix(a[1..], b, k);
    }
  }

  /** In a table with unique keys, a key's rows are just the one row carrying it. */
  lemma {:induction false} OnlyRowWithKey(s: seq<Row>, i: int)
    requires UniqueKeys(s) && 0 <= i < |s|
    ensures WithKey(s, KeyOf(s[i])) == [s[i]]
    decreases |s|
  {
    if i == 0 {
      NoneWithKey(s[1..], KeyOf(s[0]));
    } else {
      OnlyRowWithKey(s[1..], i - 1);
    }
  }

  /**
   * Keep-first precedence: a row already stored survives a re-fetch of its key, whatever
   * the batch carries for that key.
   */
  lemma StoredRowsSurvive(prior: seq<Row>, newRows: seq<Row>)
    requires UniqueKeys(prior)
    ensures forall x | x in prior :: x in MergeIncremental(newRows, Table(prior))
  {
    var r := MergeIncremental(newRows, Table(prior));
    forall x | x in prior
      ensures x in r
    {
      var k := KeyOf(x);
      FirstWithKeyUnique(prior, x);
      FirstWithKeyPrefix(prior, newRows, k);
      assert k in Keys(r);
      var y :| y in r && KeyOf(y) == k;
    }
  }

  /**
   * Merging a batch whose keys are all already stored leaves a canonical table unchanged,
   * even where the batch carries different prices for those keys.
   */
  lemma RefetchOfStoredKeysIsNoOp(prior: seq<Row>, newRows: seq<Row>)
    requires Canonical(prior) && Keys(newRows) <= Keys(prior)
    ensures MergeIncremental(newRows, Table(prior)) == prior
  {
    DropCoveredSuffix(prior, newRows, {});
    SortSortedIsIdentity(prior);
  }

  /**
   * Merging the same batch a second time into what a stored-table merge wrote changes
   * nothing.
   */
  lemma MergeIdempotent(prior: seq<Row>, newRows: seq<Row>)
    ensures var once := MergeIncremental(newRows, Table(prior));
            MergeIncremental(newRows, Table(once)) == once
  {
    var once := MergeIncremental(newRows, Table(prior));
    KeysAppend(prior, newRows);
    RefetchOfStoredKeysIsNoOp(once, newRows);
  }

  /**
   * Across runs the no-file path is not idempotent: when the batch repeats a key, running
   * again with the same batch against the table the first run wrote drops the repeat.
   */
  lemma RerunAfterFreshDuplicateChangesTable(a: Row, b: Row)
    requires KeyOf(a) == KeyOf(b)
    ensures var first := MergeIncremental([a, b], Absent);
            MergeIncremental([a, b], Table(first)) != first
  {
    var k := KeyOf(a);
    var first := MergeIncremental([a, b], Absent);
    var second := MergeIncremental([a, b], Table(first));
    DuplicateInBatchOnlyDroppedWithStoredTable(a, b, []);
    assert |WithKey(first, k)| == 2;
    AtMostOneWithKey(second, k);
  }

  /**
   * Nor is the unreadable-file path: the unsorted batch it writes back is sorted by the
   * next run that reads it.
   */
  lemma RerunAfterUnreadableSortsTable(newRows: seq<Row>)
    requires !Sorted(newRows)
    ensures var first := MergeIncremental(newRows, Unreadable);
            MergeIncremental(newRows, Table(first)) != first
  {
  }

  /**
   * A stored (MSFT, day 19724) row with close 100 meets a re-fetched row for the same key
   * with close 105: the stored row is the one written back.
   */
  lemma StoredCloseWinsOverRefetchedClose()
    ensures var stored := Row(19724, "MSFT", [100.0]);
            var refetched := Row(19724, "MSFT", [105.0]);
            MergeIncremental([refetched], Table([stored])) == [stored]
  {
    var stored := Row(19724, "MSFT", [100.0]);
    var refetched := Row(19724, "MSFT", [105.0]);
    KeysSingleton(stored);
    KeysSingleton(refetched);
    RefetchOfStoredKeysIsNoOp([stored], [refetched]);
  }
}
