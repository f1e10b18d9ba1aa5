/**
 * `sort_values(["Ticker", "Date"])`. With more than one sort column pandas sorts with a
 * lexicographic indexer, which is stable: rows with equal keys keep their relative order.
 * Modelled as a stable insertion sort.
 */
module Sorting {
  import opened Rows

  /** Insert `x` into sorted `t` after every row whose key is not greater than its own. */
  function Insert(x: Row, t: seq<Row>): (r: seq<Row>)
    requires Sorted(t)
    ensures Sorted(r)
    ensures multiset(r) == multiset(t) + multiset{x}
    ensures forall y :: y in r ==> y == x || y in t
    decreases |t|
  {
    if |t| == 0 then [x]
    else if KeyLess(KeyOf(x), KeyOf(t[0])) then
      PrependBelowHead(x, t);
      [x] + t
    else
      var rest := Insert(x, t[1..]);
      assert t == [t[0]] + t[1..];
      PrependHead(t, x, rest);
      [t[0]] + rest
  }

  lemma PrependBelowHead(x: Row, t: seq<Row>)
    requires Sorted(t) && |t| > 0 && KeyLess(KeyOf(x), KeyOf(t[0]))
    ensures Sorted([x] + t)
  {
    var r := [x] + t;
    forall i, j | 0 <= i < j < |r|
      ensures !KeyLess(KeyOf(r[j]), KeyOf(r[i]))
    {
      if i == 0 && KeyLess(KeyOf(r[j]), KeyOf(x)) {
        KeyLessTransitive(KeyOf(r[j]), KeyOf(x), KeyOf(t[0]));
        if j == 1 {
          KeyLessIrreflexive(KeyOf(t[0]));
        }
        assert false;
      }
    }
  }

  lemma PrependHead(t: seq<Row>, x: Row, rest: seq<Row>)
    requires Sorted(t) && |t| > 0 && !KeyLess(KeyOf(x), KeyOf(t[0]))
    requires Sorted(rest)
    requires forall y :: y in rest ==> y == x || y in t[1..]
    ensures Sorted([t[0]] + rest)
  {
    var r := [t[0]] + rest;
    forall i, j | 0 <= i < j < |r|
      ensures !KeyLess(KeyOf(r[j]), KeyOf(r[i]))
    {
      if i == 0 {
        var y := rest[j - 1];
        assert y in rest;
        if y != x {
          var m :| 0 <= m < |t[1..]| && t[1..][m] == y;
          assert t[m + 1] == y;
        }
      } else {
        assert r[i] == rest[i - 1] && r[j] == rest[j - 1];
      }
    }
  }

  /** The rows of `s` in ascending key order. */
  function SortByKey(s: seq<Row>): (r: seq<Row>)
    ensures Sorted(r)
    ensures multiset(r) == multiset(s)
    decreases |s|
  {
    if |s| == 0 then []
    else
      assert s == s[..|s| - 1] + [s[|s| - 1]];
      Insert(s[|s| - 1], SortByKey(s[..|s| - 1]))
  }

  /** A sorted sequence has no key smaller than its head's. */
  lemma NoneWithSmallerKey(t: seq<Row>, k: Key)
    requires Sorted(t) && |t| > 0 && KeyLess(k, KeyOf(t[0]))
    ensures WithKey(t, k) == []
  {
    forall i | 0 <= i < |t|
      ensures KeyOf(t[i]) != k
    {
      if i == 0 {
        KeyLessIrreflexive(k);
      }
    }
    NoneWithKey(t, k);
  }

  lemma {:induction false} NoneWithKey(t: seq<Row>, k: Key)
    requires forall i | 0 <= i < |t| :: KeyOf(t[i]) != k
    ensures WithKey(t, k) == []
    decreases |t|
  {
    if |t| > 0 {
      NoneWithKey(t[1..], k);
    }
  }

  /** Insertion places `x` after every row that already has its key. */
  lemma {:induction false} InsertStable(x: Row, t: seq<Row>, k: Key)
    requires Sorted(t)
    ensures WithKey(Insert(x, t), k) == WithKey(t, k) + (if KeyOf(x) == k then [x] else [])
    decreases |t|
  {
    if |t| == 0 {
    } else if KeyLess(KeyOf(x), KeyOf(t[0])) {
      InsertBelowHead(x, t);
      WithKeyCons(x, t, k);
      if KeyOf(x) == k {
        NoneWithSmallerKey(t, k);
      }
    } else {
      InsertAfterHead(x, t);
      InsertStable(x, t[1..], k);
      WithKeyCons(t[0], Insert(x, t[1..]), k);
      WithKeyCons(t[0], t[1..], k);
      assert [t[0]] + t[1..] == t;
    }
  }

  /** Sorting is stable: the rows sharing any one key appear in their original order. */
  lemma {:induction false} SortStable(s: seq<Row>, k: Key)
    ensures WithKey(SortByKey(s), k) == WithKey(s, k)
    decreases |s|
  {
    if |s| > 0 {
      var init, last := s[..|s| - 1], s[|s| - 1];
      var sortedInit := SortByKey(init);
      SortByKeyLast(s);
      SortStable(init, k);
      InsertStable(last, sortedInit, k);
      WithKeyLast(s, k);
    }
  }

  lemma SortByKeyLast(s: seq<Row>)
    requires |s| > 0
    ensures SortByKey(s) == Insert(s[|s| - 1], SortByKey(s[..|s| - 1]))
  {
  }

  lemma WithKeyLast(s: seq<Row>, k: Key)
    requires |s| > 0
    ensures WithKey(s, k) == WithKey(s[..|s| - 1], k) + (if KeyOf(s[|s| - 1]) == k then [s[|s| - 1]] else [])
  {
    var init, last := s[..|s| - 1], s[|s| - 1];
    WithKeyAppend(init, [last], k);
    assert [last][1..] == [];
    assert s == init + [last];
  }

  /** Inserting a row whose key is not below any key of `t` appends it. */
  lemma {:induction false} InsertAtEnd(x: Row, t: seq<Row>)
    requires Sorted(t)
    requires forall i | 0 <= i < |t| :: !KeyLess(KeyOf(x), KeyOf(t[i]))
    ensures Insert(x, t) == t + [x]
    decreases |t|
  {
    if |t| > 0 {
      var rest := t[1..];
      SortedTail(t);
      assert forall i | 0 <= i < |rest| :: !KeyLess(KeyOf(x), KeyOf(rest[i])) by {
        forall i | 0 <= i < |rest| ensures !KeyLess(KeyOf(x), KeyOf(rest[i])) {
          assert rest[i] == t[i + 1];
        }
      }
      InsertAtEnd(x, rest);
      InsertAfterHead(x, t);
      HeadThenAppend(t, x);
    }
  }

  lemma HeadThenAppend(t: seq<Row>, x: Row)
    requires |t| > 0
    ensures t + [x] == [t[0]] + (t[1..] + [x])
  {
    assert t == [t[0]] + t[1..];
  }

  lemma SortedTail(t: seq<Row>)
    requires Sorted(t) && |t| > 0
    ensures Sorted(t[1..])
  {
  }

  lemma InsertBelowHead(x: Row, t: seq<Row>)
    requires Sorted(t) && |t| > 0 && KeyLess(KeyOf(x), KeyOf(t[0]))
    ensures Insert(x, t) == [x] + t
  {
  }

  lemma InsertAfterHead(x: Row, t: seq<Row>)
    requires Sorted(t) && |t| > 0 && !KeyLess(KeyOf(x), KeyOf(t[0]))
    ensures Sorted(t[1..]) && Insert(x, t) == [t[0]] + Insert(x, t[1..])
  {
  }

  /** Sorting an already sorted table leaves it exactly as it was. */
  lemma {:induction false} SortSortedIsIdentity(s: seq<Row>)
    requires Sorted(s)
    ensures SortByKey(s) == s
    decreases |s|
  {
    if |s| > 0 {
      var init, last := s[..|s| - 1], s[|s| - 1];
      SortSortedIsIdentity(init);
      InsertAtEnd(last, init);
      assert init + [last] == s;
    }
  }

  /** Sorting keeps the key set, and keeps keys unique when they were. */
  lemma SortKeepsKeys(s: seq<Row>)
    ensures Keys(SortByKey(s)) == Keys(s)
    ensures UniqueKeys(s) ==> UniqueKeys(SortByKey(s))
  {
    var r := SortByKey(s);
    assert forall x :: x in r <==> x in s by {
      forall x ensures x in r <==> x in s {
        assert x in r <==> multiset(r)[x] > 0;
        assert x in s <==> multiset(s)[x] > 0;
      }
    }
    if UniqueKeys(s) {
      forall i, j | 0 <= i < j < |r|
        ensures KeyOf(r[i]) != KeyOf(r[j])
      {
        if KeyOf(r[i]) == KeyOf(r[j]) {
          var k := KeyOf(r[i]);
          AtMostOneWithKey(s, k);
          SortStable(s, k);
          TwoWithKey(r, i, j);
          assert false;
        }
      }
    }
  }

  /** In a table with unique keys, each key selects at most one row. */
  lemma {:induction false} AtMostOneWithKey(s: seq<Row>, k: Key)
    requires UniqueKeys(s)
    ensures |WithKey(s, k)| <= 1
    decreases |s|
  {
    if |s| > 0 {
      AtMostOneWithKey(s[1..], k);
      if KeyOf(s[0]) == k {
        NoneWithKey(s[1..], k);
      }
    }
  }

  /** Two rows with the same key give that key at least two rows. */
  lemma {:induction false} TwoWithKey(s: seq<Row>, i: int, j: int)
    requires 0 <= i < j < |s| && KeyOf(s[i]) == KeyOf(s[j])
    ensures |WithKey(s, KeyOf(s[i]))| >= 2
    decreases |s|
  {
    var k := KeyOf(s[i]);
    if i == 0 {
      OneWithKey(s[1..], j - 1, k);
    } else {
      TwoWithKey(s[1..], i - 1, j - 1);
    }
  }

  lemma {:induction false} OneWithKey(s: seq<Row>, j: int, k: Key)
    requires 0 <= j < |s| && KeyOf(s[j]) == k
    ensures |WithKey(s, k)| >= 1
    decreases |s|
  {
    if j > 0 {
      OneWithKey(s[1..], j - 1, k);
    }
  }
}
