/**
 * `drop_duplicates(subset=["Ticker", "Date"])` with pandas' default `keep='first'`:
 * of all rows sharing a key, the earliest one survives.
 */
module Dedup {
  import opened Rows
  import opened Seqs

  /** The earliest row of `s` carrying key `k`. */
  function FirstWithKey(s: seq<Row>, k: Key): (r: Row)
    requires k in Keys(s)
    ensures r in s && KeyOf(r) == k
    decreases |s|
  {
    KeysCons(s);
    if KeyOf(s[0]) == k then s[0] else FirstWithKey(s[1..], k)
  }

  /**
   * Where the earliest row of `s` carrying key `k` sits: `|s|` when no row carries it,
   * otherwise the position of `FirstWithKey(s, k)`.
   */
  function FirstIndex(s: seq<Row>, k: Key): (i: nat)
    ensures i <= |s|
    ensures i < |s| ==> KeyOf(s[i]) == k && s[i] == FirstWithKey(s, k)
    ensures forall j | 0 <= j < i :: KeyOf(s[j]) != k
    decreases |s|
  {
    if |s| == 0 then 0
    else
      KeysCons(s);
      if KeyOf(s[0]) == k then 0 else 1 + FirstIndex(s[1..], k)
  }

  /** `r` lists its keys in the order they first occur in `s`. */
  predicate InFirstOrder(r: seq<Row>, s: seq<Row>)
  {
    forall i, j | 0 <= i < j < |r| :: FirstIndex(s, KeyOf(r[i])) < FirstIndex(s, KeyOf(r[j]))
  }

  /** Rows ordered by first occurrence in `s[1..]` stay so in `s` when none has the head's key. */
  lemma ShiftPastHead(s: seq<Row>, rest: seq<Row>)
    requires |s| > 0
    requires forall x | x in rest :: KeyOf(x) != KeyOf(s[0])
    requires InFirstOrder(rest, s[1..])
    ensures InFirstOrder(rest, s)
  {
    forall i, j | 0 <= i < j < |rest|
      ensures FirstIndex(s, KeyOf(rest[i])) < FirstIndex(s, KeyOf(rest[j]))
    {
      assert rest[i] in rest && rest[j] in rest;
    }
  }

  /** The head of `s` comes first in order of first occurrence. */
  lemma HeadFirst(s: seq<Row>, rest: seq<Row>)
    requires |s| > 0
    requires forall x | x in rest :: KeyOf(x) != KeyOf(s[0])
    requires InFirstOrder(rest, s)
    ensures InFirstOrder([s[0]] + rest, s)
  {
    var r := [s[0]] + rest;
    forall i, j | 0 <= i < j < |r|
      ensures FirstIndex(s, KeyOf(r[i])) < FirstIndex(s, KeyOf(r[j]))
    {
      var y := rest[j - 1];
      assert r[j] == y;
      if i == 0 {
        assert y in rest;
        HeadComesFirst(s, KeyOf(y));
      } else {
        assert r[i] == rest[i - 1];
      }
    }
  }

  lemma HeadComesFirst(s: seq<Row>, k: Key)
    requires |s| > 0 && KeyOf(s[0]) != k
    ensures FirstIndex(s, KeyOf(s[0])) == 0 < FirstIndex(s, k)
  {
  }

  /** The survivors of `DropFrom` come in the order their keys first occur. */
  lemma {:induction false} DropFromInFirstOrder(s: seq<Row>, seen: set<Key>)
    ensures InFirstOrder(DropFrom(s, seen), s)
    decreases |s|
  {
    if |s| > 0 {
      KeysCons(s);
      var k0 := KeyOf(s[0]);
      if k0 in seen {
        var rest := DropFrom(s[1..], seen);
        DropFromInFirstOrder(s[1..], seen);
        assert forall x | x in rest :: KeyOf(x) in Keys(rest);
        ShiftPastHead(s, rest);
      } else {
        var rest := DropFrom(s[1..], seen + {k0});
        DropFromInFirstOrder(s[1..], seen + {k0});
        assert forall x | x in rest :: KeyOf(x) in Keys(rest);
        ShiftPastHead(s, rest);
        HeadFirst(s, rest);
      }
    }
  }

  /** A row of `s` whose key already occurs in `seen` is dropped; the rest keep their order. */
  function DropFrom(s: seq<Row>, seen: set<Key>): (r: seq<Row>)
    ensures UniqueKeys(r)
    ensures Keys(r) == Keys(s) - seen
    ensures IsSubsequence(r, s)
    decreases |s|
  {
    if |s| == 0 then []
    else
      KeysCons(s);
      if KeyOf(s[0]) in seen then DropFrom(s[1..], seen)
      else
        var rest := DropFrom(s[1..], seen + {KeyOf(s[0])});
        ConsUnique(s[0], rest);
        KeysCons([s[0]] + rest);
        assert ([s[0]] + rest)[1..] == rest;
        [s[0]] + rest
  }

  lemma ConsUnique(x: Row, rest: seq<Row>)
    requires UniqueKeys(rest) && KeyOf(x) !in Keys(rest)
    ensures UniqueKeys([x] + rest)
  {
    var r := [x] + rest;
    forall i, j | 0 <= i < j < |r|
      ensures KeyOf(r[i]) != KeyOf(r[j])
    {
      assert r[j] == rest[j - 1] && r[j] in rest;
      if i > 0 {
        assert r[i] == rest[i - 1];
      }
    }
  }

  /** Every surviving row is the first occurrence of its key in the input. */
  lemma {:induction false} DropKeepsFirst(s: seq<Row>, seen: set<Key>)
    ensures forall x | x in DropFrom(s, seen) :: KeyOf(x) in Keys(s) && x == FirstWithKey(s, KeyOf(x))
    decreases |s|
  {
    if |s| > 0 {
      KeysCons(s);
      var k0 := KeyOf(s[0]);
      var r := DropFrom(s, seen);
      if k0 in seen {
        DropKeepsFirst(s[1..], seen);
        forall x | x in r
          ensures KeyOf(x) in Keys(s) && x == FirstWithKey(s, KeyOf(x))
        {
          assert KeyOf(x) in Keys(r);
        }
      } else {
        var rest := DropFrom(s[1..], seen + {k0});
        assert r == [s[0]] + rest;
        DropKeepsFirst(s[1..], seen + {k0});
        forall x | x in r
          ensures KeyOf(x) in Keys(s) && x == FirstWithKey(s, KeyOf(x))
        {
          if x != s[0] {
            assert x in rest;
            assert KeyOf(x) in Keys(rest);
          }
        }
      }
    }
  }

  /**
   * The rows of `s` with duplicate keys removed: the earliest row of each key is kept, and
   * the kept rows come in the order their keys first occur in `s`.
   */
  function DropDuplicateKeys(s: seq<Row>): (r: seq<Row>)
    ensures UniqueKeys(r)
    ensures Keys(r) == Keys(s)
    ensures IsSubsequence(r, s)
    ensures forall x | x in r :: KeyOf(x) in Keys(s) && x == FirstWithKey(s, KeyOf(x))
    ensures forall i, j | 0 <= i < j < |r| :: FirstIndex(s, KeyOf(r[i])) < FirstIndex(s, KeyOf(r[j]))
  {
    DropKeepsFirst(s, {});
    DropFromInFirstOrder(s, {});
    DropFrom(s, {})
  }

  /** A kept row that recurs later does not move: `[x, y, x]` keeps `[x, y]`. */
  lemma RecurringRowKeepsItsPlace(x: Row, y: Row)
    requires KeyOf(x) != KeyOf(y)
    ensures DropDuplicateKeys([x, y, x]) == [x, y]
  {
    var s := [x, y, x];
    var kx, ky := KeyOf(x), KeyOf(y);
    assert s[1..] == [y, x] && s[1..][1..] == [x] && [x][1..] == [];
    KeysSingleton(x);
    DropAllSeen([x], {kx} + {ky});
    assert DropFrom([y, x], {kx}) == [y] + DropFrom([x], {kx} + {ky});
    assert DropFrom(s, {}) == [x] + DropFrom([y, x], {} + {kx});
    assert {} + {kx} == {kx};
  }

  /** The earliest row of a key in `a + b` lies in `a` whenever `a` has that key. */
  lemma {:induction false} FirstWithKeyPrefix(a: seq<Row>, b: seq<Row>, k: Key)
    requires k in Keys(a)
    ensures k in Keys(a + b) && FirstWithKey(a + b, k) == FirstWithKey(a, k)
    decreases |a|
  {
    KeysAppend(a, b);
    KeysCons(a);
    if KeyOf(a[0]) != k {
      assert (a + b)[1..] == a[1..] + b;
      FirstWithKeyPrefix(a[1..], b, k);
    }
  }

  /** In a table with unique keys, each row is the first (and only) row of its key. */
  lemma {:induction false} FirstWithKeyUnique(s: seq<Row>, x: Row)
    requires UniqueKeys(s) && x in s
    ensures KeyOf(x) in Keys(s) && FirstWithKey(s, KeyOf(x)) == x
    decreases |s|
  {
    KeysCons(s);
    if s[0] != x {
      assert x in s[1..];
      FirstWithKeyUnique(s[1..], x);
    }
  }

  /** Nothing survives when every key has been seen. */
  lemma {:induction false} DropAllSeen(s: seq<Row>, seen: set<Key>)
    requires Keys(s) <= seen
    ensures DropFrom(s, seen) == []
    decreases |s|
  {
    if |s| > 0 {
      KeysCons(s);
      DropAllSeen(s[1..], seen);
    }
  }

  /**
   * A duplicate-free prefix whose keys cover the suffix's keys survives alone:
   * every later row repeats a key already kept.
   */
  lemma {:induction false} DropCoveredSuffix(a: seq<Row>, b: seq<Row>, seen: set<Key>)
    requires UniqueKeys(a) && Keys(a) !! seen
    requires Keys(b) <= seen + Keys(a)
    ensures DropFrom(a + b, seen) == a
    decreases |a|
  {
    if |a| == 0 {
      assert a + b == b;
      DropAllSeen(b, seen);
    } else {
      KeysCons(a);
      var k0 := KeyOf(a[0]);
      assert (a + b)[0] == a[0];
      assert (a + b)[1..] == a[1..] + b;
      assert UniqueKeys(a[1..]);
      assert k0 !in Keys(a[1..]);
      DropCoveredSuffix(a[1..], b, seen + {k0});
      assert a == [a[0]] + a[1..];
    }
  }

  /** A sequence without duplicate keys has nothing to drop. */
  lemma DropDuplicateKeysOfUnique(s: seq<Row>)
    requires UniqueKeys(s)
    ensures DropDuplicateKeys(s) == s
  {
    DropCoveredSuffix(s, [], {});
    assert s + [] == s;
  }
}
