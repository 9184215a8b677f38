/** The order in which the columnar transposition reads its columns: the
    column indices sorted by their key letter, columns with equal letters
    keeping their left-to-right order (a stable sort that compares letters
    only). */
module Columns {

  /** Every entry names a column of `key`. */
  predicate InRange(key: string, s: seq<nat>) {
    forall i :: 0 <= i < |s| ==> s[i] < |key|
  }

  /** Column `a` is read before column `b`: a smaller letter, or the same
      letter further left. */
  predicate Before(key: string, a: nat, b: nat)
    requires a < |key| && b < |key|
  {
    key[a] < key[b] || (key[a] == key[b] && a < b)
  }

  /** Strictly increasing in reading order (so no column twice). */
  predicate Sorted(key: string, s: seq<nat>)
    requires InRange(key, s)
  {
    forall i, j :: 0 <= i < j < |s| ==> Before(key, s[i], s[j])
  }

  /** Places column `x` after every column whose letter is not greater. */
  function Insert(key: string, x: nat, s: seq<nat>): (r: seq<nat>)
    requires x < |key| && InRange(key, s)
    ensures |r| == |s| + 1
    ensures InRange(key, r)
    ensures forall y :: y in r <==> y == x || y in s
  {
    if s == [] then [x]
    else if key[x] < key[s[0]] then [x] + s
    else [s[0]] + Insert(key, x, s[1..])
  }

  /** Inserting a column to the right of every column already placed keeps
      the sequence in reading order. */
  lemma {:induction false} InsertSorted(key: string, x: nat, s: seq<nat>)
    requires x < |key| && InRange(key, s) && Sorted(key, s)
    requires forall i :: 0 <= i < |s| ==> s[i] < x
    ensures Sorted(key, Insert(key, x, s))
  {
    if s != [] && key[s[0]] <= key[x] {
      InsertSorted(key, x, s[1..]);
      var r := Insert(key, x, s);
      forall j | 1 <= j < |r|
        ensures Before(key, s[0], r[j])
      {
        assert r[j] in Insert(key, x, s[1..]);
      }
    }
  }

  /** Columns `0..n-1` in reading order. */
  function SortPrefix(key: string, n: nat): (r: seq<nat>)
    requires n <= |key|
    ensures |r| == n
    ensures InRange(key, r)
    ensures forall c: nat :: c in r <==> c < n
  {
    if n == 0 then [] else Insert(key, n - 1, SortPrefix(key, n - 1))
  }

  lemma SortPrefixBelow(key: string, n: nat)
    requires n <= |key|
    ensures forall i :: 0 <= i < n ==> SortPrefix(key, n)[i] < n
  {
    var s := SortPrefix(key, n);
    forall i | 0 <= i < n
      ensures s[i] < n
    {
      assert s[i] in s;
    }
  }

  /** Each insertion places a column to the right of all columns already
      placed, so the prefix sort is in reading order. */
  lemma {:induction false} SortPrefixSorted(key: string, n: nat)
    requires n <= |key|
    ensures Sorted(key, SortPrefix(key, n))
  {
    if n > 0 {
      var s := SortPrefix(key, n - 1);
      SortPrefixSorted(key, n - 1);
      SortPrefixBelow(key, n - 1);
      InsertSorted(key, n - 1, s);
    }
  }

  /** `orden` after `orden.sort((a, b) => a.letra.localeCompare(b.letra))`:
      every column once (`ColumnOrderSorted` adds: in reading order). */
  function ColumnOrder(key: string): (order: seq<nat>)
    ensures |order| == |key|
    ensures InRange(key, order)
    ensures forall c: nat :: c in order <==> c < |key|
  {
    SortPrefix(key, |key|)
  }

  /** The reading order is sorted: by letter, ties left to right. */
  lemma ColumnOrderSorted(key: string)
    ensures Sorted(key, ColumnOrder(key))
  {
    SortPrefixSorted(key, |key|);
  }

  /** At most one arrangement of a set of columns is in reading order. */
  lemma {:induction false} SortedUnique(key: string, a: seq<nat>, b: seq<nat>)
    requires InRange(key, a) && InRange(key, b) && Sorted(key, a) && Sorted(key, b)
    requires forall y :: y in a <==> y in b
    ensures a == b
  {
    assert b == [] || b[0] in b;
    if a != [] {
      assert a[0] in a && a[0] in b;
      assert b != [] && b[0] in b && b[0] in a;
      var i :| 0 <= i < |a| && a[i] == b[0];
      var j :| 0 <= j < |b| && b[j] == a[0];
      assert a[0] == b[0];
      assert a == [a[0]] + a[1..] && b == [b[0]] + b[1..];
      forall y
        ensures y in a[1..] <==> y in b[1..]
      {
        if y in a[1..] {
          var u :| 0 <= u < |a[1..]| && a[1..][u] == y;
          assert Before(key, a[0], a[u + 1]);
          assert y in b && y != b[0];
        }
        if y in b[1..] {
          var u :| 0 <= u < |b[1..]| && b[1..][u] == y;
          assert Before(key, b[0], b[u + 1]);
          assert y in a && y != a[0];
        }
      }
      SortedUnique(key, a[1..], b[1..]);
    }
  }

  /** `ColumnOrder` is the stable sort of the columns by letter: any sequence
      that lists every column exactly once in reading order is it. */
  lemma ColumnOrderIsStableSort(key: string, s: seq<nat>)
    requires InRange(key, s) && Sorted(key, s)
    requires forall c: nat :: c in s <==> c < |key|
    ensures s == ColumnOrder(key)
  {
    var order := ColumnOrder(key);
    ColumnOrderSorted(key);
    forall y
      ensures y in s <==> y in order
    {
      if y in s {
        assert y < |key|;
      }
    }
    SortedUnique(key, s, order);
  }

  /** Position of column `j` in the reading order (the inverse of `order`). */
  function Rank(order: seq<nat>, j: nat): (i: nat)
    requires j in order
    ensures i < |order| && order[i] == j
  {
    if order[0] == j then 0 else Rank(order[1..], j) + 1
  }

  /** `KEY` reads its middle column first: `E < K < Y`. */
  lemma ColumnOrderKey()
    ensures ColumnOrder("KEY") == [1, 0, 2]
  {
    ColumnOrderIsStableSort("KEY", [1, 0, 2]);
  }

  /** Equal letters keep their left-to-right order, also when every letter
      is the same. */
  lemma ColumnOrderTies()
    ensures ColumnOrder("BAB") == [1, 0, 2]
    ensures ColumnOrder("AAA") == [0, 1, 2]
  {
    ColumnOrderIsStableSort("BAB", [1, 0, 2]);
    ColumnOrderIsStableSort("AAA", [0, 1, 2]);
  }

  lemma ColumnOrderBA()
    ensures ColumnOrder("BA") == [1, 0]
  {
    ColumnOrderIsStableSort("BA", [1, 0]);
  }
}
