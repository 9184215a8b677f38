/** Concatenating grid cells and moving elements to other positions: the
    facts the transposition needs to show it only rearranges characters. */
module Rearrange {

  /** The cells of a grid, each `""` or one character, joined in order. */
  function Flatten(cells: seq<string>): (s: string)
    ensures |cells| == 0 ==> s == []
  {
    if cells == [] then [] else cells[0] + Flatten(cells[1..])
  }

  lemma {:induction false} FlattenAppend(a: seq<string>, b: seq<string>)
    ensures Flatten(a + b) == Flatten(a) + Flatten(b)
  {
    if a != [] {
      assert (a + b)[1..] == a[1..] + b;
      FlattenAppend(a[1..], b);
    } else {
      assert a + b == b;
    }
  }

  /** When every cell holds exactly one character, joining them keeps each
      cell's character at the cell's own position. */
  lemma {:induction false} FlattenSingles(cells: seq<string>)
    requires forall t :: 0 <= t < |cells| ==> |cells[t]| == 1
    ensures |Flatten(cells)| == |cells|
    ensures forall t :: 0 <= t < |cells| ==> Flatten(cells)[t] == cells[t][0]
  {
    if cells != [] {
      FlattenSingles(cells[1..]);
    }
  }

  /** Position `u` of `c` as a cell, for every position of a grid of `n` cells;
      the cells past the end of `c` stay empty. */
  function IndexCells(c: string, n: nat): (cells: seq<string>)
    requires |c| <= n
    ensures |cells| == n
    ensures forall u :: 0 <= u < n ==> cells[u] == (if u < |c| then [c[u]] else [])
  {
    seq(n, u requires 0 <= u < n => if u < |c| then [c[u]] else [])
  }

  lemma {:induction false} FlattenIndexCells(c: string, n: nat)
    requires |c| <= n
    ensures Flatten(IndexCells(c, n)) == c
    decreases n
  {
    if n > 0 {
      var shorter := if |c| == n then c[..n - 1] else c;
      var last: string := if |c| == n then [c[n - 1]] else [];
      assert IndexCells(c, n) == IndexCells(shorter, n - 1) + [last];
      FlattenAppend(IndexCells(shorter, n - 1), [last]);
      FlattenIndexCells(shorter, n - 1);
      assert c == shorter + last;
    }
  }

  /** A sequence is what comes before position `p`, the element there, and
      what comes after. */
  lemma SplitAt<T>(b: seq<T>, p: int)
    requires 0 <= p < |b|
    ensures b == (b[..p] + [b[p]]) + b[p + 1..]
  {
  }

  /** Taking the element at `p` out of a sequence takes it out of the
      sequence's multiset. */
  lemma RemoveAt<T>(b: seq<T>, p: int)
    requires 0 <= p < |b|
    ensures multiset(b) == multiset(b[..p] + b[p + 1..]) + multiset{b[p]}
  {
    SplitAt(b, p);
  }

  lemma CancelOne<T>(x: multiset<T>, y: multiset<T>, e: T)
    requires x + multiset{e} == y + multiset{e}
    ensures x == y
  {
    forall v
      ensures x[v] == y[v]
    {
      assert (x + multiset{e})[v] == (y + multiset{e})[v];
    }
  }

  /** A one-cell piece joins to the cell itself. */
  lemma FlattenOne(x: string)
    ensures Flatten([x]) == x
  {
    assert [x][1..] == [];
  }

  /** Joining all cells but the one at `p`, then adding that cell's
      characters back, gives the characters of the whole grid. */
  lemma FlattenRemoveAt(b: seq<string>, p: int)
    requires 0 <= p < |b|
    ensures multiset(Flatten(b)) == multiset(Flatten(b[..p] + b[p + 1..])) + multiset(b[p])
  {
    var pre, x, post := b[..p], b[p], b[p + 1..];
    SplitAt(b, p);
    FlattenAppend(pre + [x], post);
    FlattenAppend(pre, [x]);
    FlattenAppend(pre, post);
    FlattenOne(x);
    calc {
      multiset(Flatten(b));
      multiset(Flatten(pre) + x + Flatten(post));
      multiset(Flatten(pre)) + multiset(x) + multiset(Flatten(post));
      multiset(Flatten(pre) + Flatten(post)) + multiset(x);
    }
  }

  /** Matching the first element of `a` with an equal element of `b` leaves
      two rests that are still rearrangements of each other. */
  lemma RemoveMatching<T>(a: seq<T>, b: seq<T>, p: int)
    requires multiset(a) == multiset(b)
    requires a != [] && 0 <= p < |b| && b[p] == a[0]
    ensures multiset(a[1..]) == multiset(b[..p] + b[p + 1..])
  {
    RemoveAt(b, p);
    RemoveAt(a, 0);
    assert a[..0] + a[1..] == a[1..];
    CancelOne(multiset(a[1..]), multiset(b[..p] + b[p + 1..]), a[0]);
  }

  /** Joining cells depends only on which cells there are, not on their
      order, as far as the characters and their counts go. */
  lemma {:induction false} FlattenRespectsMultiset(a: seq<string>, b: seq<string>)
    requires multiset(a) == multiset(b)
    ensures multiset(Flatten(a)) == multiset(Flatten(b))
  {
    if a == [] {
      assert |b| == |multiset(b)| == 0;
    } else {
      assert a[0] in multiset(b);
      var p :| 0 <= p < |b| && b[p] == a[0];
      RemoveMatching(a, b, p);
      FlattenRespectsMultiset(a[1..], b[..p] + b[p + 1..]);
      FlattenRemoveAt(b, p);
    }
  }

  /** If `a[i] == b[f[i]]` for a map `f` that sends distinct positions of `a`
      to distinct positions of `b`, and both have the same length, then `a`
      is a rearrangement of `b`. */
  lemma {:induction false} Reindex<T>(a: seq<T>, b: seq<T>, f: seq<nat>)
    requires |a| == |b| == |f|
    requires forall i :: 0 <= i < |f| ==> f[i] < |b| && a[i] == b[f[i]]
    requires forall i, j :: 0 <= i < j < |f| ==> f[i] != f[j]
    ensures multiset(a) == multiset(b)
    decreases |a|
  {
    if a != [] {
      var n := |a| - 1;
      var p := f[n];
      var rest := b[..p] + b[p + 1..];
      var g := seq(n, i requires 0 <= i < n => if f[i] < p then f[i] else f[i] - 1);
      forall i | 0 <= i < n
        ensures g[i] < |rest| && a[..n][i] == rest[g[i]]
      {
        assert f[i] != p;
      }
      forall i, j | 0 <= i < j < n
        ensures g[i] != g[j]
      {
        assert f[i] != p && f[j] != p;
      }
      Reindex(a[..n], rest, g);
      assert a == a[..n] + [a[n]];
      assert b == b[..p] + [b[p]] + b[p + 1..];
    }
  }
}
