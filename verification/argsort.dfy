/**
 * The sorting permutation of one row (numpy's `argsort` along a row), with
 * ties broken by position, so that the order is the one a stable sort gives.
 * Positions are sorted by inserting them one at a time, in increasing order,
 * into an already sorted list.
 */
module Sorting {
  import opened Grid
  import opened Permutations

  /** Position `i` sorts before position `j`: a smaller value, or the same value at an earlier position. */
  predicate Precedes(row: seq<int>, i: int, j: int)
    requires 0 <= i < |row| && 0 <= j < |row|
  {
    row[i] < row[j] || (row[i] == row[j] && i < j)
  }

  /** Every entry of `p` is a position of `row`. */
  predicate ValidPositions(row: seq<int>, p: seq<int>)
  {
    InRange(p, |row|)
  }

  /** The positions listed in `p` appear in strictly increasing stable sort order. */
  predicate OrderedBy(row: seq<int>, p: seq<int>)
    requires ValidPositions(row, p)
  {
    forall a, b :: 0 <= a < b < |p| ==> Precedes(row, p[a], p[b])
  }

  /** The first entry of a sorted list precedes every other entry. */
  lemma HeadPrecedes(row: seq<int>, p: seq<int>, x: int)
    requires ValidPositions(row, p) && OrderedBy(row, p)
    requires x in p
    ensures x == p[0] || Precedes(row, p[0], x)
  {
  }

  /** Inserts position `i` into `p` just before the first position that `i` precedes. */
  function Insert(row: seq<int>, p: seq<int>, i: int): (r: seq<int>)
    requires ValidPositions(row, p) && 0 <= i < |row|
    ensures |r| == |p| + 1
    ensures forall x :: x in r <==> x in p || x == i
    ensures ValidPositions(row, r)
    decreases |p|
  {
    if |p| == 0 || Precedes(row, i, p[0]) then [i] + p
    else [p[0]] + Insert(row, p[1..], i)
  }

  /** Inserting a new position into a sorted list keeps it sorted. */
  lemma {:induction false} InsertOrdered(row: seq<int>, p: seq<int>, i: int)
    requires ValidPositions(row, p) && 0 <= i < |row|
    requires OrderedBy(row, p) && i !in p
    ensures OrderedBy(row, Insert(row, p, i))
    decreases |p|
  {
    var r := Insert(row, p, i);
    if |p| == 0 {
    } else if Precedes(row, i, p[0]) {
      assert r == [i] + p;
      forall a, b | 0 <= a < b < |r|
        ensures Precedes(row, r[a], r[b])
      {
        if a == 0 && b > 1 {
          assert Precedes(row, p[0], p[b - 1]);
        }
      }
    } else {
      var t := Insert(row, p[1..], i);
      InsertOrdered(row, p[1..], i);
      assert r == [p[0]] + t;
      assert p[0] != i;
      forall a, b | 0 <= a < b < |r|
        ensures Precedes(row, r[a], r[b])
      {
        if a == 0 {
          assert r[b] == t[b - 1];
          assert t[b - 1] in t;
          if t[b - 1] != i {
            assert t[b - 1] in p[1..];
            var c :| 0 <= c < |p[1..]| && p[1..][c] == t[b - 1];
            assert Precedes(row, p[0], p[c + 1]);
          }
        } else {
          assert r[a] == t[a - 1] && r[b] == t[b - 1];
        }
      }
    }
  }

  /** Positions 0, ..., n-1 of `row`, sorted. */
  function SortPrefix(row: seq<int>, n: nat): (p: seq<int>)
    requires n <= |row|
    ensures ValidPositions(row, p)
    ensures OrderedBy(row, p)
    ensures IsPermutation(p, n)
  {
    if n == 0 then []
    else
      var q := SortPrefix(row, n - 1);
      InsertNext(row, q, n - 1);
      Insert(row, q, n - 1)
  }

  /** Inserting position n into a sorted permutation of 0..n-1 gives a sorted permutation of 0..n. */
  lemma InsertNext(row: seq<int>, q: seq<int>, n: nat)
    requires n < |row|
    requires ValidPositions(row, q) && OrderedBy(row, q) && IsPermutation(q, n)
    ensures OrderedBy(row, Insert(row, q, n))
    ensures IsPermutation(Insert(row, q, n), n + 1)
  {
    InsertOrdered(row, q, n);
    var r := Insert(row, q, n);
    OrderedDistinct(row, r);
    forall k | 0 <= k < |r|
      ensures 0 <= r[k] < n + 1
    {
      assert r[k] in r;
    }
  }

  /** A sorted list of positions has no repeated position. */
  lemma OrderedDistinct(row: seq<int>, p: seq<int>)
    requires ValidPositions(row, p) && OrderedBy(row, p)
    ensures Distinct(p)
  {
  }

  /**
   * The sorting permutation of `row`: it lists every position once, in an
   * order that reads the values of `row` in non-decreasing order, with equal
   * values kept in their original order.
   */
  function ArgSort(row: seq<int>): (p: seq<int>)
    ensures IsPermutation(p, |row|)
    ensures ValidPositions(row, p)
    ensures OrderedBy(row, p)
    ensures forall a, b :: 0 <= a < b < |p| ==> row[p[a]] <= row[p[b]]
  {
    SortPrefix(row, |row|)
  }

  /** Two sorted lists of the same positions are equal. */
  lemma {:induction false} OrderedUnique(row: seq<int>, p: seq<int>, q: seq<int>)
    requires ValidPositions(row, p) && ValidPositions(row, q)
    requires OrderedBy(row, p) && OrderedBy(row, q)
    requires |p| == |q| && forall x :: x in p <==> x in q
    ensures p == q
    decreases |p|
  {
    if |p| == 0 {
      assert q == [];
    } else {
      assert p[0] in q;
      assert q[0] in p;
      HeadPrecedes(row, p, q[0]);
      HeadPrecedes(row, q, p[0]);
      assert p[0] == q[0];
      assert p == [p[0]] + p[1..];
      assert q == [q[0]] + q[1..];
      forall x
        ensures x in p[1..] <==> x in q[1..]
      {
        if x in p[1..] {
          var a :| 0 <= a < |p[1..]| && p[1..][a] == x;
          assert Precedes(row, p[0], p[a + 1]);
          assert x in q;
          var b :| 0 <= b < |q| && q[b] == x;
          assert b != 0;
          assert q[1..][b - 1] == x;
        }
        if x in q[1..] {
          var b :| 0 <= b < |q[1..]| && q[1..][b] == x;
          assert Precedes(row, q[0], q[b + 1]);
          assert x in p;
          var a :| 0 <= a < |p| && p[a] == x;
          assert a != 0;
          assert p[1..][a - 1] == x;
        }
      }
      OrderedUnique(row, p[1..], q[1..]);
    }
  }

  /** ArgSort is the only permutation that lists the positions in stable sort order. */
  lemma ArgSortUnique(row: seq<int>, p: seq<int>)
    requires IsPermutation(p, |row|)
    requires ValidPositions(row, p) && OrderedBy(row, p)
    ensures p == ArgSort(row)
  {
    OrderedUnique(row, p, ArgSort(row));
  }

  /**
   * When the values of `row` are pairwise distinct, every permutation that
   * reads them in non-decreasing order is ArgSort, whatever rule a sort uses
   * for ties.
   */
  lemma DistinctValuesSortUniquely(row: seq<int>, p: seq<int>)
    requires Distinct(row)
    requires IsPermutation(p, |row|) && ValidPositions(row, p)
    requires forall a, b :: 0 <= a < b < |p| ==> row[p[a]] <= row[p[b]]
    ensures p == ArgSort(row)
  {
    forall a, b | 0 <= a < b < |p|
      ensures Precedes(row, p[a], p[b])
    {
      assert p[a] != p[b];
      assert row[p[a]] != row[p[b]];
    }
    ArgSortUnique(row, p);
  }

  /** The number of entries of `p` whose value in `row` is above `c`. */
  function CountValuesAbove(row: seq<int>, p: seq<int>, c: int): nat
    requires ValidPositions(row, p)
  {
    if |p| == 0 then 0
    else (if row[p[0]] > c then 1 else 0) + CountValuesAbove(row, p[1..], c)
  }

  lemma {:induction false} CountValuesAboveAll(row: seq<int>, p: seq<int>, c: int)
    requires ValidPositions(row, p)
    requires forall k :: 0 <= k < |p| ==> row[p[k]] > c
    ensures CountValuesAbove(row, p, c) == |p|
  {
    if |p| > 0 {
      CountValuesAboveAll(row, p[1..], c);
    }
  }

  lemma {:induction false} InsertCountValuesAbove(row: seq<int>, p: seq<int>, i: int, c: int)
    requires ValidPositions(row, p) && 0 <= i < |row|
    ensures CountValuesAbove(row, Insert(row, p, i), c)
         == CountValuesAbove(row, p, c) + (if row[i] > c then 1 else 0)
    decreases |p|
  {
    if |p| == 0 || Precedes(row, i, p[0]) {
      assert Insert(row, p, i)[1..] == p;
    } else {
      assert Insert(row, p, i)[1..] == Insert(row, p[1..], i);
      InsertCountValuesAbove(row, p[1..], i, c);
    }
  }

  lemma {:induction false} InsertCountBelow(row: seq<int>, p: seq<int>, i: int, x: int)
    requires ValidPositions(row, p) && 0 <= i < |row|
    ensures CountBelow(x, Insert(row, p, i)) == CountBelow(x, p) + (if i < x then 1 else 0)
    decreases |p|
  {
    if |p| == 0 || Precedes(row, i, p[0]) {
      assert Insert(row, p, i)[1..] == p;
    } else {
      assert Insert(row, p, i)[1..] == Insert(row, p[1..], i);
      InsertCountBelow(row, p[1..], i, x);
    }
  }

  /**
   * Inserting a position larger than every listed one adds one inversion for
   * each listed position whose value is above the new one.
   */
  lemma {:induction false} InsertInversions(row: seq<int>, p: seq<int>, i: int)
    requires ValidPositions(row, p) && 0 <= i < |row|
    requires OrderedBy(row, p)
    requires forall k :: 0 <= k < |p| ==> p[k] < i
    ensures Inversions(Insert(row, p, i)) == Inversions(p) + CountValuesAbove(row, p, row[i])
    decreases |p|
  {
    if |p| == 0 {
    } else if Precedes(row, i, p[0]) {
      assert Insert(row, p, i) == [i] + p;
      assert ([i] + p)[1..] == p;
      CountBelowAll(i, p);
      forall k | 0 <= k < |p|
        ensures row[p[k]] > row[i]
      {
        if k > 0 {
          assert Precedes(row, p[0], p[k]);
        }
      }
      CountValuesAboveAll(row, p, row[i]);
    } else {
      var r := Insert(row, p[1..], i);
      assert Insert(row, p, i) == [p[0]] + r;
      assert ([p[0]] + r)[1..] == r;
      InsertCountBelow(row, p[1..], i, p[0]);
      InsertInversions(row, p[1..], i);
    }
  }

  /** Adding position `n` to a list counted like `row[..n]` counts like `row[..n + 1]`. */
  lemma InsertStepCount(row: seq<int>, q: seq<int>, n: nat, c: int)
    requires n < |row| && ValidPositions(row, q)
    requires CountValuesAbove(row, q, c) == CountAbove(c, row[..n])
    ensures CountValuesAbove(row, Insert(row, q, n), c) == CountAbove(c, row[..n + 1])
  {
    InsertCountValuesAbove(row, q, n, c);
    assert row[..n + 1] == row[..n] + [row[n]];
    CountAboveAppend(c, row[..n], row[n]);
  }

  lemma {:induction false} SortPrefixCountValuesAbove(row: seq<int>, n: nat, c: int)
    requires n <= |row|
    ensures CountValuesAbove(row, SortPrefix(row, n), c) == CountAbove(c, row[..n])
  {
    if n > 0 {
      SortPrefixCountValuesAbove(row, n - 1, c);
      InsertStepCount(row, SortPrefix(row, n - 1), n - 1, c);
    } else {
      assert row[..0] == [];
    }
  }

  /** Adding position `n` to a sorted list with the inversions of `row[..n]` gives those of `row[..n + 1]`. */
  lemma InsertStepInversions(row: seq<int>, q: seq<int>, n: nat)
    requires n < |row| && ValidPositions(row, q) && OrderedBy(row, q)
    requires forall k :: 0 <= k < |q| ==> q[k] < n
    requires Inversions(q) == Inversions(row[..n])
    requires CountValuesAbove(row, q, row[n]) == CountAbove(row[n], row[..n])
    ensures Inversions(Insert(row, q, n)) == Inversions(row[..n + 1])
  {
    InsertInversions(row, q, n);
    assert row[..n + 1] == row[..n] + [row[n]];
    InversionsAppend(row[..n], row[n]);
  }

  lemma {:induction false} SortPrefixInversions(row: seq<int>, n: nat)
    requires n <= |row|
    ensures Inversions(SortPrefix(row, n)) == Inversions(row[..n])
  {
    if n > 0 {
      var q := SortPrefix(row, n - 1);
      SortPrefixInversions(row, n - 1);
      SortPrefixCountValuesAbove(row, n - 1, row[n - 1]);
      forall k | 0 <= k < |q|
        ensures q[k] < n - 1
      {
        assert q[k] in q;
      }
      InsertStepInversions(row, q, n - 1);
    } else {
      assert row[..0] == [];
    }
  }

  /** The sorting permutation of a row has exactly as many inversions as the row itself. */
  lemma ArgSortInversions(row: seq<int>)
    ensures Inversions(ArgSort(row)) == Inversions(row)
  {
    SortPrefixInversions(row, |row|);
    assert row[..|row|] == row;
  }
}
