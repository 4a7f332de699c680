/**
 * The periodic shift: every column, of the points and of the lines alike, is
 * moved by the same amount and wrapped around modulo the grid width; rows are
 * left alone.  The labels of the parity classifier do not change.
 */
module Shift {
  import opened Grid
  import opened Permutations
  import opened Sorting
  import opened Parity

  /**
   * `v` moved `s` columns to the right on a grid of width `n`, wrapping
   * around: the one grid column that differs from `v + s` by a multiple of `n`.
   */
  function Wrap(v: int, s: int, n: int): (r: int)
    requires n > 0
    ensures 0 <= r < n
    ensures (r - v - s) % n == 0
  {
    var q := (v + s) / n;
    MultipleModZero(-q, n);
    (v + s) % n
  }

  /** A multiple of `n` leaves no remainder. */
  lemma MultipleModZero(q: int, n: int)
    requires n > 0
    ensures (q * n) % n == 0
  {
    ModUnique(q * n, n, q, 0);
  }

  /** Every value of `vs` moved by `s` on a grid of width `n`. */
  function ShiftAll(vs: seq<int>, s: int, n: int): (r: seq<int>)
    requires n > 0
    ensures |r| == |vs| && InRange(r, n)
    ensures forall i :: 0 <= i < |vs| ==> (r[i] - vs[i] - s) % n == 0
  {
    seq(|vs|, i requires 0 <= i < |vs| => Wrap(vs[i], s, n))
  }

  /** Every line moved by `s` on a grid of width `n`; each line keeps its length. */
  function ShiftLines(lines: seq<Line>, s: int, n: int): (r: seq<Line>)
    requires n > 0
    ensures |r| == |lines| && LinesInRange(r, n)
    ensures forall k :: 0 <= k < |lines| ==> |r[k]| == |lines[k]|
    ensures forall k, y :: 0 <= k < |lines| && 0 <= y < |lines[k]| ==> (r[k][y] - lines[k][y] - s) % n == 0
  {
    seq(|lines|, k requires 0 <= k < |lines| => ShiftAll(lines[k], s, n))
  }

  /** Two grid columns that differ by a multiple of `n` are the same column. */
  lemma SameColumn(a: int, b: int, n: int)
    requires n > 0 && 0 <= a < n && 0 <= b < n
    requires (a - b) % n == 0
    ensures a == b
  {
  }

  /**
   * The shift is determined by its contract: any grid columns, one per value
   * of `vs`, each congruent to that value plus `s`, are `ShiftAll(vs, s, n)`.
   */
  lemma ShiftAllDetermined(vs: seq<int>, s: int, n: int, w: seq<int>)
    requires n > 0 && |w| == |vs| && InRange(w, n)
    requires forall i :: 0 <= i < |vs| ==> (w[i] - vs[i] - s) % n == 0
    ensures w == ShiftAll(vs, s, n)
  {
    var r := ShiftAll(vs, s, n);
    forall i | 0 <= i < |vs|
      ensures w[i] == r[i]
    {
      var p := (w[i] - vs[i] - s) / n;
      var q := (r[i] - vs[i] - s) / n;
      assert w[i] - vs[i] - s == p * n;
      assert r[i] - vs[i] - s == q * n;
      assert w[i] - r[i] == (p - q) * n;
      MultipleModZero(p - q, n);
      SameColumn(w[i], r[i], n);
    }
  }

  /** A nonzero multiple of `n` is at least `n` away from zero. */
  lemma MultipleAwayFromZero(d: int, n: int)
    requires n > 0
    ensures d > 0 ==> d * n >= n
    ensures d < 0 ==> d * n <= -n
  {
  }

  /** The remainder modulo `n` is determined by any quotient/remainder decomposition. */
  lemma ModUnique(a: int, n: int, q: int, r: int)
    requires n > 0 && 0 <= r < n && a == q * n + r
    ensures a % n == r
  {
    var q0, r0 := a / n, a % n;
    assert a == q0 * n + r0;
    assert (q - q0) * n == r0 - r;
    MultipleAwayFromZero(q - q0, n);
  }

  /** Adding a multiple of `n` does not change a remainder modulo `n`. */
  lemma ModAddMultiple(a: int, q: int, n: int)
    requires n > 0
    ensures (a + q * n) % n == a % n
  {
    assert a + q * n == (a / n + q) * n + a % n;
    ModUnique(a + q * n, n, a / n + q, a % n);
  }

  /** Wrapping a column either adds the reduced shift, or adds it and comes round once. */
  lemma WrapCases(v: int, s: int, n: int)
    requires n > 0 && 0 <= v < n
    ensures Wrap(v, s, n) == if v < n - s % n then v + s % n else v + s % n - n
  {
    assert v + s == (s / n) * n + (v + s % n);
    if v < n - s % n {
      ModUnique(v + s, n, s / n, v + s % n);
    } else {
      ModUnique(v + s, n, s / n + 1, v + s % n - n);
    }
  }

  /** Two shifts in a row are one shift by the sum. */
  lemma WrapCompose(v: int, s: int, t: int, n: int)
    requires n > 0
    ensures Wrap(Wrap(v, s, n), t, n) == Wrap(v, s + t, n)
  {
    var q := (v + s) / n;
    assert v + s == q * n + (v + s) % n;
    assert v + s + t == ((v + s) % n + t) + q * n;
    ModAddMultiple((v + s) % n + t, q, n);
  }

  /** Shifting by `s` and then by `t` is shifting by `s + t`. */
  lemma ShiftCompose(vs: seq<int>, s: int, t: int, n: int)
    requires n > 0
    ensures ShiftAll(ShiftAll(vs, s, n), t, n) == ShiftAll(vs, s + t, n)
  {
    forall i | 0 <= i < |vs|
      ensures ShiftAll(ShiftAll(vs, s, n), t, n)[i] == ShiftAll(vs, s + t, n)[i]
    {
      WrapCompose(vs[i], s, t, n);
    }
  }

  /** Shifting grid columns by `s` and back by `-s` restores them. */
  lemma ShiftRoundTrip(vs: seq<int>, s: int, n: int)
    requires n > 0 && InRange(vs, n)
    ensures ShiftAll(ShiftAll(vs, s, n), -s, n) == vs
  {
    ShiftCompose(vs, s, -s, n);
    forall i | 0 <= i < |vs|
      ensures ShiftAll(vs, 0, n)[i] == vs[i]
    {
      ModUnique(vs[i], n, 0, vs[i]);
    }
  }

  /** Shifting the row of a point is building the row of the shifted point from the shifted lines. */
  lemma RowShift(x: int, y: int, lines: seq<Line>, s: int, n: int)
    requires n > 0 && RowDefined(lines, y)
    ensures RowDefined(ShiftLines(lines, s, n), y)
    ensures Row(Wrap(x, s, n), y, ShiftLines(lines, s, n)) == ShiftAll(Row(x, y, lines), s, n)
  {
  }

  /** The length of the longest prefix of `p` whose values in `row` lie below `t`. */
  function PrefixBelow(row: seq<int>, p: seq<int>, t: int): (k: nat)
    requires ValidPositions(row, p)
    ensures k <= |p|
    ensures forall a :: 0 <= a < k ==> row[p[a]] < t
    ensures k < |p| ==> row[p[k]] >= t
  {
    if |p| == 0 || row[p[0]] >= t then 0 else 1 + PrefixBelow(row, p[1..], t)
  }

  /**
   * In sorted order, the columns below `n - s % n` come first and move right
   * by `s % n`; the rest wrap around the right edge.
   */
  lemma ShiftedSortedValues(row: seq<int>, s: int, n: int, p: seq<int>)
    requires n > 0 && InRange(row, n)
    requires ValidPositions(row, p) && OrderedBy(row, p)
    ensures var k := PrefixBelow(row, p, n - s % n);
            forall a :: 0 <= a < |p| ==>
              ShiftAll(row, s, n)[p[a]] == if a < k then row[p[a]] + s % n else row[p[a]] + s % n - n
  {
    var k := PrefixBelow(row, p, n - s % n);
    forall a | 0 <= a < |p|
      ensures ShiftAll(row, s, n)[p[a]] == if a < k then row[p[a]] + s % n else row[p[a]] + s % n - n
    {
      WrapCases(row[p[a]], s, n);
      if a > k {
        assert Precedes(row, p[k], p[a]);
      }
    }
  }

  /**
   * A sorted list whose first `k` entries move up by `c` and whose other
   * entries move up by `c` and down by `n` is sorted again once the moved-down
   * part is put in front.
   */
  lemma RotationOrdered(row: seq<int>, w: seq<int>, p: seq<int>, k: nat, c: int, n: int)
    requires |w| == |row| && InRange(row, n) && 0 <= c
    requires ValidPositions(row, p) && OrderedBy(row, p) && k <= |p|
    requires forall a :: 0 <= a < |p| ==> w[p[a]] == if a < k then row[p[a]] + c else row[p[a]] + c - n
    ensures ValidPositions(w, Rotate(p, k))
    ensures OrderedBy(w, Rotate(p, k))
  {
  }

  /**
   * After a shift, the sorted order of a row of grid columns is a rotation
   * of the original sorted order: the columns that wrap past the right edge
   * move, in their old order, in front of those that do not.
   */
  lemma ShiftedOrderIsRotation(row: seq<int>, s: int, n: int)
    requires n > 0 && InRange(row, n)
    ensures exists k :: 0 <= k <= |row| && ArgSort(ShiftAll(row, s, n)) == Rotate(ArgSort(row), k)
  {
    var p := ArgSort(row);
    var w := ShiftAll(row, s, n);
    var k := PrefixBelow(row, p, n - s % n);
    var q := Rotate(p, k);
    ShiftedSortedValues(row, s, n, p);
    RotationOrdered(row, w, p, k, s % n, n);
    OrderedDistinct(w, q);
    forall x | 0 <= x < |row|
      ensures x in q
    {
      assert x in p;
    }
    ArgSortUnique(w, q);
  }

  /** The label of a row of grid columns of odd length does not change under any shift. */
  lemma LabelShiftInvariant(row: seq<int>, s: int, n: int)
    requires n > 0 && InRange(row, n)
    requires |row| % 2 == 1
    ensures Label(ShiftAll(row, s, n)) == Label(row)
  {
    ShiftedOrderIsRotation(row, s, n);
    var k :| 0 <= k <= |row| && ArgSort(ShiftAll(row, s, n)) == Rotate(ArgSort(row), k);
    RotateParity(ArgSort(row), k);
  }

  /**
   * With an even number of lines, so that every sorted row has odd length,
   * the classifier gives every point the same label after any shift of the
   * columns of the points and the lines.
   */
  lemma FindParityShiftInvariant(xs: seq<int>, ys: seq<int>, lines: seq<Line>, s: int, n: int)
    requires n > 0
    requires |xs| == |ys| && |lines| > 0 && AllRowsDefined(ys, lines)
    requires |lines| % 2 == 0
    requires InRange(xs, n) && LinesInRange(lines, n)
    ensures AllRowsDefined(ys, ShiftLines(lines, s, n))
    ensures FindParity(ShiftAll(xs, s, n), ys, ShiftLines(lines, s, n)) == FindParity(xs, ys, lines)
  {
    var shifted := ShiftLines(lines, s, n);
    forall i | 0 <= i < |xs|
      ensures RowDefined(shifted, ys[i])
      ensures FindParity(ShiftAll(xs, s, n), ys, shifted)[i] == FindParity(xs, ys, lines)[i]
    {
      var row := Row(xs[i], ys[i], lines);
      RowShift(xs[i], ys[i], lines, s, n);
      assert InRange(row, n) by {
        forall j | 0 <= j < |row|
          ensures 0 <= row[j] < n
        {
          if j > 0 {
            assert row[j] == lines[j - 1][ys[i]];
          }
        }
      }
      LabelShiftInvariant(row, s, n);
    }
  }

  /** With an odd number of lines the invariance fails: the row (0, 1) shifted by 1 on a grid of width 2 flips. */
  lemma EvenRowLengthCanFlip()
    ensures Label(ShiftAll([0, 1], 1, 2)) != Label([0, 1])
  {
  }
}
