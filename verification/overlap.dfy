/**
 * The overlap filter: every point whose column equals the column of some line
 * at the point's row is first marked with the sentinel -1 and then dropped,
 * together with its row, from the parallel arrays of columns and rows.
 */
module Overlap {
  import opened Grid

  /** The sentinel that marks a point for removal. */
  const Removed: int := -1

  /** One point of the grid: its column x and its row y. */
  datatype Point = Point(x: int, y: int)

  /** The point set as the script keeps it: parallel arrays of columns and rows. */
  datatype Points = Points(xs: seq<int>, ys: seq<int>)

  /** The points described by the parallel arrays `xs` and `ys`. */
  function Zip(xs: seq<int>, ys: seq<int>): (pts: seq<Point>)
    requires |xs| == |ys|
    ensures |pts| == |xs|
    ensures forall i :: 0 <= i < |xs| ==> pts[i] == Point(xs[i], ys[i])
  {
    seq(|xs|, i requires 0 <= i < |xs| => Point(xs[i], ys[i]))
  }

  /** The column of `p` equals the column of one of the lines at the row of `p`. */
  predicate OnSomeLine(p: Point, lines: seq<Line>)
  {
    RowDefined(lines, p.y) && p.x in ValuesAt(lines, p.y)
  }

  /** The marking loop: each column on a line is replaced by the sentinel. */
  function Mark(xs: seq<int>, ys: seq<int>, lines: seq<Line>): (marked: seq<int>)
    requires |xs| == |ys| && AllRowsDefined(ys, lines)
    ensures |marked| == |xs|
  {
    seq(|xs|, i requires 0 <= i < |xs| =>
      if OnSomeLine(Point(xs[i], ys[i]), lines) then Removed else xs[i])
  }

  /** The entries of `vals` at the positions whose mark is not the sentinel, in order. */
  function KeepWhere(vals: seq<int>, marked: seq<int>): (kept: seq<int>)
    requires |vals| == |marked|
    ensures |kept| <= |vals|
  {
    if |vals| == 0 then []
    else (if marked[0] != Removed then [vals[0]] else []) + KeepWhere(vals[1..], marked[1..])
  }

  /**
   * The filter as the script runs it: mark, then mask the rows with the
   * marked columns, then mask the marked columns themselves.
   */
  function FilterOverlaps(xs: seq<int>, ys: seq<int>, lines: seq<Line>): (r: Points)
    requires |xs| == |ys| && AllRowsDefined(ys, lines)
    ensures |r.xs| == |r.ys| <= |xs|
  {
    var marked := Mark(xs, ys, lines);
    KeepWhereSameLength(marked, ys, marked);
    Points(KeepWhere(marked, marked), KeepWhere(ys, marked))
  }

  lemma {:induction false} KeepWhereSameLength(a: seq<int>, b: seq<int>, marked: seq<int>)
    requires |a| == |b| == |marked|
    ensures |KeepWhere(a, marked)| == |KeepWhere(b, marked)|
  {
    if |a| > 0 {
      KeepWhereSameLength(a[1..], b[1..], marked[1..]);
    }
  }

  /** The intended filter: the points not on any line, in their original order. */
  function OffLine(pts: seq<Point>, lines: seq<Line>): (r: seq<Point>)
    ensures |r| <= |pts|
  {
    if |pts| == 0 then []
    else (if OnSomeLine(pts[0], lines) then [] else [pts[0]]) + OffLine(pts[1..], lines)
  }

  /** `a` can be obtained from `b` by deleting entries. */
  predicate Subsequence(a: seq<Point>, b: seq<Point>)
    decreases |b|
  {
    if |a| == 0 then true
    else if |b| == 0 then false
    else (a[0] == b[0] && Subsequence(a[1..], b[1..])) || Subsequence(a, b[1..])
  }

  /** A point survives the intended filter exactly when it is an input point on no line. */
  lemma {:induction false} OffLineMembers(pts: seq<Point>, lines: seq<Line>)
    ensures forall p :: p in OffLine(pts, lines) <==> p in pts && !OnSomeLine(p, lines)
  {
    if |pts| > 0 {
      OffLineMembers(pts[1..], lines);
      assert pts == [pts[0]] + pts[1..];
    }
  }

  /** The intended filter keeps the survivors in their original relative order. */
  lemma {:induction false} OffLineSubsequence(pts: seq<Point>, lines: seq<Line>)
    ensures Subsequence(OffLine(pts, lines), pts)
  {
    if |pts| > 0 {
      OffLineSubsequence(pts[1..], lines);
      var rest := OffLine(pts[1..], lines);
      if OnSomeLine(pts[0], lines) {
        assert OffLine(pts, lines) == rest;
      } else {
        assert OffLine(pts, lines) == [pts[0]] + rest;
        assert OffLine(pts, lines)[1..] == rest;
      }
    }
  }

  /** Marking and masking work entry by entry: the first point is kept or dropped on its own. */
  lemma FilterStep(xs: seq<int>, ys: seq<int>, lines: seq<Line>)
    requires |xs| == |ys| > 0 && AllRowsDefined(ys, lines)
    requires xs[0] != Removed
    ensures var r := FilterOverlaps(xs, ys, lines);
            var t := FilterOverlaps(xs[1..], ys[1..], lines);
            Zip(r.xs, r.ys) == (if OnSomeLine(Point(xs[0], ys[0]), lines) then [] else [Point(xs[0], ys[0])]) + Zip(t.xs, t.ys)
  {
    var marked := Mark(xs, ys, lines);
    assert Mark(xs[1..], ys[1..], lines) == marked[1..];
    var tailX := KeepWhere(marked[1..], marked[1..]);
    var tailY := KeepWhere(ys[1..], marked[1..]);
    KeepWhereSameLength(marked[1..], ys[1..], marked[1..]);
    if OnSomeLine(Point(xs[0], ys[0]), lines) {
      assert KeepWhere(marked, marked) == tailX;
      assert KeepWhere(ys, marked) == tailY;
    } else {
      assert KeepWhere(marked, marked) == [xs[0]] + tailX;
      assert KeepWhere(ys, marked) == [ys[0]] + tailY;
      assert Zip([xs[0]] + tailX, [ys[0]] + tailY) == [Point(xs[0], ys[0])] + Zip(tailX, tailY);
    }
  }

  /**
   * When every column is a real column (never the sentinel), the script's
   * filter keeps exactly the points on no line, as pairs, in order.
   */
  lemma {:induction false} FilterMatchesOffLine(xs: seq<int>, ys: seq<int>, lines: seq<Line>)
    requires |xs| == |ys| && AllRowsDefined(ys, lines)
    requires forall i :: 0 <= i < |xs| ==> xs[i] != Removed
    ensures var r := FilterOverlaps(xs, ys, lines);
            Zip(r.xs, r.ys) == OffLine(Zip(xs, ys), lines)
  {
    if |xs| > 0 {
      FilterStep(xs, ys, lines);
      FilterMatchesOffLine(xs[1..], ys[1..], lines);
      assert Zip(xs, ys)[1..] == Zip(xs[1..], ys[1..]);
    }
  }

  /**
   * On grid columns, the script's filter drops a point exactly when it lies
   * on a line, never keeps a point on a line, and keeps the survivors paired
   * with their rows and in their original order.
   */
  lemma FilterRemovesExactlyOverlaps(xs: seq<int>, ys: seq<int>, lines: seq<Line>)
    requires |xs| == |ys| && AllRowsDefined(ys, lines)
    requires forall i :: 0 <= i < |xs| ==> 0 <= xs[i]
    ensures var r := FilterOverlaps(xs, ys, lines);
            && (forall i :: 0 <= i < |xs| ==>
                  (Point(xs[i], ys[i]) in Zip(r.xs, r.ys) <==> !OnSomeLine(Point(xs[i], ys[i]), lines)))
            && (forall k :: 0 <= k < |r.xs| ==> !OnSomeLine(Point(r.xs[k], r.ys[k]), lines))
            && Subsequence(Zip(r.xs, r.ys), Zip(xs, ys))
  {
    var r := FilterOverlaps(xs, ys, lines);
    FilterMatchesOffLine(xs, ys, lines);
    OffLineMembers(Zip(xs, ys), lines);
    OffLineSubsequence(Zip(xs, ys), lines);
    forall i | 0 <= i < |xs|
      ensures Point(xs[i], ys[i]) in Zip(xs, ys)
    {
      assert Zip(xs, ys)[i] == Point(xs[i], ys[i]);
    }
    forall k | 0 <= k < |r.xs|
      ensures !OnSomeLine(Point(r.xs[k], r.ys[k]), lines)
    {
      assert Zip(r.xs, r.ys)[k] == Point(r.xs[k], r.ys[k]);
    }
  }

  /**
   * Every surviving point is one of the input points, so the survivors keep
   * the columns and rows the input had.
   */
  lemma FilterKeepsInputPoints(xs: seq<int>, ys: seq<int>, lines: seq<Line>)
    requires |xs| == |ys| && AllRowsDefined(ys, lines)
    requires forall i :: 0 <= i < |xs| ==> 0 <= xs[i]
    ensures var r := FilterOverlaps(xs, ys, lines);
            forall k :: 0 <= k < |r.xs| ==> exists i :: 0 <= i < |xs| && r.xs[k] == xs[i] && r.ys[k] == ys[i]
  {
    var r := FilterOverlaps(xs, ys, lines);
    FilterMatchesOffLine(xs, ys, lines);
    OffLineMembers(Zip(xs, ys), lines);
    forall k | 0 <= k < |r.xs|
      ensures exists i :: 0 <= i < |xs| && r.xs[k] == xs[i] && r.ys[k] == ys[i]
    {
      assert Zip(r.xs, r.ys)[k] in Zip(xs, ys);
      var i :| 0 <= i < |xs| && Zip(xs, ys)[i] == Zip(r.xs, r.ys)[k];
    }
  }

  /**
   * The sentinel is safe only because grid columns are never negative: a
   * column equal to -1 on no line would be dropped all the same.
   */
  lemma SentinelNeedsGridColumns()
    ensures !OnSomeLine(Point(-1, 0), [[0]])
    ensures FilterOverlaps([-1], [0], [[0]]).xs == []
    ensures OffLine(Zip([-1], [0]), [[0]]) == [Point(-1, 0)]
  {
  }
}
