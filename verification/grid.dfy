/**
 * The grid of the plotting script: points with integer coordinates and
 * periodic lines, each a sequence that gives a horizontal position for every
 * row of the grid.  The horizontal axis wraps around modulo the grid width.
 */
module Grid {

  /** A periodic line: its horizontal position at each row y. */
  type Line = seq<int>

  /** Every line has a value at row `y`, so `line[y]` is defined for all of them. */
  predicate RowDefined(lines: seq<Line>, y: int)
  {
    0 <= y && forall k :: 0 <= k < |lines| ==> y < |lines[k]|
  }

  /** Every row listed in `ys` is defined on every line. */
  predicate AllRowsDefined(ys: seq<int>, lines: seq<Line>)
  {
    forall i :: 0 <= i < |ys| ==> RowDefined(lines, ys[i])
  }

  /** Every value of `vs` lies in [0, n): a column of a grid of width `n`, or a position of a sequence of length `n`. */
  predicate InRange(vs: seq<int>, n: int)
  {
    forall i :: 0 <= i < |vs| ==> 0 <= vs[i] < n
  }

  /** Every value of every line is a column of a grid of width `n`. */
  predicate LinesInRange(lines: seq<Line>, n: int)
  {
    forall k :: 0 <= k < |lines| ==> InRange(lines[k], n)
  }

  /** The values of all lines at row `y`, in line order. */
  function ValuesAt(lines: seq<Line>, y: int): (col: seq<int>)
    requires RowDefined(lines, y)
    ensures |col| == |lines|
    ensures forall k :: 0 <= k < |lines| ==> col[k] == lines[k][y]
  {
    seq(|lines|, k requires 0 <= k < |lines| => lines[k][y])
  }
}
