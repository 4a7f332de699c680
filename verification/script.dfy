/**
 * The three steps of the script on one scene: drop the points that lie on a
 * line, label the remaining points by parity, and label them again after
 * shifting every column through the periodic boundary.
 */
module Script {
  import opened Grid
  import opened Overlap
  import opened Parity
  import opened Shift

  /** The script draws four periodic lines. */
  const LineCount: nat := 4

  /** A grid of the given width, the sampled points as parallel arrays, and the lines. */
  datatype Scene = Scene(width: int, xs: seq<int>, ys: seq<int>, lines: seq<Line>)
  {
    /**
     * What the script's construction guarantees: sampled columns and line
     * values are columns of the grid, and every sampled row exists on every line.
     */
    predicate Valid()
    {
      && width > 0
      && |xs| == |ys|
      && |lines| == LineCount
      && InRange(xs, width)
      && LinesInRange(lines, width)
      && AllRowsDefined(ys, lines)
    }
  }

  /**
   * Step 1: the points that lie on some line are removed, and only those:
   * the survivors are the points on no line, in their original order.
   */
  function RemoveOverlaps(sc: Scene): (r: Scene)
    requires sc.Valid()
    ensures r.Valid()
    ensures r.width == sc.width && r.lines == sc.lines
    ensures Zip(r.xs, r.ys) == OffLine(Zip(sc.xs, sc.ys), sc.lines)
    ensures forall i :: 0 <= i < |sc.xs| ==>
              (Point(sc.xs[i], sc.ys[i]) in Zip(r.xs, r.ys) <==> !OnSomeLine(Point(sc.xs[i], sc.ys[i]), sc.lines))
    ensures forall k :: 0 <= k < |r.xs| ==> !OnSomeLine(Point(r.xs[k], r.ys[k]), r.lines)
    ensures Subsequence(Zip(r.xs, r.ys), Zip(sc.xs, sc.ys))
  {
    var kept := FilterOverlaps(sc.xs, sc.ys, sc.lines);
    FilterMatchesOffLine(sc.xs, sc.ys, sc.lines);
    FilterRemovesExactlyOverlaps(sc.xs, sc.ys, sc.lines);
    FilterKeepsInputPoints(sc.xs, sc.ys, sc.lines);
    Scene(sc.width, kept.xs, kept.ys, sc.lines)
  }

  /** Step 2: one parity label per point, the parity of the row built for that point. */
  function Labels(sc: Scene): (labels: seq<int>)
    requires sc.Valid()
    ensures |labels| == |sc.xs|
    ensures forall i :: 0 <= i < |labels| ==> labels[i] == 0 || labels[i] == 1
    ensures forall i :: 0 <= i < |labels| ==> labels[i] == Label(Row(sc.xs[i], sc.ys[i], sc.lines))
  {
    FindParity(sc.xs, sc.ys, sc.lines)
  }

  /**
   * Step 3: every column of the points and of the lines moves by `s`,
   * wrapping around: each new column is the grid column congruent to the old
   * one plus `s`.
   */
  function ShiftScene(sc: Scene, s: int): (r: Scene)
    requires sc.Valid()
    ensures r.Valid()
    ensures r.width == sc.width && r.ys == sc.ys
    ensures forall i :: 0 <= i < |sc.xs| ==> (r.xs[i] - sc.xs[i] - s) % sc.width == 0
    ensures forall k :: 0 <= k < |sc.lines| ==> |r.lines[k]| == |sc.lines[k]|
    ensures forall k, y :: 0 <= k < |sc.lines| && 0 <= y < |sc.lines[k]| ==>
              (r.lines[k][y] - sc.lines[k][y] - s) % sc.width == 0
  {
    Scene(sc.width, ShiftAll(sc.xs, s, sc.width), sc.ys, ShiftLines(sc.lines, s, sc.width))
  }

  /** Shifting a scene by `s` and back by `-s` restores it. */
  lemma ShiftSceneRoundTrip(sc: Scene, s: int)
    requires sc.Valid()
    ensures ShiftScene(ShiftScene(sc, s), -s) == sc
  {
    ShiftRoundTrip(sc.xs, s, sc.width);
    var back := ShiftLines(ShiftLines(sc.lines, s, sc.width), -s, sc.width);
    forall k | 0 <= k < |sc.lines|
      ensures back[k] == sc.lines[k]
    {
      ShiftRoundTrip(sc.lines[k], s, sc.width);
    }
  }

  /** Shifting a scene leaves every point's label unchanged. */
  lemma ShiftKeepsLabels(sc: Scene, s: int)
    requires sc.Valid()
    ensures Labels(ShiftScene(sc, s)) == Labels(sc)
  {
    FindParityShiftInvariant(sc.xs, sc.ys, sc.lines, s, sc.width);
  }

  /**
   * The property the script illustrates: after the overlapping points are
   * removed, every shift through the periodic boundary gives each remaining
   * point the label it had before the shift.
   */
  lemma FilteredLabelsShiftInvariant(sc: Scene, s: int)
    requires sc.Valid()
    ensures Labels(ShiftScene(RemoveOverlaps(sc), s)) == Labels(RemoveOverlaps(sc))
  {
    ShiftKeepsLabels(RemoveOverlaps(sc), s);
  }
}
