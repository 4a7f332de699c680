/**
 * The parity classifier: each point gets the parity of the permutation that
 * sorts the row made of its column followed by the column of every line at
 * the point's row; 0 for an even permutation, 1 for an odd one.
 */
module Parity {
  import opened Grid
  import opened Permutations
  import opened Sorting

  /** The row the classifier sorts for a point: its column, then each line's column at its row. */
  function Row(x: int, y: int, lines: seq<Line>): (row: seq<int>)
    requires RowDefined(lines, y)
    ensures |row| == |lines| + 1
    ensures row[0] == x && row[1..] == ValuesAt(lines, y)
  {
    [x] + ValuesAt(lines, y)
  }

  /** The parity of the sorting permutation of `row`, taken as its number of inversions modulo 2. */
  function Label(row: seq<int>): (l: int)
    ensures l == 0 || l == 1
    ensures l == Inversions(row) % 2
  {
    ArgSortInversions(row);
    Inversions(ArgSort(row)) % 2
  }

  /** One label per point, in point order. */
  function FindParity(xs: seq<int>, ys: seq<int>, lines: seq<Line>): (labels: seq<int>)
    requires |xs| == |ys| && |lines| > 0 && AllRowsDefined(ys, lines)
    ensures |labels| == |xs|
    ensures forall i :: 0 <= i < |xs| ==> labels[i] == 0 || labels[i] == 1
    ensures forall i :: 0 <= i < |xs| ==> labels[i] == Inversions(Row(xs[i], ys[i], lines)) % 2
  {
    seq(|xs|, i requires 0 <= i < |xs| => Label(Row(xs[i], ys[i], lines)))
  }

  /** A row already in non-decreasing order is sorted by the identity, which is even. */
  lemma SortedRowIsEven(row: seq<int>)
    requires NonDecreasing(row)
    ensures ArgSort(row) == Identity(|row|)
    ensures Label(row) == 0
  {
    var id := Identity(|row|);
    forall a, b | 0 <= a < b < |id|
      ensures Precedes(row, id[a], id[b])
    {
      assert id[a] == a && id[b] == b;
    }
    ArgSortUnique(row, id);
    SortedNoInversions(row);
  }

  /** A sorted row with one adjacent strictly increasing pair exchanged is labelled odd. */
  lemma AdjacentSwapIsOdd(sorted: seq<int>, k: nat)
    requires NonDecreasing(sorted)
    requires k + 1 < |sorted| && sorted[k] < sorted[k + 1]
    ensures Label(SwapAdjacent(sorted, k)) == 1
  {
    SwapAdjacentInversions(sorted, k);
  }

  /** The row (3, 1, 4, 1, 5) has three inversions, so its label is odd. */
  lemma ExampleLabel()
    ensures Label([3, 1, 4, 1, 5]) == 1
  {
    assert [3, 1, 4, 1, 5][1..] == [1, 4, 1, 5];
    assert [1, 4, 1, 5][1..] == [4, 1, 5];
    assert [4, 1, 5][1..] == [1, 5];
    assert [1, 5][1..] == [5];
    assert Inversions([1, 5]) == 0;
    assert Inversions([4, 1, 5]) == 1;
    assert Inversions([1, 4, 1, 5]) == 1;
    assert Inversions([3, 1, 4, 1, 5]) == 3;
  }

  /** Sorting (3, 1, 4, 1, 5) keeps the two 1s in their original order. */
  lemma ExampleWithTie()
    ensures ArgSort([3, 1, 4, 1, 5]) == [1, 3, 0, 2, 4]
  {
    var row := [3, 1, 4, 1, 5];
    var p := [1, 3, 0, 2, 4];
    assert forall x :: 0 <= x < 5 ==> x in p;
    assert OrderedBy(row, p);
    ArgSortUnique(row, p);
  }

  /** The row (2, 1, 3, 4, 5) is one adjacent swap away from sorted, so its label is odd. */
  lemma ExampleSwapped()
    ensures Label([2, 1, 3, 4, 5]) == 1
  {
    assert [2, 1, 3, 4, 5][1..] == [1, 3, 4, 5];
    assert [1, 3, 4, 5][1..] == [3, 4, 5];
    assert [3, 4, 5][1..] == [4, 5];
    assert [4, 5][1..] == [5];
    assert Inversions([4, 5]) == 0;
    assert Inversions([3, 4, 5]) == 0;
    assert Inversions([1, 3, 4, 5]) == 0;
    assert Inversions([2, 1, 3, 4, 5]) == 1;
  }
}
