# Zebra parity on a periodic grid — Dafny model

The script `test.py` scatters points on an `N × M` grid and draws four
periodic lines. Each line gives one column for every row. The script then
does three things:

1. **Overlap filter.** It drops every point whose column equals the column
   of some line at the point's row. It does this by overwriting the point's
   column with the sentinel `-1`, then masking both coordinate arrays by
   `X != -1`.
2. **Parity classifier (`find_parity`).** For each point it builds the row
   `(x, line1[y], …, line4[y])`. It computes the permutation that sorts this
   row (`argsort`) and labels the point with that permutation's parity:
   0 for even, 1 for odd.
3. **Periodic shift.** It moves every column of the points and of the
   lines by the same amount modulo `N`, then classifies again. The rows do
   not move. The script re-plots the labels after three shifts to
   illustrate that they do not change.

The model has one Dafny module per concern:

- `Grid` (`grid.dfy`): lines as sequences of columns, and what it means for
  a row or a column to be on the grid.
- `Permutations` (`permutations.dfy`): permutations of `0, …, n-1`,
  inversion counts, rotation and adjacent swaps, and how each affects the
  parity of the inversion count.
- `Sorting` (`argsort.dfy`): the sorting permutation of a row, built by
  stable insertion. The module proves it is the only permutation in sorted
  order that keeps equal values in position order, and that it has as many
  inversions as the row itself.
- `Overlap` (`overlap.dfy`): the mark-and-mask filter as written, plus a
  reference filter, and the lemmas that connect the two.
- `Parity` (`parity.dfy`): `find_parity`.
- `Shift` (`shift.dfy`): the modular shift and the shift-invariance theorem.
- `Script` (`script.dfy`): the three steps on one scene with four lines.

The central result is `Shift.FindParityShiftInvariant`. After any shift,
the sorting permutation of a row is a rotation of the old one: the columns
that wrap past the right edge move to the front in their old order. With
four lines a row has five entries. Rotating a sequence of odd length with
no repeated entries keeps the parity of its inversion count. So every label
survives every shift, not only the three shifts the script tries, as long
as the shifted values stay within the exact range of the script's number
types (see `Shift.ShiftLines` under "## Left out").
Under the stable tie rule this holds for every scene, including one where a
point shares a column with a line (`Script.ShiftKeepsLabels`). The overlap
filter does not change that; it only removes the ties that involve the point
itself.

## Model

| member | source | states |
|---|---|---|
| Overlap.FilterOverlaps | test.py:33-39 | masking the rows and the columns with the same marks leaves two arrays of equal length, no longer than the input |
| Overlap.FilterMatchesOffLine | test.py:33-39 | when no column equals the sentinel, the mark-and-mask filter yields exactly the input points on no line, as (column, row) pairs, in input order |
| Overlap.FilterRemovesExactlyOverlaps | test.py:33-39 | for grid columns, an input point survives if and only if it is on no line; no survivor is on a line; the survivors are a subsequence of the input |
| Overlap.FilterKeepsInputPoints | test.py:38-39 | every surviving (column, row) pair is one of the input pairs: masking Y before X keeps each row with its own column |
| Overlap.OffLineMembers | test.py:33-34 | the reference filter keeps a point exactly when it is an input point and lies on no line |
| Overlap.OffLineSubsequence | test.py:37-39 | the reference filter keeps survivors in their original relative order |
| Overlap.SentinelNeedsGridColumns | test.py:33-39 | the filter relies on columns never being -1: the point (-1, 0) is on no line yet is dropped, while the reference filter keeps it |
| Sorting.ArgSort | test.py:76 | the result lists every position of the row once; it reads the values in non-decreasing order; equal values keep their order of position |
| Sorting.ArgSortUnique | test.py:76 | any permutation in stable sorted order equals ArgSort, so the sort is fully determined |
| Sorting.DistinctValuesSortUniquely | test.py:76 | when the row has no repeated values, every permutation that reads them in non-decreasing order is ArgSort, whatever the tie rule |
| Sorting.ArgSortInversions | test.py:76-79 | the sorting permutation has exactly as many inversions as the row |
| Permutations.SortedNoInversions | test.py:79 | a non-decreasing sequence has no inversions |
| Permutations.SwapAdjacentInversions | test.py:79 | exchanging one strictly increasing adjacent pair of a sorted sequence creates exactly one inversion |
| Permutations.RotateParity | test.py:114-127 | rotating a sequence of odd length with no repeated entries keeps the parity of its inversion count |
| Parity.Label | test.py:76-79 | the label is 0 or 1, and it is the parity of the row's own inversion count |
| Parity.FindParity | test.py:71-81 | one label per point, in point order, each 0 or 1, each the inversion parity of the row (x, line values at y) |
| Parity.SortedRowIsEven | test.py:76-79 | a row already in order is sorted by the identity and is labelled even |
| Parity.AdjacentSwapIsOdd | test.py:76-79 | a sorted row with one increasing adjacent pair exchanged is labelled odd |
| Parity.ExampleLabel | test.py:76-79 | the row (3, 1, 4, 1, 5) is labelled odd |
| Parity.ExampleWithTie | test.py:76 | the row (3, 1, 4, 1, 5) sorts as positions (1, 3, 0, 2, 4): the two 1s stay in position order |
| Parity.ExampleSwapped | test.py:76-79 | the row (2, 1, 3, 4, 5) is labelled odd |
| Shift.Wrap | test.py:121 | a shifted column is back on the grid, in [0, N), and differs from the old column plus the shift by a multiple of N |
| Shift.ShiftAll | test.py:121 | shifting the point columns keeps their number; each new column is in [0, N) and is congruent modulo N to the old column plus the shift |
| Shift.ShiftAllDetermined | test.py:121 | those two facts fix the result: any in-range columns congruent to the old ones plus the shift are exactly the shifted columns |
| Shift.ShiftLines | test.py:122-125 | shifting the lines keeps the number of lines and each line's length; each new value is in [0, N) and congruent modulo N to the old value plus the shift |
| Shift.WrapCases | test.py:121 | a shifted grid column either moves right by s mod N, or moves right by s mod N and comes round by N |
| Shift.ShiftCompose | test.py:121-125 | shifting by s and then by t is the same as shifting by s + t |
| Shift.ShiftRoundTrip | test.py:121-125 | on grid columns, shifting by s and then by -s restores the original |
| Shift.RowShift | test.py:121-127 | the row built for a shifted point from the shifted lines is the original row with every entry shifted |
| Shift.ShiftedOrderIsRotation | test.py:121-127 | the sorting permutation of a shifted row of grid columns is a rotation of the original sorting permutation |
| Shift.LabelShiftInvariant | test.py:114-127 | for a row of odd length on the grid, every shift leaves the label unchanged |
| Shift.FindParityShiftInvariant | test.py:114-127 | with an even number of lines, find_parity on the shifted columns and lines gives the same labels as before the shift |
| Shift.EvenRowLengthCanFlip | test.py:114-127 | with rows of even length the invariance fails: the row (0, 1) shifted by 1 on a width-2 grid changes label |
| Script.RemoveOverlaps | test.py:32-39 | the filtered scene is still a valid scene on the same grid and lines; its points are exactly the original points on no line, in their original order: a point is kept if and only if it is on no line |
| Script.Labels | test.py:83 | one label, 0 or 1, per point of the scene, and each is the parity label of the row built from that point and the four lines |
| Script.ShiftScene | test.py:119-125 | a shifted scene is still valid on the same grid and its rows are unchanged; every point column and every line value moves to the grid column congruent modulo N to its old value plus the shift |
| Script.ShiftSceneRoundTrip | test.py:121-125 | shifting a scene by s and then by -s restores it |
| Script.ShiftKeepsLabels | test.py:119-127 | for the four-line scene, every shift leaves every point's label unchanged |
| Script.FilteredLabelsShiftInvariant | test.py:114-127 | after the overlapping points are removed, every shift leaves every remaining point's label unchanged |

## Left out

- Point sampling (test.py:13-18) is left out. Poisson-disk sampling and the scaling of floats to grid cells become a parameter: any columns in `[0, N)` and any rows defined on every line.
- Line generation (test.py:20-30) is left out: the sine wave, the random noise and the global seed. The lines are a parameter: four sequences of columns in `[0, N)`. The code truncates the wave with `dtype=int`.
- The line values are floats holding whole numbers, since integer wave plus float noise gives a float. They are modelled as integers. Before any shift every value is below `N`, so comparing them with integer columns is exact.
- Shift.ShiftLines, Shift.ShiftAll, Shift.FindParityShiftInvariant: Dafny's `int` is unbounded. The script's columns are 64-bit integers, which wrap near 2^63, and its lines are 64-bit floats, which round once `value + shift` reaches 2^53. So the model's shift matches the script only while `|value + shift| < 2^53`, which the script's shifts of at most `3*N//4` meet. For a larger shift, rounding can make a line value equal a point's column and change the label.
- The grid width `N = 500` is a parameter `n > 0`. The three shifts `N//4`, `N//2`, `3*N//4` (test.py:117) are replaced by every integer shift. Python's floored `%` and Dafny's `%` agree when the modulus is positive.
- All plotting and file output (test.py:41-66, 85-112, 128-150) is left out, because it has no logical content.
- Sorting.ArgSort: the code calls `np.argsort` with its default kind, and numpy does not guarantee that kind is stable. The model breaks ties by position, as a stable sort does. `Sorting.DistinctValuesSortUniquely` shows that the rule makes no difference when a row has no repeated values. With repeated values, the script's labels depend on numpy internals.
- Parity.Label: sympy computes a permutation's parity from its cycles. The model counts inversions instead. Both give the same parity, but the cycle algorithm itself is not modelled.
- Parity.FindParity: it requires at least one line. With no lines, `np.vstack` of an empty list raises an error, and that error path is not modelled.
- Rows outside a line's length are required away, as `AllRowsDefined`. Python would allow negative indices, but the script's rows are never negative.
