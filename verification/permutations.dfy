/**
 * Permutations of 0, ..., n-1 and inversion counts of integer sequences.  The
 * parity of a permutation is the parity of its number of inversions; this
 * module also shows how that number changes under a rotation or an adjacent
 * swap.
 */
module Permutations {
  import opened Grid

  /** The number of entries of `s` strictly below `x`. */
  function CountBelow(x: int, s: seq<int>): (c: nat)
    ensures c <= |s|
  {
    if |s| == 0 then 0 else (if s[0] < x then 1 else 0) + CountBelow(x, s[1..])
  }

  /** The number of entries of `s` strictly above `x`. */
  function CountAbove(x: int, s: seq<int>): (c: nat)
    ensures c <= |s|
  {
    if |s| == 0 then 0 else (if s[0] > x then 1 else 0) + CountAbove(x, s[1..])
  }

  /** The number of pairs of positions i < j with s[i] > s[j]. */
  function Inversions(s: seq<int>): nat
  {
    if |s| == 0 then 0 else CountBelow(s[0], s[1..]) + Inversions(s[1..])
  }

  /** No value occurs twice in `s`. */
  predicate Distinct(s: seq<int>)
  {
    forall a, b :: 0 <= a < b < |s| ==> s[a] != s[b]
  }

  /** `s` is sorted in non-decreasing order. */
  predicate NonDecreasing(s: seq<int>)
  {
    forall a, b :: 0 <= a < b < |s| ==> s[a] <= s[b]
  }

  /** `p` lists each of 0, 1, ..., n-1 exactly once. */
  predicate IsPermutation(p: seq<int>, n: nat)
  {
    && |p| == n
    && Distinct(p)
    && InRange(p, n)
    && (forall x :: 0 <= x < n ==> x in p)
  }

  /** The identity permutation 0, 1, ..., n-1. */
  function Identity(n: nat): (p: seq<int>)
    ensures IsPermutation(p, n)
    ensures forall k :: 0 <= k < n ==> p[k] == k
  {
    var p := seq(n, k => k);
    IdentityCovers(p, n);
    p
  }

  lemma IdentityCovers(p: seq<int>, n: nat)
    requires |p| == n && forall k :: 0 <= k < n ==> p[k] == k
    ensures forall x :: 0 <= x < n ==> x in p
  {
    forall x | 0 <= x < n
      ensures x in p
    {
      assert p[x] == x;
    }
  }

  /** `s` rotated left by `k` places: the suffix from `k`, then the first `k` entries. */
  function Rotate(s: seq<int>, k: nat): (r: seq<int>)
    requires k <= |s|
    ensures |r| == |s|
    ensures forall x :: x in r <==> x in s
  {
    assert s == s[..k] + s[k..];
    s[k..] + s[..k]
  }

  /** `s` with the adjacent entries at `k` and `k + 1` exchanged. */
  function SwapAdjacent(s: seq<int>, k: nat): (r: seq<int>)
    requires k + 1 < |s|
    ensures |r| == |s|
  {
    s[..k] + [s[k + 1], s[k]] + s[k + 2..]
  }

  lemma {:induction false} CountBelowAppend(x: int, s: seq<int>, y: int)
    ensures CountBelow(x, s + [y]) == CountBelow(x, s) + (if y < x then 1 else 0)
  {
    if |s| == 0 {
      assert s + [y] == [y];
    } else {
      assert (s + [y])[1..] == s[1..] + [y];
      CountBelowAppend(x, s[1..], y);
    }
  }

  lemma {:induction false} CountAboveAppend(x: int, s: seq<int>, y: int)
    ensures CountAbove(x, s + [y]) == CountAbove(x, s) + (if y > x then 1 else 0)
  {
    if |s| == 0 {
      assert s + [y] == [y];
    } else {
      assert (s + [y])[1..] == s[1..] + [y];
      CountAboveAppend(x, s[1..], y);
    }
  }

  /** When every entry of `s` is below `x`, all of them are counted. */
  lemma {:induction false} CountBelowAll(x: int, s: seq<int>)
    requires forall k :: 0 <= k < |s| ==> s[k] < x
    ensures CountBelow(x, s) == |s|
  {
    if |s| > 0 {
      CountBelowAll(x, s[1..]);
    }
  }

  /** When no entry of `s` is below `x`, none is counted. */
  lemma {:induction false} CountBelowNone(x: int, s: seq<int>)
    requires forall k :: 0 <= k < |s| ==> x <= s[k]
    ensures CountBelow(x, s) == 0
  {
    if |s| > 0 {
      CountBelowNone(x, s[1..]);
    }
  }

  /** A value absent from `s` splits it into the entries below and the entries above. */
  lemma {:induction false} CountSplit(x: int, s: seq<int>)
    requires x !in s
    ensures CountBelow(x, s) + CountAbove(x, s) == |s|
  {
    if |s| > 0 {
      assert s == [s[0]] + s[1..];
      CountSplit(x, s[1..]);
    }
  }

  /** Appending `y` adds one inversion for every earlier entry above `y`. */
  lemma {:induction false} InversionsAppend(s: seq<int>, y: int)
    ensures Inversions(s + [y]) == Inversions(s) + CountAbove(y, s)
  {
    if |s| == 0 {
      assert s + [y] == [y];
    } else {
      assert (s + [y])[1..] == s[1..] + [y];
      CountBelowAppend(s[0], s[1..], y);
      InversionsAppend(s[1..], y);
    }
  }

  /** A sorted sequence has no inversions. */
  lemma {:induction false} SortedNoInversions(s: seq<int>)
    requires NonDecreasing(s)
    ensures Inversions(s) == 0
  {
    if |s| > 0 {
      CountBelowNone(s[0], s[1..]);
      SortedNoInversions(s[1..]);
    }
  }

  /** Exchanging the first two entries of a sorted sequence, the first strictly below the second, gives one inversion. */
  lemma SwapFirstInversions(s: seq<int>)
    requires NonDecreasing(s)
    requires 1 < |s| && s[0] < s[1]
    ensures Inversions(SwapAdjacent(s, 0)) == 1
  {
    var t := SwapAdjacent(s, 0);
    var tail := [s[0]] + s[2..];
    assert t == [s[1]] + tail;
    assert t[1..] == tail;
    CountBelowNone(s[1], s[2..]);
    assert tail[1..] == s[2..];
    assert CountBelow(s[1], tail) == 1;
    SortedNoInversions(tail);
  }

  /** Exchanging one adjacent strictly increasing pair of a sorted sequence gives exactly one inversion. */
  lemma {:induction false} SwapAdjacentInversions(s: seq<int>, k: nat)
    requires NonDecreasing(s)
    requires k + 1 < |s| && s[k] < s[k + 1]
    ensures Inversions(SwapAdjacent(s, k)) == 1
  {
    if k == 0 {
      SwapFirstInversions(s);
    } else {
      var t := SwapAdjacent(s, k);
      var u := SwapAdjacent(s[1..], k - 1);
      assert t == [s[0]] + u;
      assert t[1..] == u;
      CountBelowNone(s[0], u);
      SwapAdjacentInversions(s[1..], k - 1);
    }
  }

  /**
   * Moving the first entry `x` of an odd-length sequence `[x] + rest` to the
   * end keeps the parity of the number of inversions, provided `x` occurs once.
   */
  lemma RotateOneParity(x: int, rest: seq<int>)
    requires |rest| % 2 == 0
    requires x !in rest
    ensures Inversions(rest + [x]) % 2 == Inversions([x] + rest) % 2
  {
    assert ([x] + rest)[1..] == rest;
    InversionsAppend(rest, x);
    CountSplit(x, rest);
    SameParity(Inversions(rest + [x]), Inversions([x] + rest), Inversions(rest),
               CountBelow(x, rest), CountAbove(x, rest));
  }

  /** Two totals that share a base and split an even number two ways have equal parity. */
  lemma SameParity(left: int, right: int, base: int, below: int, above: int)
    requires left == base + above && right == below + base
    requires (below + above) % 2 == 0
    ensures left % 2 == right % 2
  {
  }

  /** Any rotation of an odd-length sequence of distinct values keeps the parity of its inversions. */
  lemma {:induction false} RotateParity(s: seq<int>, k: nat)
    requires Distinct(s) && |s| % 2 == 1 && k <= |s|
    ensures Inversions(Rotate(s, k)) % 2 == Inversions(s) % 2
  {
    if k == 0 {
      assert Rotate(s, 0) == s;
    } else {
      RotateParity(s, k - 1);
      var r := Rotate(s, k - 1);
      assert r[0] == s[k - 1];
      assert r[1..] == s[k..] + s[..k - 1];
      assert Rotate(s, k) == r[1..] + [r[0]];
      forall j | 0 <= j < |r| - 1
        ensures r[1..][j] != r[0]
      {
        if j < |s| - k {
          assert r[1..][j] == s[k + j];
        } else {
          assert r[1..][j] == s[j - (|s| - k)];
        }
      }
      assert r == [r[0]] + r[1..];
      RotateOneParity(r[0], r[1..]);
    }
  }
}
