/** The in-place sorts of package tss (sort.go): a quicksort with a Lomuto
    partition around the last element, and a quadratic exchange sort that is
    repeated until a run makes no swap. Both order intervals by `start` and
    change the buffer only by swapping two of its elements. */
module Sorting {
  import opened Intervals

  /** Non-decreasing by `start` over the whole sequence. */
  predicate Sorted(s: seq<Interval>)
  {
    forall i, j :: 0 <= i <= j < |s| ==> s[i].start <= s[j].start
  }

  /** Non-decreasing by `start` over the closed index range [lo, hi]. */
  predicate SortedWithin(s: seq<Interval>, lo: int, hi: int)
  {
    forall i, j :: 0 <= lo <= i <= j <= hi < |s| ==> s[i].start <= s[j].start
  }

  /** Every element in the index range [lo, hi) starts strictly before `p`. */
  predicate StartsBelow(s: seq<Interval>, lo: int, hi: int, p: int)
  {
    forall k :: lo <= k < hi && 0 <= k < |s| ==> s[k].start < p
  }

  /** Every element in the index range [lo, hi) starts at or after `p`. */
  predicate StartsAtLeast(s: seq<Interval>, lo: int, hi: int, p: int)
  {
    forall k :: lo <= k < hi && 0 <= k < |s| ==> s[k].start >= p
  }

  /** The sequence of start values, in order. */
  function Starts(s: seq<Interval>): seq<int>
  {
    seq(|s|, i requires 0 <= i < |s| => s[i].start)
  }

  /** Non-decreasing sequence of integers. */
  predicate NonDecreasing(u: seq<int>)
  {
    forall i, j :: 0 <= i <= j < |u| ==> u[i] <= u[j]
  }

  /** `s` and `t` have the same length and the same element at every index
      outside the closed range [lo, hi]. */
  predicate SameOutside(s: seq<Interval>, t: seq<Interval>, lo: int, hi: int)
  {
    |s| == |t| && forall k :: 0 <= k < |s| && !(lo <= k <= hi) ==> s[k] == t[k]
  }

  /** `after` is `before` with the closed range [lo, hi] sorted by start: only
      that range is reordered, and no element is gained or lost. */
  predicate SortedRangeOf(before: seq<Interval>, after: seq<Interval>, lo: int, hi: int)
  {
    && SameOutside(after, before, lo, hi)
    && multiset(after) == multiset(before)
    && (0 <= lo <= hi + 1 <= |before| ==>
          multiset(after[lo..hi + 1]) == multiset(before[lo..hi + 1]))
    && SortedWithin(after, lo, hi)
  }

  /** `after` is `before` split around a pivot at index `split` of the closed
      range [start, end]: the pivot is the element that was last in the range,
      elements before it start strictly earlier, elements after it do not, and
      only the range was reordered. */
  predicate PartitionedAt(before: seq<Interval>, after: seq<Interval>, start: int, split: int, end: int)
  {
    && 0 <= start <= split <= end < |before|
    && SameOutside(after, before, start, end)
    && multiset(after) == multiset(before)
    && after[split] == before[end]
    && StartsBelow(after, start, split, after[split].start)
    && StartsAtLeast(after, split + 1, end + 1, after[split].start)
  }

  // ---------------------------------------------------------------------------
  // Facts about permutations used by both sorts

  /** Reordering a sequence keeps any bound that holds of all its elements. */
  lemma PermutationKeepsBounds(s: seq<Interval>, t: seq<Interval>, p: int)
    requires multiset(s) == multiset(t)
    ensures StartsBelow(s, 0, |s|, p) ==> StartsBelow(t, 0, |t|, p)
    ensures StartsAtLeast(s, 0, |s|, p) ==> StartsAtLeast(t, 0, |t|, p)
  {
    forall k | 0 <= k < |t| ensures t[k] in s {
      assert t[k] in multiset(t);
    }
  }

  /** Two sequences that are permutations of each other and agree outside
      [lo, hi) hold permutations of each other inside [lo, hi). */
  lemma RangePermutation(s: seq<Interval>, t: seq<Interval>, lo: int, hi: int)
    requires 0 <= lo <= hi <= |s|
    requires SameOutside(s, t, lo, hi - 1)
    requires multiset(s) == multiset(t)
    ensures multiset(s[lo..hi]) == multiset(t[lo..hi])
  {
    assert s[..lo] == t[..lo] && s[hi..] == t[hi..] by {
      assert forall k :: 0 <= k < lo ==> s[..lo][k] == s[k] && t[..lo][k] == t[k];
      assert forall k :: 0 <= k < |s| - hi ==> s[hi..][k] == s[hi + k] && t[hi..][k] == t[hi + k];
    }
    RangePermutationSplit(s, t, lo, hi);
  }

  /** RangePermutation, with the agreement outside the range given as equal
      prefix and suffix. */
  lemma RangePermutationSplit(s: seq<Interval>, t: seq<Interval>, lo: int, hi: int)
    requires |s| == |t| && 0 <= lo <= hi <= |s|
    requires s[..lo] == t[..lo] && s[hi..] == t[hi..]
    requires multiset(s) == multiset(t)
    ensures multiset(s[lo..hi]) == multiset(t[lo..hi])
  {
    var front, back := s[..lo], s[hi..];
    var outside := multiset(front) + multiset(back);
    assert multiset(s) == multiset(s[lo..hi]) + outside by {
      assert s == front + s[lo..hi] + back;
    }
    assert multiset(t) == multiset(t[lo..hi]) + outside by {
      assert front == t[..lo] && back == t[hi..];
      assert t == front + t[lo..hi] + back;
    }
    assert multiset(s[lo..hi]) == multiset(s) - outside;
    assert multiset(t[lo..hi]) == multiset(t) - outside;
  }

  /** Starts distributes over concatenation. */
  lemma StartsConcat(a: seq<Interval>, b: seq<Interval>)
    ensures Starts(a + b) == Starts(a) + Starts(b)
  {
  }

  /** Reordering the intervals reorders their start values alike. */
  lemma {:induction false} StartsOfPermutation(s: seq<Interval>, t: seq<Interval>)
    requires multiset(s) == multiset(t)
    ensures multiset(Starts(s)) == multiset(Starts(t))
    decreases |s|
  {
    if s == [] {
      assert |multiset(t)| == 0;
    } else {
      var x := s[0];
      assert x in multiset(t);
      var k :| 0 <= k < |t| && t[k] == x;
      var rest := t[..k] + t[k+1..];
      assert t == t[..k] + [x] + t[k+1..];
      assert multiset(t) == multiset(t[..k]) + multiset{x} + multiset(t[k+1..]);
      assert s == [x] + s[1..];
      assert multiset(s) == multiset{x} + multiset(s[1..]);
      assert multiset(rest) == multiset(t[..k]) + multiset(t[k+1..]);
      assert multiset(s[1..]) == multiset(s) - multiset{x};
      assert multiset(rest) == multiset(t) - multiset{x};
      StartsOfPermutation(s[1..], rest);
      StartsConcat([x], s[1..]);
      StartsConcat(t[..k], [x]);
      StartsConcat(t[..k] + [x], t[k+1..]);
      StartsConcat(t[..k], t[k+1..]);
    }
  }

  /** The first element of a non-decreasing sequence is a least element. */
  lemma HeadIsLeast(u: seq<int>, x: int)
    requires NonDecreasing(u)
    requires x in multiset(u)
    ensures |u| > 0 && u[0] <= x
  {
    var i :| 0 <= i < |u| && u[i] == x;
  }

  /** Two non-decreasing arrangements of one multiset begin with the same value. */
  lemma SameHead(u: seq<int>, v: seq<int>)
    requires NonDecreasing(u) && NonDecreasing(v)
    requires multiset(u) == multiset(v)
    requires |u| > 0
    ensures |v| == |u| && u[0] == v[0]
  {
    assert |multiset(v)| == |u|;
    assert u[0] in multiset(v);
    HeadIsLeast(v, u[0]);
    HeadIsLeast(u, v[0]);
  }

  /** Dropping the head keeps a sequence non-decreasing and takes one copy of
      the head out of its multiset. */
  lemma DropHead(u: seq<int>)
    requires NonDecreasing(u) && |u| > 0
    ensures NonDecreasing(u[1..])
    ensures multiset(u[1..]) == multiset(u) - multiset{u[0]}
  {
    assert u == [u[0]] + u[1..];
  }

  /** A multiset of integers has exactly one non-decreasing arrangement. */
  lemma {:induction false} NonDecreasingUnique(u: seq<int>, v: seq<int>)
    requires NonDecreasing(u) && NonDecreasing(v)
    requires multiset(u) == multiset(v)
    ensures u == v
    decreases |u|
  {
    if u == [] {
      assert |multiset(v)| == 0;
    } else {
      SameHead(u, v);
      assert u[1..] == v[1..] by {
        DropHead(u);
        DropHead(v);
        NonDecreasingUnique(u[1..], v[1..]);
      }
      assert u == [u[0]] + u[1..];
      assert v == [v[0]] + v[1..];
    }
  }

  /** Any two sorted arrangements of the same intervals list the same start
      values in the same order: the quicksort and the exchange sort are
      interchangeable for anything that looks only at `start`. */
  lemma SortsAgree(s: seq<Interval>, t: seq<Interval>)
    requires Sorted(s) && Sorted(t)
    requires multiset(s) == multiset(t)
    ensures Starts(s) == Starts(t)
  {
    StartsOfPermutation(s, t);
    NonDecreasingUnique(Starts(s), Starts(t));
  }

  // ---------------------------------------------------------------------------
  // Quicksort

  /** A bound on every start in [lo, hi) survives any reordering of that range. */
  lemma BoundsSurviveRangePermutation(s: seq<Interval>, t: seq<Interval>, lo: int, hi: int, p: int)
    requires |s| == |t| && 0 <= lo <= hi <= |s|
    requires multiset(s[lo..hi]) == multiset(t[lo..hi])
    ensures StartsBelow(s, lo, hi, p) ==> StartsBelow(t, lo, hi, p)
    ensures StartsAtLeast(s, lo, hi, p) ==> StartsAtLeast(t, lo, hi, p)
  {
    PermutationKeepsBounds(s[lo..hi], t[lo..hi], p);
    assert forall k :: lo <= k < hi ==> s[lo..hi][k - lo] == s[k] && t[lo..hi][k - lo] == t[k];
  }

  /** The last step of qSort: a sorted left part that starts before the pivot,
      the pivot, and a sorted right part that does not, make a sorted range. The
      right part was sorted after the left one, which it leaves alone. */
  lemma SortedAroundPivot(left: seq<Interval>, s: seq<Interval>, start: int, split: int, end: int,
                           pivot: int)
    requires 0 <= start <= split <= end < |s|
    requires SameOutside(s, left, split + 1, end)
    requires SortedWithin(left, start, split - 1)
    requires SortedWithin(s, split + 1, end)
    requires left[split].start == pivot
    requires StartsBelow(left, start, split, pivot)
    requires StartsAtLeast(s, split + 1, end + 1, pivot)
    ensures SortedWithin(s, start, end)
  {
    forall i, j | start <= i <= j <= end ensures s[i].start <= s[j].start {
      if j <= split - 1 {
        assert left[i].start <= left[j].start;
      } else if i > split {
        assert s[i].start <= s[j].start;
      } else if i < split {
        assert left[i].start < pivot;
      }
    }
  }

  /** Agreement outside a range carries over to any wider range, and chains. */
  lemma SameOutsideTrans(s: seq<Interval>, t: seq<Interval>, u: seq<Interval>,
                         lo: int, hi: int, lo1: int, hi1: int, lo2: int, hi2: int)
    requires lo <= lo1 && hi1 <= hi && lo <= lo2 && hi2 <= hi
    requires SameOutside(s, t, lo1, hi1) && SameOutside(t, u, lo2, hi2)
    ensures SameOutside(s, u, lo, hi)
  {
  }

  /** Why qSort sorts: partition, then sort the part before the pivot, then the
      part after it; together these sort [start, end], reorder only that range
      and keep every element. */
  lemma QSortStepsCompose(initial: seq<Interval>, parted: seq<Interval>, left: seq<Interval>,
                          right: seq<Interval>, start: int, split: int, end: int)
    requires PartitionedAt(initial, parted, start, split, end)
    requires SortedRangeOf(parted, left, start, split - 1)
    requires SortedRangeOf(left, right, split + 1, end)
    ensures SortedRangeOf(initial, right, start, end)
  {
    var pivot := parted[split].start;
    assert SortedWithin(right, start, end) by {
      BoundsSurviveRangePermutation(parted, left, start, split, pivot);
      BoundsSurviveRangePermutation(left, right, split + 1, end + 1, pivot);
      SortedAroundPivot(left, right, start, split, end, pivot);
    }
    assert SameOutside(right, initial, start, end) by {
      SameOutsideTrans(left, parted, initial, start, end, start, split - 1, start, end);
      SameOutsideTrans(right, left, initial, start, end, split + 1, end, start, end);
    }
    RangePermutation(right, initial, start, end + 1);
  }

  /** Exchanging two elements keeps the multiset of a sequence. */
  lemma SwapMultiset(s: seq<Interval>, i: int, j: int)
    requires 0 <= i < |s| && 0 <= j < |s|
    ensures multiset(s[i := s[j]][j := s[i]]) == multiset(s)
  {
  }

  /** The Go tuple assignment `arr[i], arr[j] = arr[j], arr[i]`. */
  method Swap(a: array<Interval>, i: int, j: int)
    requires 0 <= i < a.Length && 0 <= j < a.Length
    modifies a
    ensures a[..] == old(a[..])[i := old(a[j])][j := old(a[i])]
    ensures multiset(a[..]) == multiset(old(a[..]))
  {
    SwapMultiset(a[..], i, j);
    var t := a[i];
    a[i] := a[j];
    a[j] := t;
  }

  /** The partition loop's progress: [start, split) holds elements starting
      before `p`, [split, i) elements starting at or after it. */
  predicate SplitSoFar(s: seq<Interval>, start: int, split: int, i: int, p: int)
  {
    StartsBelow(s, start, split, p) && StartsAtLeast(s, split, i, p)
  }

  /** One step of the partition loop that swaps an earlier-starting element
      down to the split index. */
  lemma SwapExtendsSplit(s: seq<Interval>, before: seq<Interval>, start: int, split: int, i: int,
                          end: int, p: int)
    requires 0 <= start <= split <= i < end < |s|
    requires SplitSoFar(s, start, split, i, p) && s[i].start < p
    requires SameOutside(s, before, start, end - 1)
    ensures SplitSoFar(s[split := s[i]][i := s[split]], start, split + 1, i + 1, p)
    ensures SameOutside(s[split := s[i]][i := s[split]], before, start, end - 1)
  {
  }

  /** The partition's last swap puts the pivot, the range's last element, at the
      split index. */
  lemma PlacePivot(before: seq<Interval>, s: seq<Interval>, t: seq<Interval>,
                    start: int, split: int, end: int)
    requires 0 <= start <= split <= end < |s|
    requires SameOutside(s, before, start, end - 1)
    requires multiset(s) == multiset(before)
    requires SplitSoFar(s, start, split, end, s[end].start)
    requires t == s[split := s[end]][end := s[split]]
    ensures PartitionedAt(before, t, start, split, end)
  {
    SwapMultiset(s, split, end);
    assert t[split] == before[end];
    assert SameOutside(t, before, start, end);
  }

  /** The partition step of qSort: the pivot is the last element of [start, end];
      elements starting strictly before it are swapped to the front, and the
      pivot is swapped in right after them. */
  method Partition(a: array<Interval>, start: int, end: int) returns (splitIndex: int)
    requires 0 <= start < end < a.Length
    modifies a
    ensures PartitionedAt(old(a[..]), a[..], start, splitIndex, end)
  {
    var pivot := a[end];
    splitIndex := start;
    for i := start to end
      invariant start <= splitIndex <= i
      invariant a[end] == pivot
      invariant SplitSoFar(a[..], start, splitIndex, i, pivot.start)
      invariant SameOutside(a[..], old(a[..]), start, end - 1)
      invariant multiset(a[..]) == multiset(old(a[..]))
    {
      if a[i].start < pivot.start {
        SwapExtendsSplit(a[..], old(a[..]), start, splitIndex, i, end, pivot.start);
        Swap(a, splitIndex, i);
        splitIndex := splitIndex + 1;
      }
    }
    ghost var beforeSwap := a[..];
    Swap(a, splitIndex, end);
    PlacePivot(old(a[..]), beforeSwap, a[..], start, splitIndex, end);
  }

  /** qSort(arr, start, end): sorts the closed range [start, end] in place and
      touches nothing outside it; a range with fewer than two elements is left
      alone (this is how the empty slice, qSort(vals, 0, -1), is handled). */
  method QSort(a: array<Interval>, start: int, end: int)
    requires end - start >= 1 ==> 0 <= start && end < a.Length
    modifies a
    ensures end - start < 1 ==> a[..] == old(a[..])
    ensures SortedRangeOf(old(a[..]), a[..], start, end)
    decreases end - start
  {
    if end - start < 1 {
      return;
    }
    ghost var initial := a[..];
    var splitIndex := Partition(a, start, end);
    ghost var parted := a[..];
    QSort(a, start, splitIndex - 1);
    ghost var left := a[..];
    QSort(a, splitIndex + 1, end);
    QSortStepsCompose(initial, parted, left, a[..], start, splitIndex, end);
  }

  /** quickSortInplace: sorts the whole slice and returns the same slice. */
  method QuickSortInplace(vals: array<Interval>) returns (r: array<Interval>)
    modifies vals
    ensures r == vals
    ensures Sorted(vals[..])
    ensures multiset(vals[..]) == multiset(old(vals[..]))
  {
    QSort(vals, 0, vals.Length - 1);
    r := vals;
  }

  // ---------------------------------------------------------------------------
  // Exchange sort

  /** Positions before i hold, in order, starts no greater than any start at or
      after them: the part of the slice one exchange-sort run has finished. */
  predicate Settled(s: seq<Interval>, i: int)
  {
    forall p, q :: 0 <= p < i && p <= q < |s| ==> s[p].start <= s[q].start
  }

  /** Swapping two unsettled positions keeps the settled prefix settled. */
  lemma SwapKeepsSettled(s: seq<Interval>, i: int, x: int, y: int)
    requires 0 <= i <= x < |s| && i <= y < |s|
    requires Settled(s, i)
    ensures Settled(s[x := s[y]][y := s[x]], i)
  {
    var t := s[x := s[y]][y := s[x]];
    forall p, q | 0 <= p < i && p <= q < |t| ensures t[p].start <= t[q].start {
      assert t[p] == s[p];
      if q == x { assert s[p].start <= s[y].start; }
      else if q == y { assert s[p].start <= s[x].start; }
    }
  }

  /** Position i starts no later than any position in [i, j). */
  predicate LeastSoFar(s: seq<Interval>, i: int, j: int)
  {
    forall q :: 0 <= i <= q < j <= |s| ==> s[i].start <= s[q].start
  }

  /** Swapping a later, strictly earlier-starting element into position i keeps
      position i least over one more element. */
  lemma SwapKeepsLeast(s: seq<Interval>, i: int, j: int)
    requires 0 <= i < j < |s|
    requires LeastSoFar(s, i, j) && s[j].start < s[i].start
    ensures LeastSoFar(s[i := s[j]][j := s[i]], i, j + 1)
  {
  }

  /** Once position i holds a minimum of the rest, it joins the settled prefix. */
  lemma SettledExtend(s: seq<Interval>, i: int)
    requires 0 <= i < |s|
    requires Settled(s, i) && LeastSoFar(s, i, |s|)
    ensures Settled(s, i + 1)
  {
  }

  /** sortRun: for each position i, swaps in every later element that starts
      before the one now at i, so that i ends up holding a minimum of the rest.
      One run therefore sorts the slice; it reports a swap exactly when the
      slice was not already sorted, and otherwise leaves it as it was. */
  method SortRun(vals: array<Interval>) returns (switched: bool)
    modifies vals
    ensures Sorted(vals[..])
    ensures multiset(vals[..]) == multiset(old(vals[..]))
    ensures switched <==> !Sorted(old(vals[..]))
    ensures !switched ==> vals[..] == old(vals[..])
  {
    ghost var orig := vals[..];
    var l := vals.Length;
    switched := false;
    for i := 0 to l
      invariant Settled(vals[..], i)
      invariant multiset(vals[..]) == multiset(orig)
      invariant !switched ==> vals[..] == orig
      invariant switched ==> !Sorted(orig)
    {
      for j := i to l
        invariant LeastSoFar(vals[..], i, j)
        invariant Settled(vals[..], i)
        invariant multiset(vals[..]) == multiset(orig)
        invariant !switched ==> vals[..] == orig
        invariant switched ==> !Sorted(orig)
      {
        if vals[j].start < vals[i].start {
          assert !switched ==> orig[j].start < orig[i].start;
          SwapKeepsSettled(vals[..], i, i, j);
          SwapKeepsLeast(vals[..], i, j);
          Swap(vals, i, j);
          switched := true;
        }
      }
      SettledExtend(vals[..], i);
    }
    assert Settled(vals[..], l);
  }

  /** sortInplace: repeats sortRun while a run swapped something. Since one run
      already sorts, the loop stops after at most two runs. */
  method SortInplace(vals: array<Interval>)
    modifies vals
    ensures Sorted(vals[..])
    ensures multiset(vals[..]) == multiset(old(vals[..]))
  {
    var switched := true;
    ghost var runs := 0;
    while switched
      invariant 0 <= runs <= 2
      invariant runs == 0 ==> switched
      invariant runs >= 1 ==> Sorted(vals[..])
      invariant runs == 2 ==> !switched
      invariant multiset(vals[..]) == multiset(old(vals[..]))
      decreases 2 - runs
    {
      switched := SortRun(vals);
      runs := runs + 1;
    }
  }
}
