/**
 Merge sort of `sorting_algorithms.cpp`: `merge` copies the runs
 `arr[l..m]` and `arr[m+1..r]` into buffers `L` and `R` and merges them back,
 taking from `L` on ties; `mergeSort` splits the inclusive range `[l, r]` at
 its midpoint; `callMergeSort` sorts the whole array.
 */
module MergeSorting {
  import opened SortSpec

  /**
   Reference definition of merging two runs: repeatedly take the smaller
   head, the left one on a tie, and append what remains of the other run.
   */
  function MergeRuns(left: seq<int>, right: seq<int>): (merged: seq<int>)
    ensures |merged| == |left| + |right|
    decreases |left| + |right|
  {
    if |left| == 0 then right
    else if |right| == 0 then left
    else if left[0] <= right[0] then [left[0]] + MergeRuns(left[1..], right)
    else [right[0]] + MergeRuns(left, right[1..])
  }

  /** Merging neither loses nor invents elements. */
  lemma {:induction false} MergeRunsPermutes(left: seq<int>, right: seq<int>)
    ensures multiset(MergeRuns(left, right)) == multiset(left) + multiset(right)
    decreases |left| + |right|
  {
    if |left| > 0 && |right| > 0 {
      assert left == [left[0]] + left[1..] && right == [right[0]] + right[1..];
      if left[0] <= right[0] {
        MergeRunsPermutes(left[1..], right);
      } else {
        MergeRunsPermutes(left, right[1..]);
      }
    }
  }

  /** The merge of two sorted runs is sorted. */
  lemma {:induction false} MergeRunsSorted(left: seq<int>, right: seq<int>)
    requires Sorted(left) && Sorted(right)
    ensures Sorted(MergeRuns(left, right))
    decreases |left| + |right|
  {
    if |left| > 0 && |right| > 0 {
      var m := MergeRuns(left, right);
      if left[0] <= right[0] {
        var rest := MergeRuns(left[1..], right);
        MergeRunsSorted(left[1..], right);
        MergeRunsPermutes(left[1..], right);
        HeadBelowRest(left[0], left[1..], right, rest);
      } else {
        var rest := MergeRuns(left, right[1..]);
        MergeRunsSorted(left, right[1..]);
        MergeRunsPermutes(left, right[1..]);
        HeadBelowRest(right[0], left, right[1..], rest);
      }
    }
  }

  /** A value below every element of two runs is below every element of anything holding their union. */
  lemma HeadBelowRest(x: int, left: seq<int>, right: seq<int>, rest: seq<int>)
    requires forall k :: 0 <= k < |left| ==> x <= left[k]
    requires forall k :: 0 <= k < |right| ==> x <= right[k]
    requires multiset(rest) == multiset(left) + multiset(right)
    requires Sorted(rest)
    ensures Sorted([x] + rest)
  {
    forall k | 0 <= k < |rest| ensures x <= rest[k] {
      assert rest[k] in multiset(left) + multiset(right);
    }
  }

  /**
   `merge(arr, l, m, r)`: the range `[l, r]` becomes the merge of the runs
   `[l, m]` and `[m+1, r]` as they were on entry; nothing outside it changes.
   When both runs were sorted, the range is sorted.
   */
  method Merge(a: seq<int>, l: int, m: int, r: int) returns (s: seq<int>)
    requires 0 <= l <= m + 1 <= r + 1 <= |a|
    ensures SameOutside(a, s, l, r) && multiset(s) == multiset(a)
    ensures s[l..r + 1] == MergeRuns(a[l..m + 1], a[m + 1..r + 1])
    ensures multiset(s[l..r + 1]) == multiset(a[l..r + 1])
    ensures SortedRange(a, l, m) && SortedRange(a, m + 1, r) ==> SortedRange(s, l, r)
  {
    var n1 := m - l + 1;
    var left := a[l..m + 1];
    var right := a[m + 1..r + 1];
    var h, i, j := MergeHeads(a, left, right, l, r);
    var k := l + i + j;
    s := CopyRest(h, left, i, k);
    k := k + (n1 - i);
    s := CopyRest(s, right, j, k);
    MergeFinished(a, h, s, m, left, right, l, r, i, j);
  }

  /**
   The first merge-back loop: while both buffers have elements, copy the
   smaller head to `arr[k]`, `L[i]` on a tie. On exit one buffer is used up,
   the slots from `l` hold the first `i + j` elements of the merge, and what
   is left of the merge is the merge of what is left in the buffers.
   */
  method MergeHeads(a: seq<int>, left: seq<int>, right: seq<int>, l: int, r: int)
    returns (s: seq<int>, i: int, j: int)
    requires 0 <= l && r + 1 <= |a| && |left| + |right| == r + 1 - l
    ensures 0 <= i <= |left| && 0 <= j <= |right| && (i == |left| || j == |right|)
    ensures MergeState(a, s, left, right, l, r, i, j, l + i + j)
  {
    var n1, n2 := |left|, |right|;
    s := a;
    i, j := 0, 0;
    var k := l;
    while i < n1 && j < n2
      invariant MergeState(a, s, left, right, l, r, i, j, k)
    {
      var fromLeft := left[i] <= right[j];
      EmitHead(a, s, left, right, l, r, i, j, k, fromLeft);
      s := s[k := if fromLeft then left[i] else right[j]];
      if fromLeft {
        i := i + 1;
      } else {
        j := j + 1;
      }
      k := k + 1;
    }
  }

  /**
   The two draining loops, `while (i < n1) arr[k++] = L[i++]` and the same
   for `R`: the rest of `buf` from `from` on is copied to the slots from `k`.
   */
  method CopyRest(s: seq<int>, buf: seq<int>, from: int, k: int) returns (t: seq<int>)
    requires 0 <= from <= |buf| && 0 <= k && k + (|buf| - from) <= |s|
    ensures |t| == |s|
    ensures forall x :: 0 <= x < |s| && (x < k || k + (|buf| - from) <= x) ==> t[x] == s[x]
    ensures forall x :: k <= x < k + (|buf| - from) ==> t[x] == buf[from + (x - k)]
  {
    t := s;
    var i, kk := from, k;
    while i < |buf|
      invariant from <= i <= |buf| && kk == k + (i - from)
      invariant |t| == |s|
      invariant forall x :: 0 <= x < |s| && (x < k || kk <= x) ==> t[x] == s[x]
      invariant forall x :: k <= x < kk ==> t[x] == buf[from + (x - k)]
    {
      t := t[kk := buf[i]];
      i := i + 1;
      kk := kk + 1;
    }
  }

  /**
   State of the merge-back loops: `i` and `j` elements of the buffers are
   used, the slots `[l, k)` hold the first `k - l` elements of the merge, the
   rest of the merge is the merge of what remains in the buffers, and outside
   `[l, r]` the array is as on entry.
   */
  ghost predicate MergeState(a: seq<int>, s: seq<int>, left: seq<int>, right: seq<int>,
                             l: int, r: int, i: int, j: int, k: int)
  {
    && 0 <= i <= |left| && 0 <= j <= |right| && k == l + i + j
    && 0 <= l && r + 1 <= |a| && |left| + |right| == r + 1 - l
    && SameOutside(a, s, l, r)
    && (forall t :: l <= t < k ==> s[t] == MergeRuns(left, right)[t - l])
    && MergeRuns(left, right)[i + j..] == MergeRuns(left[i..], right[j..])
  }

  /**
   One copy `arr[k] = L[i]` (when `fromLeft`) or `arr[k] = R[j]`, taken when
   it is the head the merge takes next, keeps the loop state.
   */
  lemma EmitHead(a: seq<int>, s: seq<int>, left: seq<int>, right: seq<int>,
                 l: int, r: int, i: int, j: int, k: int, fromLeft: bool)
    requires MergeState(a, s, left, right, l, r, i, j, k)
    requires fromLeft ==> i < |left| && (j == |right| || left[i] <= right[j])
    requires !fromLeft ==> j < |right| && (i == |left| || right[j] < left[i])
    ensures MergeState(a, s[k := if fromLeft then left[i] else right[j]], left, right, l, r,
                       if fromLeft then i + 1 else i, if fromLeft then j else j + 1, k + 1)
  {
  }

  /**
   After the heads loop and both draining copies, the range `[l, r]` holds the
   merge of the two buffers.
   */
  lemma MergeFinished(a: seq<int>, h: seq<int>, s: seq<int>, m: int, left: seq<int>, right: seq<int>,
                      l: int, r: int, i: int, j: int)
    requires 0 <= l <= m + 1 <= r + 1 <= |a|
    requires left == a[l..m + 1] && right == a[m + 1..r + 1]
    requires MergeState(a, h, left, right, l, r, i, j, l + i + j) && (i == |left| || j == |right|)
    requires |s| == |h|
    requires forall x :: 0 <= x < |h| && (x < l + i + j || r < x) ==> s[x] == h[x]
    requires forall x :: l + i + j <= x < l + j + |left| ==> s[x] == left[i + (x - l - i - j)]
    requires forall x :: l + |left| + j <= x <= r ==> s[x] == right[j + (x - l - |left| - j)]
    ensures SameOutside(a, s, l, r) && multiset(s) == multiset(a)
    ensures s[l..r + 1] == MergeRuns(a[l..m + 1], a[m + 1..r + 1])
    ensures multiset(s[l..r + 1]) == multiset(a[l..r + 1])
    ensures SortedRange(a, l, m) && SortedRange(a, m + 1, r) ==> SortedRange(s, l, r)
  {
    var merged := MergeRuns(left, right);
    DrainedTail(left, right, i, j);
    WrittenBack(h, s, merged, left, right, l, r, i, j);
    MergeBackFacts(a, s, l, m, r);
  }

  /** Once one buffer is used up, the rest of the merge is what remains in the buffers, left first. */
  lemma DrainedTail(left: seq<int>, right: seq<int>, i: int, j: int)
    requires 0 <= i <= |left| && 0 <= j <= |right| && (i == |left| || j == |right|)
    requires MergeRuns(left, right)[i + j..] == MergeRuns(left[i..], right[j..])
    ensures MergeRuns(left, right)[i + j..] == left[i..] + right[j..]
  {
  }

  /**
   The slots before `l + i + j` already hold the start of `merged`; the two
   draining copies put the rest of the buffers after them, which is the rest
   of `merged`. So the whole range holds `merged`.
   */
  lemma WrittenBack(h: seq<int>, s: seq<int>, merged: seq<int>, left: seq<int>, right: seq<int>,
                    l: int, r: int, i: int, j: int)
    requires 0 <= l && 0 <= i <= |left| && 0 <= j <= |right| && r + 1 <= |s| == |h|
    requires |merged| == |left| + |right| == r + 1 - l
    requires merged[i + j..] == left[i..] + right[j..]
    requires forall t :: l <= t < l + i + j ==> h[t] == merged[t - l]
    requires forall x :: 0 <= x < |h| && x < l + i + j ==> s[x] == h[x]
    requires forall x :: l + i + j <= x < l + j + |left| ==> s[x] == left[i + (x - l - i - j)]
    requires forall x :: l + |left| + j <= x <= r ==> s[x] == right[j + (x - l - |left| - j)]
    ensures s[l..r + 1] == merged
  {
  }

  /** What the merge-back loops establish, stated for the whole array. */
  lemma MergeBackFacts(a: seq<int>, s: seq<int>, l: int, m: int, r: int)
    requires 0 <= l <= m + 1 <= r + 1 <= |a|
    requires SameOutside(a, s, l, r)
    requires s[l..r + 1] == MergeRuns(a[l..m + 1], a[m + 1..r + 1])
    ensures multiset(s) == multiset(a)
    ensures multiset(s[l..r + 1]) == multiset(a[l..r + 1])
    ensures SortedRange(a, l, m) && SortedRange(a, m + 1, r) ==> SortedRange(s, l, r)
  {
    MergedRangePermutes(a, s, l, m, r);
    SliceFrame(a, s, l, r);
    if SortedRange(a, l, m) && SortedRange(a, m + 1, r) {
      MergedRangeSorted(a, s, l, m, r);
    }
  }

  /** The merge written back over `[l, r]` is a permutation of what the range held. */
  lemma MergedRangePermutes(a: seq<int>, s: seq<int>, l: int, m: int, r: int)
    requires 0 <= l <= m + 1 <= r + 1 <= |a|
    requires r + 1 <= |s| && s[l..r + 1] == MergeRuns(a[l..m + 1], a[m + 1..r + 1])
    ensures multiset(s[l..r + 1]) == multiset(a[l..r + 1])
  {
    assert a[l..r + 1] == a[l..m + 1] + a[m + 1..r + 1];
    MergeRunsPermutes(a[l..m + 1], a[m + 1..r + 1]);
  }

  /** A range-local permutation is a permutation of the whole array. */
  lemma SliceFrame(a: seq<int>, s: seq<int>, l: int, r: int)
    requires 0 <= l <= r + 1 <= |a|
    requires SameOutside(a, s, l, r)
    requires multiset(s[l..r + 1]) == multiset(a[l..r + 1])
    ensures multiset(s) == multiset(a)
  {
    assert a == a[..l] + a[l..r + 1] + a[r + 1..];
    assert s == s[..l] + s[l..r + 1] + s[r + 1..];
    assert s[..l] == a[..l];
    assert s[r + 1..] == a[r + 1..];
    assert multiset(s) == multiset(s[..l]) + multiset(s[l..r + 1]) + multiset(s[r + 1..]);
  }

  /** The merge of the two sorted runs, written back over `[l, r]`, makes that range sorted. */
  lemma MergedRangeSorted(a: seq<int>, s: seq<int>, l: int, m: int, r: int)
    requires 0 <= l <= m + 1 <= r + 1 <= |a| && |s| == |a|
    requires s[l..r + 1] == MergeRuns(a[l..m + 1], a[m + 1..r + 1])
    requires SortedRange(a, l, m) && SortedRange(a, m + 1, r)
    ensures SortedRange(s, l, r)
  {
    var left, right := a[l..m + 1], a[m + 1..r + 1];
    assert Sorted(left) && Sorted(right);
    MergeRunsSorted(left, right);
    forall p, q | l <= p < q <= r ensures s[p] <= s[q] {
      assert s[p] == s[l..r + 1][p - l] && s[q] == s[l..r + 1][q - l];
    }
  }

  /**
   `mergeSort(arr, l, r)`: sorts the inclusive range `[l, r]` in place and
   touches nothing outside it; a range with `l >= r` is left as it is.
   */
  method MergeSort(a: seq<int>, l: int, r: int) returns (s: seq<int>)
    requires l < r ==> 0 <= l && r < |a|
    ensures SameOutside(a, s, l, r) && multiset(s) == multiset(a)
    ensures SortedRange(s, l, r)
    ensures 0 <= l <= r < |a| ==> multiset(s[l..r + 1]) == multiset(a[l..r + 1])
    ensures r <= l ==> s == a
    decreases r - l
  {
    if l < r {
      var m := l + (r - l) / 2;
      s := MergeSort(a, l, m);
      s := MergeSort(s, m + 1, r);
      s := Merge(s, l, m, r);
      RangePermutation(a, s, l, r);
    } else {
      s := a;
    }
  }

  /** `callMergeSort(arr, n)`: merge sort over `[0, n - 1]`. */
  method CallMergeSort(a: seq<int>) returns (s: seq<int>)
    ensures Sorted(s) && multiset(s) == multiset(a)
    ensures |a| <= 1 ==> s == a
    ensures Sorted(a) ==> s == a
  {
    s := MergeSort(a, 0, |a| - 1);
    if Sorted(a) {
      SortedPermutationUnique(a, s);
    }
  }
}
