/**
 The three quadratic sorts of `sorting_algorithms.cpp`: bubble, selection and
 insertion. Each takes the array contents before the call and returns them
 after it; `n` of the C signature is the length of the sequence.
 */
module ElementarySorts {
  import opened SortSpec

  /**
   The slots from `b` on hold the largest elements of `s`, in their final
   sorted order: what bubble sort has established after `|s| - b` passes.
   */
  ghost predicate TopPlaced(s: seq<int>, b: int)
    requires 0 <= b <= |s|
  {
    && SortedRange(s, b, |s| - 1)
    && forall p, q :: 0 <= p < b <= q < |s| ==> s[p] <= s[q]
  }

  /**
   The slots before `b` hold the smallest elements of `s`, in their final
   sorted order: what selection sort has established after `b` steps.
   */
  ghost predicate LowPlaced(s: seq<int>, b: int)
    requires 0 <= b <= |s|
  {
    && SortedRange(s, 0, b - 1)
    && forall p, q :: 0 <= p < b <= q < |s| ==> s[p] <= s[q]
  }

  /**
   Outer iteration `i` of bubble sort: adjacent swaps over `[0, n - i - 1)`
   carry the largest element of the unplaced prefix to slot `n - i - 1`.
   */
  method BubblePass(a: seq<int>, i: int) returns (s: seq<int>)
    requires 0 <= i < |a| - 1
    requires TopPlaced(a, |a| - i)
    ensures |s| == |a| && multiset(s) == multiset(a)
    ensures TopPlaced(s, |a| - i - 1)
    ensures s[|a| - i..] == a[|a| - i..]
  {
    var n := |a|;
    s := a;
    var j := 0;
    while j < n - i - 1
      invariant 0 <= j <= n - i - 1
      invariant |s| == n && multiset(s) == multiset(a)
      invariant s[n - i..] == a[n - i..]
      invariant forall p, q :: 0 <= p < n - i <= q < n ==> s[p] <= s[q]
      invariant forall k :: 0 <= k < j ==> s[k] <= s[j]
    {
      if s[j] > s[j + 1] {
        s := Swap(s, j, j + 1);
      }
      j := j + 1;
    }
    assert forall q :: n - i <= q < n ==> s[q] == a[q];
  }

  /** Bubble sort: `n - 1` full passes, with no early exit. */
  method BubbleSort(a: seq<int>) returns (s: seq<int>)
    ensures Sorted(s) && multiset(s) == multiset(a)
    ensures Sorted(a) ==> s == a
  {
    var n := |a|;
    s := a;
    var i := 0;
    while i < n - 1
      invariant 0 <= i <= n && (n > 0 ==> i < n)
      invariant |s| == n && multiset(s) == multiset(a)
      invariant TopPlaced(s, n - i)
    {
      s := BubblePass(s, i);
      i := i + 1;
    }
    assert Sorted(s) by {
      if n > 0 {
        assert TopPlaced(s, 1);
      }
    }
    if Sorted(a) {
      SortedPermutationUnique(a, s);
    }
  }

  /**
   The scan of selection sort's inner loop: the position of the first
   minimum of `s[i..]` (a later equal element does not replace it, since the
   comparison is strict).
   */
  method MinIndex(s: seq<int>, i: int) returns (m: int)
    requires 0 <= i < |s|
    ensures i <= m < |s|
    ensures forall k :: i <= k < |s| ==> s[m] <= s[k]
    ensures forall k :: i <= k < m ==> s[m] < s[k]
  {
    m := i;
    var j := i + 1;
    while j < |s|
      invariant i + 1 <= j <= |s|
      invariant i <= m < j
      invariant forall k :: i <= k < j ==> s[m] <= s[k]
      invariant forall k :: i <= k < m ==> s[m] < s[k]
    {
      if s[j] < s[m] {
        m := j;
      }
      j := j + 1;
    }
  }

  /** Selection sort: one swap per position, `n - 1` steps. */
  method SelectionSort(a: seq<int>) returns (s: seq<int>)
    ensures Sorted(s) && multiset(s) == multiset(a)
    ensures Sorted(a) ==> s == a
  {
    var n := |a|;
    s := a;
    var i := 0;
    while i < n - 1
      invariant 0 <= i <= n && (n > 0 ==> i < n)
      invariant |s| == n && multiset(s) == multiset(a)
      invariant LowPlaced(s, i)
    {
      var m := MinIndex(s, i);
      s := Swap(s, m, i);
      i := i + 1;
    }
    assert Sorted(s) by {
      if n > 0 {
        assert LowPlaced(s, n - 1);
      }
    }
    if Sorted(a) {
      SortedPermutationUnique(a, s);
    }
  }

  /**
   Iteration `i` of insertion sort: `key = arr[i]` is dropped into the sorted
   prefix at position `p`, after every element `<= key` and before every
   element `> key`; only the elements greater than the key move, one slot
   to the right.
   */
  method InsertKey(a: seq<int>, i: int) returns (s: seq<int>, p: int)
    requires 0 <= i < |a|
    requires SortedRange(a, 0, i - 1)
    ensures 0 <= p <= i
    ensures s == a[..p] + [a[i]] + a[p..i] + a[i + 1..]
    ensures forall k :: 0 <= k < p ==> a[k] <= a[i]
    ensures forall k :: p <= k < i ==> a[i] < a[k]
    ensures |s| == |a| && multiset(s) == multiset(a)
    ensures SortedRange(s, 0, i)
  {
    var key := a[i];
    var j;
    s, j := ShiftGreater(a, i);
    s := s[j + 1 := key];
    p := j + 1;
    InsertedLayoutUnique(a, s, i, p);
    InsertedPermutes(a, i, p);
    InsertedInOrder(a, i, p);
  }

  /**
   The inner loop of insertion sort: starting at `j = i - 1`, every element
   of the sorted prefix greater than `key = a[i]` is copied one slot up; it
   stops at the first `j` (from the top) with `a[j] <= key`, or at `j = -1`.
   Slot `j + 1` is then free for the key.
   */
  method ShiftGreater(a: seq<int>, i: int) returns (s: seq<int>, j: int)
    requires 0 <= i < |a|
    requires SortedRange(a, 0, i - 1)
    ensures -1 <= j <= i - 1 && |s| == |a|
    ensures forall k :: 0 <= k <= j ==> s[k] == a[k]
    ensures forall k :: j + 2 <= k <= i ==> s[k] == a[k - 1]
    ensures forall k :: i < k < |a| ==> s[k] == a[k]
    ensures forall k :: 0 <= k <= j ==> a[k] <= a[i]
    ensures forall k :: j < k < i ==> a[i] < a[k]
  {
    var key := a[i];
    s := a;
    j := i - 1;
    while j >= 0 && s[j] > key
      invariant -1 <= j <= i - 1
      invariant |s| == |a|
      invariant forall k :: 0 <= k <= j ==> s[k] == a[k]
      invariant forall k :: j + 2 <= k <= i ==> s[k] == a[k - 1]
      invariant forall k :: i < k < |a| ==> s[k] == a[k]
      invariant forall k :: j < k < i ==> key < a[k]
    {
      s := s[j + 1 := s[j]];
      j := j - 1;
    }
    if j >= 0 {
      assert a[j] <= key;
    }
  }

  /**
   An array that agrees with `a` below `p`, holds `a[i]` at `p`, holds `a[k - 1]`
   at each `k` in `(p, i]` and agrees with `a` above `i` is the shifted array.
   */
  lemma InsertedLayoutUnique(a: seq<int>, s: seq<int>, i: int, p: int)
    requires 0 <= p <= i < |a| && |s| == |a|
    requires forall k :: 0 <= k < p ==> s[k] == a[k]
    requires s[p] == a[i]
    requires forall k :: p < k <= i ==> s[k] == a[k - 1]
    requires forall k :: i < k < |a| ==> s[k] == a[k]
    ensures s == a[..p] + [a[i]] + a[p..i] + a[i + 1..]
  {
  }

  /** Moving `a[i]` down to slot `p` only reorders the array. */
  lemma InsertedPermutes(a: seq<int>, i: int, p: int)
    requires 0 <= p <= i < |a|
    ensures multiset(a[..p] + [a[i]] + a[p..i] + a[i + 1..]) == multiset(a)
  {
    assert a == a[..p] + a[p..i] + [a[i]] + a[i + 1..];
  }

  /**
   Dropping `a[i]` between the elements of the sorted prefix that are `<=` it
   and those that are `>` it extends the sorted prefix by one.
   */
  lemma InsertedInOrder(a: seq<int>, i: int, p: int)
    requires 0 <= p <= i < |a|
    requires SortedRange(a, 0, i - 1)
    requires forall k :: 0 <= k < p ==> a[k] <= a[i]
    requires forall k :: p <= k < i ==> a[i] < a[k]
    ensures SortedRange(a[..p] + [a[i]] + a[p..i] + a[i + 1..], 0, i)
  {
  }

  /** Insertion sort: keys `arr[1..n)` are inserted into the growing sorted prefix. */
  method InsertionSort(a: seq<int>) returns (s: seq<int>)
    ensures Sorted(s) && multiset(s) == multiset(a)
    ensures Sorted(a) ==> s == a
  {
    var n := |a|;
    s := a;
    var i := 1;
    while i < n
      invariant 1 <= i && (n > 0 ==> i <= n)
      invariant |s| == n && multiset(s) == multiset(a)
      invariant SortedRange(s, 0, i - 1)
    {
      var p;
      s, p := InsertKey(s, i);
      i := i + 1;
    }
    if Sorted(a) {
      SortedPermutationUnique(a, s);
    }
  }
}
