/**
 Quick sort of `sorting_algorithms.cpp`: Lomuto `partition` around the last
 element of the inclusive range `[low, high]`, and `quickSort` recursing on
 both sides of the pivot's final slot; `callQuickSort` sorts the whole array.
 */
module QuickSorting {
  import opened SortSpec

  /**
   `partition(arr, low, high)`: the pivot `arr[high]` ends at the returned
   slot `p`, every element before it in the range is smaller, every element
   after it is at least as large; the range is only reordered and nothing
   outside it changes.
   */
  method Partition(a: seq<int>, low: int, high: int) returns (s: seq<int>, p: int)
    requires 0 <= low <= high < |a|
    ensures SameOutside(a, s, low, high) && multiset(s) == multiset(a)
    ensures low <= p <= high && s[p] == a[high]
    ensures forall k :: low <= k < p ==> s[k] < s[p]
    ensures forall k :: p < k <= high ==> s[p] <= s[k]
    ensures multiset(s[low..high + 1]) == multiset(a[low..high + 1])
  {
    var i;
    s, i := LomutoScan(a, low, high);
    PivotPlaced(s, low, high, i);
    s := Swap(s, i + 1, high);
    p := i + 1;
    RangePermutation(a, s, low, high);
  }

  /**
   The loop of `partition`: `j` runs over `[low, high)` and every element
   smaller than the pivot `arr[high]` is swapped down to slot `++i`. On exit
   `[low, i]` holds the smaller elements and `(i, high)` the others; the
   pivot has not moved.
   */
  method LomutoScan(a: seq<int>, low: int, high: int) returns (s: seq<int>, i: int)
    requires 0 <= low <= high < |a|
    ensures low - 1 <= i < high
    ensures SameOutside(a, s, low, high) && multiset(s) == multiset(a)
    ensures s[high] == a[high]
    ensures forall k :: low <= k <= i ==> s[k] < a[high]
    ensures forall k :: i < k < high ==> a[high] <= s[k]
  {
    var pivot := a[high];
    s := a;
    i := low - 1;
    var j := low;
    while j <= high - 1
      invariant low - 1 <= i < j <= high
      invariant SameOutside(a, s, low, high) && multiset(s) == multiset(a)
      invariant s[high] == pivot
      invariant forall k :: low <= k <= i ==> s[k] < pivot
      invariant forall k :: i < k < j ==> pivot <= s[k]
    {
      if s[j] < pivot {
        i := i + 1;
        s := Swap(s, i, j);
      }
      j := j + 1;
    }
  }

  /**
   The final `swap(&arr[i + 1], &arr[high])`: with the smaller elements in
   `[low, i]` and the others in `(i, high)`, it puts the pivot between them.
   */
  lemma PivotPlaced(s: seq<int>, low: int, high: int, i: int)
    requires 0 <= low && low - 1 <= i < high < |s|
    requires forall k :: low <= k <= i ==> s[k] < s[high]
    requires forall k :: i < k < high ==> s[high] <= s[k]
    ensures var t := Swap(s, i + 1, high);
      && (forall k :: low <= k < i + 1 ==> t[k] < t[i + 1])
      && (forall k :: i + 1 < k <= high ==> t[i + 1] <= t[k])
  {
  }

  /**
   `quickSort(arr, low, high)`: sorts the inclusive range `[low, high]` in
   place and touches nothing outside it; a range with `low >= high` is left
   as it is.
   */
  method QuickSort(a: seq<int>, low: int, high: int) returns (s: seq<int>)
    requires low < high ==> 0 <= low && high < |a|
    ensures SameOutside(a, s, low, high) && multiset(s) == multiset(a)
    ensures SortedRange(s, low, high)
    ensures 0 <= low <= high < |a| ==> multiset(s[low..high + 1]) == multiset(a[low..high + 1])
    ensures high <= low ==> s == a
    decreases high - low
  {
    if low < high {
      var t, p := Partition(a, low, high);
      var u := QuickSort(t, low, p - 1);
      s := QuickSort(u, p + 1, high);
      SidesSorted(t, u, s, low, high, p);
      RangePermutation(a, s, low, high);
    } else {
      s := a;
    }
  }

  /**
   After partitioning around slot `p`, sorting `[low, p - 1]` and then
   `[p + 1, high]` sorts `[low, high]`: each side keeps its elements, so
   they stay on the correct side of the pivot.
   */
  lemma SidesSorted(t: seq<int>, u: seq<int>, s: seq<int>, low: int, high: int, p: int)
    requires 0 <= low <= p <= high < |t|
    requires forall k :: low <= k < p ==> t[k] < t[p]
    requires forall k :: p < k <= high ==> t[p] <= t[k]
    requires SameOutside(t, u, low, p - 1) && SortedRange(u, low, p - 1)
    requires multiset(u) == multiset(t)
    requires SameOutside(u, s, p + 1, high) && SortedRange(s, p + 1, high)
    requires multiset(s) == multiset(u)
    ensures SortedRange(s, low, high)
  {
    BoundsSurvivePermutation(t, u, low, p - 1, t[p]);
    BoundsSurvivePermutation(u, s, p + 1, high, t[p]);
    forall x, y | low <= x < y <= high ensures s[x] <= s[y] {
      if y < p {
        assert s[x] == u[x] && s[y] == u[y];
      } else if x > p {
      } else {
        assert s[p] == t[p];
      }
    }
  }

  /** `callQuickSort(arr, n)`: quick sort over `[0, n - 1]`. */
  method CallQuickSort(a: seq<int>) returns (s: seq<int>)
    ensures Sorted(s) && multiset(s) == multiset(a)
    ensures |a| <= 1 ==> s == a
    ensures Sorted(a) ==> s == a
  {
    s := QuickSort(a, 0, |a| - 1);
    if Sorted(a) {
      SortedPermutationUnique(a, s);
    }
  }
}
