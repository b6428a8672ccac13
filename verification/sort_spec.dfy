/**
 Shared vocabulary for the six in-place integer sorts: what "sorted" means,
 which part of an array a routine may touch, the element swap every routine
 is built from, and the facts about permutations that the sorts rely on.

 An `int arr[]` that a routine mutates in place is modelled as a `seq<int>`
 value: a routine takes the contents before the call and returns the contents
 after it. Ranges are inclusive, `[lo, hi]`, as in the C code.
 */
module SortSpec {

  /** `s` is in non-decreasing order. */
  ghost predicate Sorted(s: seq<int>)
  {
    forall i, j :: 0 <= i < j < |s| ==> s[i] <= s[j]
  }

  /** The inclusive range `[lo, hi]` of `s` is in non-decreasing order (an empty range is). */
  ghost predicate SortedRange(s: seq<int>, lo: int, hi: int)
  {
    forall i, j :: 0 <= lo <= i < j <= hi < |s| ==> s[i] <= s[j]
  }

  /** The element at `k` is in order with the one `gap` positions before it. */
  ghost predicate InOrderAt(s: seq<int>, gap: int, k: int)
  {
    0 <= k - gap <= k < |s| && s[k - gap] <= s[k]
  }

  /** Every element is in order with the one `gap` positions before it. */
  ghost predicate GapSorted(s: seq<int>, gap: nat)
  {
    forall k :: gap <= k < |s| ==> InOrderAt(s, gap, k)
  }

  /** `t` has the length of `s` and agrees with it outside the inclusive range `[lo, hi]`. */
  ghost predicate SameOutside(s: seq<int>, t: seq<int>, lo: int, hi: int)
  {
    |t| == |s| && forall k :: 0 <= k < |s| && (k < lo || hi < k) ==> t[k] == s[k]
  }

  /** Exchange of two elements, the C `swap(&arr[i], &arr[j])` and the inline `temp` swaps. */
  function Swap(s: seq<int>, i: int, j: int): (t: seq<int>)
    requires 0 <= i < |s| && 0 <= j < |s|
    ensures |t| == |s| && t[i] == s[j] && t[j] == s[i]
    ensures forall k :: 0 <= k < |s| && k != i && k != j ==> t[k] == s[k]
    ensures multiset(t) == multiset(s)
  {
    s[i := s[j]][j := s[i]]
  }

  /** Two sorted sequences holding the same multiset of values are equal. */
  lemma {:induction false} SortedPermutationUnique(a: seq<int>, b: seq<int>)
    requires Sorted(a) && Sorted(b) && multiset(a) == multiset(b)
    ensures a == b
    decreases |a|
  {
    assert |a| == |multiset(a)| == |multiset(b)| == |b|;
    if |a| > 0 {
      HeadIsLeast(a, b[0]);
      HeadIsLeast(b, a[0]);
      TailPermutation(a, b);
      SortedPermutationUnique(a[1..], b[1..]);
      assert a == [a[0]] + a[1..] && b == [b[0]] + b[1..];
    }
  }

  /** The first element of a sorted sequence is at most any value it holds. */
  lemma HeadIsLeast(a: seq<int>, v: int)
    requires Sorted(a) && |a| > 0 && v in multiset(a)
    ensures a[0] <= v
  {
  }

  /** Removing equal heads from two permutations of each other leaves permutations of each other. */
  lemma TailPermutation(a: seq<int>, b: seq<int>)
    requires |a| > 0 && |b| > 0 && a[0] == b[0] && multiset(a) == multiset(b)
    requires Sorted(a) && Sorted(b)
    ensures multiset(a[1..]) == multiset(b[1..]) && Sorted(a[1..]) && Sorted(b[1..])
  {
    assert a == [a[0]] + a[1..];
    assert b == [b[0]] + b[1..];
    assert multiset(a) == multiset{a[0]} + multiset(a[1..]);
    assert multiset(b) == multiset{b[0]} + multiset(b[1..]);
    assert multiset(a[1..]) == multiset(a) - multiset{a[0]};
    assert multiset(b[1..]) == multiset(b) - multiset{b[0]};
  }

  /** Neighbour order is enough for order: a 1-gap-sorted sequence is sorted. */
  lemma {:induction false} GapOneSorted(s: seq<int>)
    requires GapSorted(s, 1)
    ensures Sorted(s)
    decreases |s|
  {
    if |s| > 1 {
      var t := s[..|s| - 1];
      assert GapSorted(t, 1) by {
        forall k | 1 <= k < |t| ensures InOrderAt(t, 1, k) {
          assert InOrderAt(s, 1, k);
        }
      }
      GapOneSorted(t);
      forall i, j | 0 <= i < j < |s| ensures s[i] <= s[j] {
        if j < |s| - 1 {
          assert t[i] <= t[j];
        } else if i < j - 1 {
          assert t[i] <= t[j - 1];
          assert InOrderAt(s, 1, j);
        } else {
          assert InOrderAt(s, 1, j);
        }
      }
    }
  }

  /**
   A routine that may only reorder the inclusive range `[lo, hi]` and keeps the
   whole multiset keeps the multiset of that range.
   */
  lemma RangePermutation(a: seq<int>, s: seq<int>, lo: int, hi: int)
    requires 0 <= lo <= hi + 1 <= |a|
    requires SameOutside(a, s, lo, hi) && multiset(s) == multiset(a)
    ensures multiset(s[lo..hi + 1]) == multiset(a[lo..hi + 1])
  {
    assert a == a[..lo] + a[lo..hi + 1] + a[hi + 1..];
    assert s == s[..lo] + s[lo..hi + 1] + s[hi + 1..];
    assert s[..lo] == a[..lo];
    assert s[hi + 1..] == a[hi + 1..];
    assert multiset(a) == multiset(a[..lo]) + multiset(a[lo..hi + 1]) + multiset(a[hi + 1..]);
    assert multiset(s) == multiset(s[..lo]) + multiset(s[lo..hi + 1]) + multiset(s[hi + 1..]);
    assert multiset(s[lo..hi + 1]) == multiset(s) - multiset(a[..lo]) - multiset(a[hi + 1..]);
    assert multiset(a[lo..hi + 1]) == multiset(a) - multiset(a[..lo]) - multiset(a[hi + 1..]);
  }

  /** A permutation has the length of the original. */
  lemma PermutationLength(a: seq<int>, s: seq<int>)
    requires multiset(s) == multiset(a)
    ensures |s| == |a|
  {
    assert |s| == |multiset(s)|;
  }

  /**
   Reordering the inclusive range `[lo, hi]` keeps every bound that all of its
   elements satisfied.
   */
  lemma BoundsSurvivePermutation(a: seq<int>, s: seq<int>, lo: int, hi: int, v: int)
    requires 0 <= lo <= hi + 1 <= |a|
    requires SameOutside(a, s, lo, hi) && multiset(s) == multiset(a)
    ensures (forall k :: lo <= k <= hi ==> a[k] < v) ==> (forall k :: lo <= k <= hi ==> s[k] < v)
    ensures (forall k :: lo <= k <= hi ==> v <= a[k]) ==> (forall k :: lo <= k <= hi ==> v <= s[k])
  {
    RangePermutation(a, s, lo, hi);
    var sr, ar := s[lo..hi + 1], a[lo..hi + 1];
    forall k | lo <= k <= hi
      ensures exists x :: lo <= x <= hi && s[k] == a[x]
    {
      assert s[k] == sr[k - lo];
      assert sr[k - lo] in multiset(ar);
      var y :| 0 <= y < |ar| && ar[y] == s[k];
      assert a[lo + y] == s[k];
    }
  }
}
