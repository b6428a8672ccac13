/**
 Shell sort of `sorting_algorithms.cpp`: insertion passes over elements
 `gap` apart, for the gaps `n/2, n/4, ..., 1`. Each pass leaves the array
 gap-sorted; the last pass, with gap 1, leaves it sorted.
 */
module ShellSorting {
  import opened SortSpec

  /**
   The gaps the outer loop visits when it starts from `g`: `g, g/2, g/4, ...`
   down to the last positive one, which is 1.
   */
  function Halvings(g: nat): (gaps: seq<nat>)
    ensures g == 0 <==> |gaps| == 0
    ensures g > 0 ==> gaps[0] == g && gaps[|gaps| - 1] == 1
    ensures forall k :: 0 <= k < |gaps| ==> gaps[k] > 0
    ensures forall p, q :: 0 <= p < q < |gaps| ==> gaps[q] < gaps[p]
    decreases g
  {
    if g == 0 then [] else [g] + Halvings(g / 2)
  }

  /**
   Iteration `i` of one gap pass: `temp = arr[i]` moves down its chain
   `i, i - gap, i - 2*gap, ...`, shifting each larger element `gap` slots up,
   until it meets an element `<= temp` or the chain's start. If the pairs
   `gap` apart below `i` were in order, then so are those up to `i`.
   */
  method GapInsert(a: seq<int>, gap: int, i: int) returns (s: seq<int>)
    requires 1 <= gap <= i < |a|
    requires forall k :: gap <= k < i ==> InOrderAt(a, gap, k)
    ensures |s| == |a| && multiset(s) == multiset(a)
    ensures forall k :: gap <= k <= i ==> InOrderAt(s, gap, k)
    ensures s[i + 1..] == a[i + 1..]
  {
    var temp := a[i];
    var j;
    s, j := ShiftChain(a, gap, i);
    FillKeepsChainOrder(s, gap, i, j, temp);
    s := s[j := temp];
    assert s[i + 1..] == a[i + 1..];
  }

  /**
   The inner loop of a gap pass: starting at `j = i`, while the chain
   element `gap` below the hole is greater than `temp = a[i]` it is copied up
   into the hole. On exit, dropping `temp` into the hole at `j` would give a
   permutation of `a`; the element below the hole (if any) is `<= temp` and
   the one above it (if it was shifted) is `> temp`.
   */
  method ShiftChain(a: seq<int>, gap: int, i: int) returns (s: seq<int>, j: int)
    requires 1 <= gap <= i < |a|
    requires forall k :: gap <= k < i ==> InOrderAt(a, gap, k)
    ensures ChainState(a, gap, i, s, j)
    ensures j >= gap ==> s[j - gap] <= a[i]
  {
    var temp := a[i];
    s := a;
    j := i;
    assert s[j := temp] == a;
    while j >= gap && s[j - gap] > temp
      invariant ChainState(a, gap, i, s, j)
      decreases j
    {
      ChainStep(a, gap, i, s, j);
      s := s[j := s[j - gap]];
      j := j - gap;
    }
  }

  /**
   The state of the shifting loop with the hole at `j`: `temp = a[i]` dropped
   into the hole would give a permutation of `a`, the chain pairs up to `i`
   are in order (the pair at `i` once something has been shifted into it),
   the element just above the hole is greater than `temp`, and nothing above
   `i` has been touched.
   */
  ghost predicate ChainState(a: seq<int>, gap: int, i: int, s: seq<int>, j: int)
    requires 1 <= gap <= i < |a|
  {
    && 0 <= j <= i && (j == i || j + gap <= i)
    && |s| == |a| && multiset(s[j := a[i]]) == multiset(a)
    && (forall k :: gap <= k <= i && (k < i || j < i) ==> InOrderAt(s, gap, k))
    && (j < i ==> a[i] < s[j + gap])
    && (forall k :: i < k < |s| ==> s[k] == a[k])
  }

  /** One shift keeps the loop state, with the hole `gap` slots lower. */
  lemma ChainStep(a: seq<int>, gap: int, i: int, s: seq<int>, j: int)
    requires 1 <= gap <= i < |a|
    requires ChainState(a, gap, i, s, j)
    requires j >= gap && s[j - gap] > a[i]
    ensures ChainState(a, gap, i, s[j := s[j - gap]], j - gap)
  {
    HoleMovesDown(s, gap, j, a[i]);
    ShiftKeepsChainOrder(s, gap, i, j);
  }

  /**
   Copying the element below the hole up into it moves the hole down: with
   `temp` imagined in the hole, the array is only reordered.
   */
  lemma HoleMovesDown(s: seq<int>, gap: int, j: int, temp: int)
    requires 1 <= gap <= j < |s|
    ensures multiset(s[j := s[j - gap]][j - gap := temp]) == multiset(s[j := temp])
  {
  }

  /** Shifting the element at `j - gap` up into the hole at `j` keeps every chain pair up to `i` in order. */
  lemma ShiftKeepsChainOrder(s: seq<int>, gap: int, i: int, j: int)
    requires 1 <= gap <= j <= i < |s| && (j == i || j + gap <= i)
    requires forall k :: gap <= k <= i && (k < i || j < i) ==> InOrderAt(s, gap, k)
    ensures var t := s[j := s[j - gap]]; forall k :: gap <= k <= i ==> InOrderAt(t, gap, k)
  {
    var t := s[j := s[j - gap]];
    forall k | gap <= k <= i ensures InOrderAt(t, gap, k) {
      if k == j + gap {
        assert InOrderAt(s, gap, j) && InOrderAt(s, gap, j + gap);
      } else if k != j {
        assert InOrderAt(s, gap, k);
      }
    }
  }

  /**
   Dropping `temp` into the hole at `j`, once the element below it is `<= temp`
   and the one above it (shifted there) is `> temp`, orders every chain pair up to `i`.
   */
  lemma FillKeepsChainOrder(s: seq<int>, gap: int, i: int, j: int, temp: int)
    requires 1 <= gap && 0 <= j <= i < |s| && (j == i || j + gap <= i)
    requires forall k :: gap <= k <= i && (k < i || j < i) ==> InOrderAt(s, gap, k)
    requires j < i ==> temp < s[j + gap]
    requires j >= gap ==> s[j - gap] <= temp
    ensures var t := s[j := temp]; forall k :: gap <= k <= i ==> InOrderAt(t, gap, k)
  {
    var t := s[j := temp];
    forall k | gap <= k <= i ensures InOrderAt(t, gap, k) {
      if k != j && k != j + gap {
        assert InOrderAt(s, gap, k);
      }
    }
  }

  /** One gap pass (one iteration of the outer loop): the result is gap-sorted. */
  method GapPass(a: seq<int>, gap: int) returns (s: seq<int>)
    requires gap >= 1
    ensures |s| == |a| && multiset(s) == multiset(a)
    ensures GapSorted(s, gap)
  {
    s := a;
    var i := gap;
    while i < |s|
      invariant gap <= i
      invariant |s| == |a| && multiset(s) == multiset(a)
      invariant forall k :: gap <= k < i && k < |s| ==> InOrderAt(s, gap, k)
    {
      s := GapInsert(s, gap, i);
      i := i + 1;
    }
  }

  /** Recording the current gap as visited keeps the visited gaps a prefix of `Halvings(g)`. */
  lemma RecordGap(gaps: seq<nat>, gap: nat, g: nat)
    requires gap > 0 && gaps + Halvings(gap) == Halvings(g)
    ensures (gaps + [gap]) + Halvings(gap / 2) == Halvings(g)
  {
    assert Halvings(gap) == [gap] + Halvings(gap / 2);
    assert (gaps + [gap]) + Halvings(gap / 2) == gaps + ([gap] + Halvings(gap / 2));
  }

  /**
   Shell sort: gap passes for `n/2, n/4, ..., 1`; the outer loop ends when the
   gap is 0. `gaps` records, in order, the gap of every pass that ran.
   */
  method ShellSort(a: seq<int>) returns (s: seq<int>, ghost gaps: seq<nat>)
    ensures Sorted(s) && multiset(s) == multiset(a)
    ensures Sorted(a) ==> s == a
    ensures gaps == Halvings(|a| / 2)
  {
    s := a;
    var gap: nat := |a| / 2;
    gaps := [];
    while gap > 0
      invariant |s| == |a| && multiset(s) == multiset(a)
      invariant gaps + Halvings(gap) == Halvings(|a| / 2)
      invariant gap == 0 ==> Sorted(s)
      decreases gap
    {
      s := GapPass(s, gap);
      if gap == 1 {
        GapOneSorted(s);
      }
      RecordGap(gaps, gap, |a| / 2);
      gaps := gaps + [gap];
      gap := gap / 2;
    }
    assert gaps + Halvings(gap) == gaps;
    if Sorted(a) {
      SortedPermutationUnique(a, s);
    }
  }
}
