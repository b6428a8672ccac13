/**
 The comparison run of `sorting_algorithms.cpp` (menu option 1): for each of
 the six algorithms in a fixed order, the reference array is copied into the
 test buffer with `copyArray` and the algorithm sorts the copy through
 `executeAndMeasure`. The clock readings and the printed report are not
 modelled; a run records which algorithm ran, the input it was given and
 the array it left.
 */
module Benchmark {
  import opened SortSpec
  import ElementarySorts
  import ShellSorting
  import MergeSorting
  import QuickSorting

  datatype Algorithm = Bubble | Selection | Insertion | Shell | Merge | Quick

  /** The order in which the comparison runs the algorithms. */
  const ReportOrder: seq<Algorithm> := [Bubble, Selection, Insertion, Shell, Merge, Quick]

  /** One timed run: the algorithm, the array handed to it, and the array it left. */
  datatype Run = Run(alg: Algorithm, input: seq<int>, output: seq<int>)

  /**
   `copyArray(source, dest, size)`: the first `size` slots of `dest` take the
   values of `source`; the rest of `dest` is untouched (and `source`, a value
   here, cannot change).
   */
  method CopyArray(source: seq<int>, dest: seq<int>, size: int) returns (d: seq<int>)
    requires size <= |source| && size <= |dest|
    ensures |d| == |dest|
    ensures forall k :: 0 <= k < size ==> d[k] == source[k]
    ensures forall k :: 0 <= k < |dest| && size <= k ==> d[k] == dest[k]
    ensures size == |source| == |dest| ==> d == source
  {
    d := dest;
    var i := 0;
    while i < size
      invariant 0 <= i <= (if size < 0 then 0 else size)
      invariant |d| == |dest|
      invariant forall k :: 0 <= k < i ==> d[k] == source[k]
      invariant forall k :: i <= k < |dest| ==> d[k] == dest[k]
    {
      d := d[i := source[i]];
      i := i + 1;
    }
  }

  /**
   `executeAndMeasure(sortFunc, arr, n, name)` without the clock: the chosen
   algorithm is applied once to the whole array.
   */
  method ExecuteAndMeasure(alg: Algorithm, arr: seq<int>) returns (s: seq<int>)
    ensures |s| == |arr| && Sorted(s) && multiset(s) == multiset(arr)
    ensures Sorted(arr) ==> s == arr
  {
    match alg {
      case Bubble => s := ElementarySorts.BubbleSort(arr);
      case Selection => s := ElementarySorts.SelectionSort(arr);
      case Insertion => s := ElementarySorts.InsertionSort(arr);
      case Shell =>
        ghost var gaps;
        s, gaps := ShellSorting.ShellSort(arr);
      case Merge => s := MergeSorting.CallMergeSort(arr);
      case Quick => s := QuickSorting.CallQuickSort(arr);
    }
    PermutationLength(arr, s);
  }

  /**
   Menu option 1: every algorithm, in report order, is given an identical copy
   of the reference array (the test buffer starts as `scratch`, whatever it
   held), and all six leave the same sorted permutation of it.
   */
  method CompareAll(original: seq<int>, scratch: seq<int>) returns (runs: seq<Run>)
    requires |scratch| == |original|
    ensures |runs| == |ReportOrder|
    ensures forall k :: 0 <= k < |runs| ==> runs[k].alg == ReportOrder[k] && runs[k].input == original
    ensures forall k :: 0 <= k < |runs| ==> Sorted(runs[k].output) && multiset(runs[k].output) == multiset(original)
    ensures forall k :: 0 <= k < |runs| ==> runs[k].output == runs[0].output
  {
    var test := scratch;
    runs := [];
    var n := 0;
    while n < |ReportOrder|
      invariant 0 <= n <= |ReportOrder| && |runs| == n && |test| == |original|
      invariant forall k :: 0 <= k < n ==> runs[k].alg == ReportOrder[k] && runs[k].input == original
      invariant forall k :: 0 <= k < n ==> Sorted(runs[k].output) && multiset(runs[k].output) == multiset(original)
    {
      test := CopyArray(original, test, |original|);
      var input := test;
      test := ExecuteAndMeasure(ReportOrder[n], test);
      assert Sorted(test) && multiset(test) == multiset(original);
      runs := runs + [Run(ReportOrder[n], input, test)];
      n := n + 1;
    }
    forall k | 0 <= k < |runs| ensures runs[k].output == runs[0].output {
      SortedPermutationUnique(runs[k].output, runs[0].output);
    }
  }
}
