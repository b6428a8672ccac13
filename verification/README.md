# Sorting algorithm comparator, modelled in Dafny

This project models the core of `sorting_algorithms.cpp`, a small C program that times six
textbook in-place sorts of an `int` array against each other. The model covers:

- the six sorts: bubble, selection, insertion, Shell, merge and quick;
- the helpers they are built from: `swap`, `merge` and `partition`;
- `copyArray`, which gives each timed run the same input;
- the comparison run of menu option 1, with the clock taken out.

**How the array is modelled.** Each C routine mutates `int arr[]` in place. In the model it
is a method that takes the array contents before the call (`a: seq<int>`) and returns the
contents after it (`s: seq<int>`). The loops, index arithmetic, comparisons and writes are
the same as in C: `arr[k] = v` becomes `s := s[k := v]`. The length parameter `n` of the C
signatures is `|a|`. Ranges are inclusive, `[l, r]` and `[low, high]`, as in the source.

**What is proved, for every sort:**

- the result is sorted (`Sorted`);
- the result is a permutation of the input (equal multisets);
- a sorted input comes back unchanged.

For the range sorts `mergeSort` and `quickSort`:

- nothing outside the range changes (`SameOutside`);
- an empty or one-element range is left untouched.

**What is proved of each step.**

- The loop invariants of each algorithm are stated as contracts on its inner steps:
  - the bubble pass that places the next largest element;
  - the first-minimum scan of selection sort;
  - the insertion shift that moves only elements greater than the key;
  - the gap passes of Shell sort;
  - the merge-back loops;
  - the Lomuto scan.
- `merge` is tied to an independent functional reference, `MergeRuns`.
- A uniqueness lemma, `SortedPermutationUnique`, shows that the six algorithms, given
  identical copies of the reference array, leave identical results.

Modules: `SortSpec` holds the shared predicates and lemmas, `ElementarySorts`, `ShellSorting`,
`MergeSorting` and `QuickSorting` hold the algorithms, and `Benchmark` holds the driver.

## Model

| member | source | states |
|---|---|---|
| `SortSpec.Swap` | sorting_algorithms.cpp:122-126 | exchanging two slots leaves every other slot as it was and keeps the multiset of the array |
| `SortSpec.SortedPermutationUnique` | sorting_algorithms.cpp:206-235 | two sorted arrays with the same multiset are equal, so every correct sort of one input gives the same array |
| `SortSpec.GapOneSorted` | sorting_algorithms.cpp:154-165 | an array in which each element is in order with its neighbour (gap 1) is sorted, so the final Shell pass sorts |
| `ElementarySorts.BubblePass` | sorting_algorithms.cpp:38-44 | one outer iteration `i` moves the largest element of the unplaced prefix to slot `n-i-1`; the placed suffix stays sorted, above everything else and unchanged |
| `ElementarySorts.BubbleSort` | sorting_algorithms.cpp:35-46 | the result is a sorted permutation of the input; a sorted input is returned unchanged (including `n = 0, 1`) |
| `ElementarySorts.MinIndex` | sorting_algorithms.cpp:52-56 | the scan returns a position of the minimum of `arr[i..n)`, the first one, because the comparison is strict |
| `ElementarySorts.SelectionSort` | sorting_algorithms.cpp:49-61 | the prefix `[0, i)` is sorted and below the rest at every step; the result is a sorted permutation |
| `ElementarySorts.ShiftGreater` | sorting_algorithms.cpp:68-72 | the inner loop stops below the elements greater than the key and above those `<=` it; exactly those greater elements move one slot up |
| `ElementarySorts.InsertKey` | sorting_algorithms.cpp:67-73 | iteration `i` puts the key after every prefix element `<=` it and before every one `>` it; the result is that exact rearrangement and extends the sorted prefix to `[0, i]` |
| `ElementarySorts.InsertionSort` | sorting_algorithms.cpp:64-75 | the result is a sorted permutation of the input; a sorted input is returned unchanged |
| `ShellSorting.Halvings` | sorting_algorithms.cpp:155 | the gaps visited from `n/2` are positive and strictly decreasing; there are none exactly when `n/2 = 0`, and otherwise the last is 1 |
| `ShellSorting.ShiftChain` | sorting_algorithms.cpp:159-161 | the shifting loop keeps the chain pairs `gap` apart in order, the elements a permutation once `temp` is dropped into the hole, and stops below an element `> temp` and above one `<= temp` |
| `ShellSorting.ChainStep` | sorting_algorithms.cpp:160 | one shift `arr[j] = arr[j - gap]` keeps the loop state with the hole `gap` slots lower |
| `ShellSorting.GapInsert` | sorting_algorithms.cpp:157-162 | placing `temp` extends the in-order gap pairs from below `i` to `i`, reorders only, and leaves the slots above `i` alone |
| `ShellSorting.GapPass` | sorting_algorithms.cpp:156-163 | a whole pass leaves the array `gap`-sorted and a permutation of its input |
| `ShellSorting.ShellSort` | sorting_algorithms.cpp:154-165 | the passes run over exactly the gaps `Halvings(n/2)`, that is `n/2, n/4, ..., 1`; the result is a sorted permutation of the input, and a sorted input comes back unchanged |
| `MergeSorting.MergeRunsPermutes` | sorting_algorithms.cpp:91-102 | merging two runs keeps exactly the elements of both |
| `MergeSorting.MergeRunsSorted` | sorting_algorithms.cpp:91-102 | merging two sorted runs gives a sorted run |
| `MergeSorting.MergeHeads` | sorting_algorithms.cpp:90-100 | while both buffers have elements the loop writes the merge's prefix, taking `L[i]` on ties; on exit one buffer is used up and what remains to write is the merge of the rests |
| `MergeSorting.CopyRest` | sorting_algorithms.cpp:101-102 | a draining loop copies the rest of one buffer to consecutive slots from `k` and changes no other slot |
| `MergeSorting.Merge` | sorting_algorithms.cpp:78-106 | `[l, r]` becomes the merge of the runs `[l, m]` and `[m+1, r]`; it is a permutation of the old range, nothing outside changes, and sorted runs give a sorted range |
| `MergeSorting.MergeSort` | sorting_algorithms.cpp:108-115 | `[l, r]` is sorted and a permutation of its old contents; nothing outside changes; when `l >= r` the array is not modified |
| `MergeSorting.CallMergeSort` | sorting_algorithms.cpp:117-119 | the whole array is sorted and permuted; `n = 0, 1` and sorted inputs are left unchanged |
| `QuickSorting.LomutoScan` | sorting_algorithms.cpp:129-136 | after the scan, `[low, i]` holds elements below the pivot, `(i, high)` the others, and the pivot is still at `high` |
| `QuickSorting.Partition` | sorting_algorithms.cpp:128-139 | the old `arr[high]` ends at the returned `p` in `[low, high]`, with smaller elements before it and no smaller element after it; the range is permuted and nothing outside changes |
| `QuickSorting.SidesSorted` | sorting_algorithms.cpp:143-145 | sorting the two sides of a partitioned range sorts the range |
| `QuickSorting.QuickSort` | sorting_algorithms.cpp:141-147 | `[low, high]` is sorted and a permutation of its old contents; nothing outside changes; when `low >= high` the array is not modified |
| `QuickSorting.CallQuickSort` | sorting_algorithms.cpp:149-151 | the whole array is sorted and permuted; `n = 0, 1` and sorted inputs are left unchanged |
| `Benchmark.CopyArray` | sorting_algorithms.cpp:19-23 | `dest[i] == source[i]` for `i` in `[0, size)`, the rest of `dest` is unchanged, and a full-size copy equals the source |
| `Benchmark.ExecuteAndMeasure` | sorting_algorithms.cpp:169-179 | the chosen algorithm is applied once and leaves a sorted permutation of the array |
| `Benchmark.CompareAll` | sorting_algorithms.cpp:206-235 | the six runs happen in report order, each on an identical copy of the reference array, and all six leave the same sorted array |

## Left out

- Timing in `executeAndMeasure`. The `clock()` readings, the `double` division by `CLOCKS_PER_SEC`
  and the `printf` of the report row (lines 170-178) are not modelled; the model only invokes the
  sort once.
- The menu loop of `main`: `scanf`, `printf`, menu options 2 (resize) and 3 (view sample), and
  `printArray` (lines 7-16, 181-262). These are console I/O.
- `generateRandomData`, `srand` and `rand` (lines 26-30, 182). These are nondeterministic library
  calls. The reference array is a parameter of `Benchmark.CompareAll`, of any contents; the source
  fills it with values in `[0, 10000)`.
- `malloc`/`free` of the merge buffers and of the arrays in `main`. The buffers `L` and `R` are
  sequence slices. The code never checks `malloc` for a null result, so allocation failure has
  no behaviour to model.
- C `int` overflow. Elements and indices are mathematical integers, for example in
  `l + (r - l) / 2` and `size * sizeof(int)`. The methods require indices within the array
  instead.
- Stability as an observable property. The sorts work on plain `int`s, and equal `int`s cannot
  be told apart. The comparisons that decide the tie behaviour are modelled exactly:
  - `<=` in `merge` (line 92), where `MergeRuns` and `MergeHeads` take the left element on a tie;
  - `>` in `insertionSort` (line 69), where `InsertKey` moves only elements greater than the key;
  - `<` in `selectionSort` (line 54), where `MinIndex` takes the first minimum.
- Performance: the quadratic sorts, the `O(n^2)` worst case of the last-element pivot, and
  recursion depth. These are not functional properties.
