# Algorithm demo view model, modelled in Dafny

The Android playground app has a view model, `DSAViewModel`, that
demonstrates data-structure and algorithm basics. It has two groups of
operations:

- **Four integer sorts.** `bubbleSort`, `selectionSort`, `insertionSort` and
  `mergeSort` each take a list of `Int` and return a sorted list.
- **Three scans over a list of names.** They illustrate running-time classes:
  `checkFirst` is constant time, `printNames` is linear, and
  `printNamesTwice` is quadratic.

The view model keeps no state between calls, so the model has no class. It
has three modules:

- `SortSpec` (`sort_spec.dfy`) holds what a sort promises and the facts about
  it:
  - `Sorted`, the non-decreasing order.
  - The inversion count `Inversions`, with `CountGreater`.
  - `Rearranges`: output is input rearranged, position by position.
  - `KeepsTiesInOrder`: stability.
  - `SortedPermutationUnique`: a multiset has exactly one sorted arrangement.
- `SortingLibrary` (`sorting_library.dfy`) holds the four sorts:
  - **Bubble, selection and insertion sort.** The source copies the input
    with `toMutableList()`; here each sort copies it into a fresh `array`,
    rearranges the array in place with the source's loops, and returns its
    contents. The caller's list is a value and is never changed.
  - **Merge sort.** It splits at `size / 2`, sorts both halves recursively
    and merges them with the source's three `first()`/`subList(1, size)`
    loops.
  - **Ghost counters.** Ghost out-parameters record what the source only
    implies:
    - the swaps of bubble sort;
    - the shifts and comparisons of insertion sort;
    - for merge sort, the input position of every output element. This is
      what makes stability something that can be stated.
- `ComplexityDemo` (`complexity_demo.dfy`) holds the three scans. Each
  returns a trace, in order, of what its loop body reaches:
  - for `checkFirst` and `printNames`, the names;
  - for `printNamesTwice`, the (outer name, inner name) pairs.

  The length of the trace is the number of steps the scan takes.

## Model

All source paths are relative to the repository root;
`DSAViewModel.kt` stands for
`app/src/main/java/com/malcolmmaima/android/playground/ui/viewmodel/DSAViewModel.kt`
in the prose. The table cites the full path.

| member | source | states |
|---|---|---|
| SortingLibrary.CopyToArray | app/src/main/java/com/malcolmmaima/android/playground/ui/viewmodel/DSAViewModel.kt:66 | the mutable copy is a fresh array holding the input's elements in order, so sorting it never touches the caller's list |
| SortingLibrary.Swap | app/src/main/java/com/malcolmmaima/android/playground/ui/viewmodel/DSAViewModel.kt:72-74 | exchanging two elements through a temporary changes only those two positions and keeps the multiset |
| SortingLibrary.BubbleStep | app/src/main/java/com/malcolmmaima/android/playground/ui/viewmodel/DSAViewModel.kt:70-75 | swapping an out-of-order neighbouring pair keeps the elements and removes exactly one inversion, so swaps plus remaining inversions stay equal to the input's inversions |
| SortingLibrary.PassAdvance | app/src/main/java/com/malcolmmaima/android/playground/ui/viewmodel/DSAViewModel.kt:69-76 | comparing the pair at i, and swapping it when out of order, moves the pass on to i + 1: what remains of the pass still yields the whole pass, nothing before i + 1 exceeds the element there, a pass without a swap has left the list as it was, and the swap balance holds |
| SortingLibrary.PassEnd | app/src/main/java/com/malcolmmaima/android/playground/ui/viewmodel/DSAViewModel.kt:69-76 | at the last pair the list is the whole pass on values, its last element is at least every other, and a pass without a swap left the list unchanged with every neighbouring pair in order |
| SortingLibrary.PassFrom | app/src/main/java/com/malcolmmaima/android/playground/ui/viewmodel/DSAViewModel.kt:69-76 | each neighbouring pair from i on, left to right, is swapped when strictly out of order; the length is kept |
| SortingLibrary.BubblePass | app/src/main/java/com/malcolmmaima/android/playground/ui/viewmodel/DSAViewModel.kt:68-76 | the list after a pass is `PassFrom` of the list before it: each neighbouring pair, left to right, swapped when out of order. Its last element is the largest. `sorted` stays true exactly when the pass changed nothing, and then every neighbouring pair is in order. Otherwise at least one swap was made. The swap and inversion balance is kept |
| SortingLibrary.BubbleDone | app/src/main/java/com/malcolmmaima/android/playground/ui/viewmodel/DSAViewModel.kt:67-79 | when a pass swaps nothing the list is sorted, the swaps made equal the input's inversions, and a sorted input was returned unchanged with no swap |
| SortingLibrary.BubbleSort | app/src/main/java/com/malcolmmaima/android/playground/ui/viewmodel/DSAViewModel.kt:63-80 | returns a sorted permutation of the input; the swap count is the input's inversion count; a sorted input comes back unchanged with zero swaps; the loop ends because each pass that swaps lowers the inversion count |
| SortingLibrary.FindMin | app/src/main/java/com/malcolmmaima/android/playground/ui/viewmodel/DSAViewModel.kt:86-91 | the index found is in the unsorted suffix, its element is at most every element of the suffix, and it is the first such index (strict `<` keeps the earliest minimum) |
| SortingLibrary.SelectionStep | app/src/main/java/com/malcolmmaima/android/playground/ui/viewmodel/DSAViewModel.kt:92-94 | swapping the suffix minimum into position i extends the sorted prefix, all of whose elements are at most every later element, by one |
| SortingLibrary.SelectionDone | app/src/main/java/com/malcolmmaima/android/playground/ui/viewmodel/DSAViewModel.kt:85-97 | once all positions but the last are selected the list is sorted, and a sorted input is returned unchanged |
| SortingLibrary.SelectionSort | app/src/main/java/com/malcolmmaima/android/playground/ui/viewmodel/DSAViewModel.kt:82-98 | returns a sorted permutation of the input, and a sorted input unchanged |
| SortingLibrary.ShiftGreater | app/src/main/java/com/malcolmmaima/android/playground/ui/viewmodel/DSAViewModel.kt:105-109 | the inner loop moves the elements before position i that are greater than the lifted one up one place. It stops at the first one that is not greater, or at the front. Positions up to and including the gap, and those after i, are unchanged. The comparisons of the loop condition, counted where they are evaluated, are one per element moved plus one unless the gap reached the front |
| SortingLibrary.InsertKeepsSorted | app/src/main/java/com/malcolmmaima/android/playground/ui/viewmodel/DSAViewModel.kt:106-110 | dropping the lifted element into the gap keeps the prefix sorted |
| SortingLibrary.InsertPassesGreater | app/src/main/java/com/malcolmmaima/android/playground/ui/viewmodel/DSAViewModel.kt:106-109 | the number of elements shifted is the number of earlier elements greater than the lifted one |
| SortingLibrary.InsertionStep | app/src/main/java/com/malcolmmaima/android/playground/ui/viewmodel/DSAViewModel.kt:104-110 | after outer step i the first i + 1 elements are a sorted rearrangement of the input's first i + 1, the rest is still the input's, and the shifts are the inversions among the first i + 1 |
| SortingLibrary.InsertNext | app/src/main/java/com/malcolmmaima/android/playground/ui/viewmodel/DSAViewModel.kt:104-110 | one outer step keeps that invariant; comparisons are the shifts plus at most one, and exactly one when nothing is shifted |
| SortingLibrary.InsertionDone | app/src/main/java/com/malcolmmaima/android/playground/ui/viewmodel/DSAViewModel.kt:103-113 | when all elements are inserted the list is a sorted permutation, the shifts equal the input's inversions, and a sorted input is unchanged with no shift |
| SortingLibrary.InsertionSort | app/src/main/java/com/malcolmmaima/android/playground/ui/viewmodel/DSAViewModel.kt:100-114 | returns a sorted permutation of the input; shifts = inversions; comparisons lie between the shifts and the shifts plus n - 1; a sorted input comes back unchanged after no shift and exactly n - 1 comparisons |
| SortingLibrary.TakeLeft | app/src/main/java/com/malcolmmaima/android/playground/ui/viewmodel/DSAViewModel.kt:128-130 | taking the left head when it is not above the right head keeps the merge's bookkeeping, order and tie rule, and `subList(1, size)` is the rest of the left half |
| SortingLibrary.TakeRight | app/src/main/java/com/malcolmmaima/android/playground/ui/viewmodel/DSAViewModel.kt:131-134 | taking the right head only when it is strictly below the left head keeps the same facts |
| SortingLibrary.MergeDone | app/src/main/java/com/malcolmmaima/android/playground/ui/viewmodel/DSAViewModel.kt:136-145 | with both halves used up, the result holds exactly the elements of both halves and rearranges left + right. It keeps each half's order, is sorted when both halves are, and keeps ties in left-then-right order when the left half is sorted |
| SortingLibrary.Merge | app/src/main/java/com/malcolmmaima/android/playground/ui/viewmodel/DSAViewModel.kt:126-143 | the merged list holds exactly the elements of both halves, each half in its own order; it is sorted when both halves are; and, when the left half is sorted, equal elements keep their left + right order (stability) |
| SortSpec.RearrangesMultiset | app/src/main/java/com/malcolmmaima/android/playground/ui/viewmodel/DSAViewModel.kt:126-143 | a position-by-position rearrangement keeps the multiset, which gives the merge's multiset equation |
| SortingLibrary.ComposeRearranges | app/src/main/java/com/malcolmmaima/android/playground/ui/viewmodel/DSAViewModel.kt:121-125 | rearranging `subList(0, middle)` and `subList(middle, size)` and merging the results rearranges the whole input |
| SortingLibrary.ComposeKeepsTies | app/src/main/java/com/malcolmmaima/android/playground/ui/viewmodel/DSAViewModel.kt:124-135 | merging two stable sorts of the halves with ties to the left is a stable sort of the whole input |
| SortingLibrary.MergedHalves | app/src/main/java/com/malcolmmaima/android/playground/ui/viewmodel/DSAViewModel.kt:121-145 | the merge of the sorted halves is a stable sorted permutation of the input, and equals the input when the input was sorted |
| SortingLibrary.MergeSort | app/src/main/java/com/malcolmmaima/android/playground/ui/viewmodel/DSAViewModel.kt:116-146 | a list of at most one element is returned as is; otherwise the result is a sorted permutation of the input that keeps equal elements in input order; a sorted input is returned unchanged |
| SortingLibrary.MergeSortTwice | app/src/main/java/com/malcolmmaima/android/playground/ui/viewmodel/DSAViewModel.kt:116-146 | sorting the result of merge sort again returns it unchanged |
| SortingLibrary.SortsAgree | app/src/main/java/com/malcolmmaima/android/playground/ui/viewmodel/DSAViewModel.kt:63-146 | the four sorts return the same list for every input, and that list equals the input exactly when the input was already sorted |
| SortSpec.SortedPermutationUnique | app/src/main/java/com/malcolmmaima/android/playground/ui/viewmodel/DSAViewModel.kt:63-146 | two sorted lists with the same elements are equal: what makes the four sorts agree |
| SortSpec.AdjacentSortedIffSorted | app/src/main/java/com/malcolmmaima/android/playground/ui/viewmodel/DSAViewModel.kt:67-77 | neighbouring pairs all in order, which is what a pass without a swap checks, holds exactly when the list is sorted |
| SortSpec.InversionsZeroIffSorted | app/src/main/java/com/malcolmmaima/android/playground/ui/viewmodel/DSAViewModel.kt:67-77 | a list has no inversion exactly when it is sorted |
| SortSpec.AdjacentSwapInversions | app/src/main/java/com/malcolmmaima/android/playground/ui/viewmodel/DSAViewModel.kt:70-75 | swapping an out-of-order neighbouring pair lowers the inversion count by exactly one |
| SortSpec.CountGreaterPermutation | app/src/main/java/com/malcolmmaima/android/playground/ui/viewmodel/DSAViewModel.kt:106-109 | how many elements exceed a value does not depend on their order, so the shifts of insertion sort count the input's inversions |
| SortSpec.SortedPrefixInversions | app/src/main/java/com/malcolmmaima/android/playground/ui/viewmodel/DSAViewModel.kt:103-110 | a prefix of a sorted list has no inversion, so insertion sort never shifts on sorted input |
| ComplexityDemo.CheckFirst | app/src/main/java/com/malcolmmaima/android/playground/ui/viewmodel/DSAViewModel.kt:15-23 | at most one name is reached, and it is the first; exactly one is reached when the list is non-empty and none when it is empty |
| ComplexityDemo.PrintNames | app/src/main/java/com/malcolmmaima/android/playground/ui/viewmodel/DSAViewModel.kt:31-37 | every name is reached exactly once, in list order |
| ComplexityDemo.Grid | app/src/main/java/com/malcolmmaima/android/playground/ui/viewmodel/DSAViewModel.kt:51-59 | the pairs of the nested loops number exactly outer length times inner length |
| ComplexityDemo.PrintNamesTwice | app/src/main/java/com/malcolmmaima/android/playground/ui/viewmodel/DSAViewModel.kt:48-60 | the pairs reached are the grid of names against names, row after row: n * n of them |
| ComplexityDemo.GridAt | app/src/main/java/com/malcolmmaima/android/playground/ui/viewmodel/DSAViewModel.kt:51-59 | the pair (name i, name j) is reached at step i * n + j: every ordered pair once, outer index first |

## Left out

- `calculateSpaceComplexity` (DSAViewModel.kt lines 151-157) is not modelled.
  It samples the runtime's heap before and after calling a function. The
  numbers depend on the garbage collector and are not a function of any
  input.
- Timing and output are not modelled:
  - the `System.currentTimeMillis()` readings;
  - every `Log.d` and `println` call;
  - the `utf8Size()` byte count on line 49.

  Clocks and output streams are I/O. The scans return the names their
  bodies reach instead, so the order and number of steps are kept but not
  the text printed. `checkFirst`'s "no names" log line is therefore just
  the empty trace.
- Aliasing of `subList` is not modelled. In the source, `subList` returns
  views of the caller's list, and a list of at most one element is returned
  as the very same object. Lists here are values, so only contents can be
  stated. No call modifies those views, so contents are all a caller can
  observe.
- `Int` width is not modelled. Elements are unbounded `int`s, and the sorts
  only compare and move them, so 32-bit overflow cannot arise. The
  arithmetic on sizes and indices cannot overflow either:
  - `size / 2` of a non-negative size is the same in Kotlin and Dafny;
  - `size - 1`, the loop bound of bubble and selection sort, is -1 for an
    empty list in both languages, so neither loop runs;
  - the index steps `i + 1`, `j - 1` and `i + 1 until size` stay between -1
    and the size.
- The merge loops are inline in the source's `mergeSort`. Here they are the
  method `Merge` with the same three loops. Similarly, one pass of bubble
  sort (`BubblePass`), the minimum search of selection sort (`FindMin`) and
  one outer step of insertion sort (`InsertNext`, with `ShiftGreater` for
  its inner loop) are separate methods. The statements are the same; only
  the places where the proof is checked differ.
- Running time is counted only for insertion sort, as element comparisons,
  and for the scans, as trace lengths. The number of passes of bubble sort
  and the comparisons of selection sort are not counted. The source states
  no running time for the sorts.
- The fragment that generates the sample lists and calls these operations is
  not part of this model. Neither is the weather repository with its
  dependency-injection wiring. They are UI and network code, outside the
  view model's algorithms.
