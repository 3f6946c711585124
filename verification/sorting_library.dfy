/**
 * The four integer sorts of the algorithm demo view model. Each takes a list
 * and returns a new one; the three quadratic sorts copy their input into a
 * fresh array (the list copy the view model makes) and rearrange that copy in
 * place, so the caller's list is never changed. Merge sort works on immutable
 * slices and builds each merged result by appending.
 */
module SortingLibrary {
  import opened SortSpec

  /** A fresh array holding the elements of s in order: the mutable copy every quadratic sort starts from. */
  method CopyToArray(s: seq<int>) returns (a: array<int>)
    ensures fresh(a) && a[..] == s
  {
    a := new int[|s|](k requires 0 <= k < |s| => s[k]);
  }

  /** Exchanges two elements of a, as the sorts do through a temporary. */
  method Swap(a: array<int>, i: nat, j: nat)
    requires i < a.Length && j < a.Length
    modifies a
    ensures a[..] == old(a[..])[i := old(a[j])][j := old(a[i])]
    ensures multiset(a[..]) == multiset(old(a[..]))
  {
    var temp := a[i];
    a[i] := a[j];
    a[j] := temp;
  }

  /**
   * What bubble sort keeps: the list is a rearrangement of the input, and the
   * swaps made so far plus the inversions left add up to the input's inversions.
   */
  ghost predicate Bubbled(numbers: seq<int>, s: seq<int>, swaps: nat) {
    multiset(s) == multiset(numbers) && swaps + Inversions(s) == Inversions(numbers)
  }

  /** Swapping an out-of-order neighbouring pair is one more swap and one inversion fewer. */
  lemma BubbleStep(numbers: seq<int>, s: seq<int>, i: nat, swaps: nat)
    requires Bubbled(numbers, s, swaps) && i + 1 < |s| && s[i] > s[i + 1]
    ensures Bubbled(numbers, s[i := s[i + 1]][i + 1 := s[i]], swaps + 1)
  {
    AdjacentSwapInversions(s, i);
    AdjacentSwapMultiset(s, i);
  }

  /**
   * A bubble-sort pass on values, from position i on: each neighbouring pair
   * from i to the end, left to right, is swapped when it is out of order.
   */
  function PassFrom(s: seq<int>, i: nat): (t: seq<int>)
    ensures |t| == |s|
    decreases |s| - i
  {
    if i + 1 >= |s| then s
    else if s[i] > s[i + 1] then PassFrom(s[i := s[i + 1]][i + 1 := s[i]], i + 1)
    else PassFrom(s, i + 1)
  }

  /**
   * What a bubble-sort pass over `start` has established after reaching
   * position i: finishing the pass from i gives the whole pass, nothing
   * before i exceeds the element at i, and while nothing was swapped the
   * list is still `start` with its first i pairs in order.
   */
  ghost predicate PassInvariant(start: seq<int>, s: seq<int>, i: nat, sorted: bool) {
    && |s| == |start| && i <= |s| && (|s| > 0 ==> i <= |s| - 1)
    && PassFrom(s, i) == PassFrom(start, 0)
    && (|s| > 0 ==> forall k :: 0 <= k < i ==> s[k] <= s[i])
    && (sorted ==> s == start && forall k :: 0 <= k < i ==> s[k] <= s[k + 1])
  }

  /** Swapping an out-of-order pair at i moves the pass on to i + 1. */
  lemma PassSwap(start: seq<int>, s: seq<int>, i: nat, sorted: bool)
    requires PassInvariant(start, s, i, sorted) && i + 1 < |s| && s[i] > s[i + 1]
    ensures PassInvariant(start, s[i := s[i + 1]][i + 1 := s[i]], i + 1, false)
  {
  }

  /** Leaving an ordered pair at i moves the pass on to i + 1. */
  lemma PassKeep(start: seq<int>, s: seq<int>, i: nat, sorted: bool)
    requires PassInvariant(start, s, i, sorted) && i + 1 < |s| && s[i] <= s[i + 1]
    ensures PassInvariant(start, s, i + 1, sorted)
  {
  }

  /** Everything a pass keeps: its own progress, and the swap and inversion balance of bubble sort. */
  ghost predicate PassState(numbers: seq<int>, start: seq<int>, s: seq<int>, i: nat, sorted: bool, swaps0: nat, swaps: nat) {
    && PassInvariant(start, s, i, sorted)
    && Bubbled(numbers, s, swaps)
    && (sorted ==> swaps == swaps0)
    && (!sorted ==> swaps > swaps0)
  }

  /** Comparing the pair at i, and swapping it when out of order, moves the pass on to i + 1. */
  lemma PassAdvance(numbers: seq<int>, start: seq<int>, s: seq<int>, i: nat, sorted: bool, swaps0: nat, swaps: nat)
    requires PassState(numbers, start, s, i, sorted, swaps0, swaps) && i + 1 < |s|
    ensures s[i] > s[i + 1] ==> PassState(numbers, start, s[i := s[i + 1]][i + 1 := s[i]], i + 1, false, swaps0, swaps + 1)
    ensures s[i] <= s[i + 1] ==> PassState(numbers, start, s, i + 1, sorted, swaps0, swaps)
  {
    if s[i] > s[i + 1] {
      PassSwap(start, s, i, sorted);
      BubbleStep(numbers, s, i, swaps);
    } else {
      PassKeep(start, s, i, sorted);
    }
  }

  /** At the last pair the pass is complete: the largest element is last, and without a swap every pair is in order. */
  lemma PassEnd(start: seq<int>, s: seq<int>, i: nat, sorted: bool)
    requires PassInvariant(start, s, i, sorted) && i + 1 >= |s|
    ensures s == PassFrom(start, 0)
    ensures forall k :: 0 <= k < |s| - 1 ==> s[k] <= s[|s| - 1]
    ensures sorted ==> s == start && AdjacentSorted(s)
  {
  }

  /**
   * One pass of bubble sort: walk the neighbouring pairs left to right and
   * swap each one that is out of order. The list left behind is the pass on
   * values; its last element is the largest. `sorted` stays true exactly
   * when no pair was swapped, which is exactly when the pass changed
   * nothing, and then every pair is in order.
   */
  method BubblePass(list: array<int>, ghost numbers: seq<int>, ghost swaps0: nat) returns (sorted: bool, ghost swaps: nat)
    requires Bubbled(numbers, list[..], swaps0)
    modifies list
    ensures list[..] == PassFrom(old(list[..]), 0)
    ensures forall k :: 0 <= k < list.Length - 1 ==> list[k] <= list[list.Length - 1]
    ensures Bubbled(numbers, list[..], swaps)
    ensures sorted <==> list[..] == old(list[..])
    ensures sorted ==> swaps == swaps0 && AdjacentSorted(list[..])
    ensures !sorted ==> swaps > swaps0
  {
    ghost var start := list[..];
    sorted, swaps := true, swaps0;
    var i := 0;
    while i < list.Length - 1
      invariant 0 <= i <= list.Length
      invariant PassState(numbers, start, list[..], i, sorted, swaps0, swaps)
    {
      PassAdvance(numbers, start, list[..], i, sorted, swaps0, swaps);
      if list[i] > list[i + 1] {
        sorted := false;
        Swap(list, i, i + 1);
        swaps := swaps + 1;
      }
      i := i + 1;
    }
    PassEnd(start, list[..], i, sorted);
  }

  /** When a pass swaps nothing the list is sorted, and every inversion of the input was paid for by one swap. */
  lemma BubbleDone(numbers: seq<int>, r: seq<int>, swaps: nat)
    requires Bubbled(numbers, r, swaps) && AdjacentSorted(r)
    ensures Sorted(r) && multiset(r) == multiset(numbers)
    ensures swaps == Inversions(numbers)
    ensures Sorted(numbers) ==> swaps == 0 && r == numbers
  {
    AdjacentSortedIffSorted(r);
    InversionsZeroIffSorted(r);
    InversionsZeroIffSorted(numbers);
    if Sorted(numbers) {
      SortedPermutationUnique(r, numbers);
    }
  }

  /**
   * Bubble sort: repeat passes until a pass swaps nothing. The ghost `swaps`
   * counts the swaps performed; every swap removes exactly one inversion,
   * which is also why the outer loop ends.
   */
  method BubbleSort(numbers: seq<int>) returns (r: seq<int>, ghost swaps: nat)
    ensures Sorted(r) && multiset(r) == multiset(numbers)
    ensures swaps == Inversions(numbers)
    ensures Sorted(numbers) ==> swaps == 0 && r == numbers
  {
    var list := CopyToArray(numbers);
    var sorted := false;
    swaps := 0;
    while !sorted
      invariant Bubbled(numbers, list[..], swaps)
      invariant sorted ==> AdjacentSorted(list[..])
      decreases Inversions(numbers) - swaps, !sorted
    {
      sorted, swaps := BubblePass(list, numbers, swaps);
    }
    r := list[..];
    BubbleDone(numbers, r, swaps);
  }

  /**
   * What selection sort has established after placing i elements: the first i
   * are sorted and none of them exceeds any element after them.
   */
  ghost predicate SelectedPrefix(s: seq<int>, i: nat) {
    && (forall p, q :: 0 <= p < q < i && q < |s| ==> s[p] <= s[q])
    && (forall p, q :: 0 <= p < i <= q < |s| ==> s[p] <= s[q])
  }

  /** Swapping the least element of the suffix into position i extends the selected prefix by one. */
  lemma SelectionStep(prev: seq<int>, i: nat, min: nat)
    requires i <= min < |prev| && SelectedPrefix(prev, i)
    requires forall k :: i <= k < |prev| ==> prev[min] <= prev[k]
    ensures SelectedPrefix(prev[i := prev[min]][min := prev[i]], i + 1)
  {
    var after := prev[i := prev[min]][min := prev[i]];
    forall p, q | 0 <= p < q < i + 1 && q < |after| ensures after[p] <= after[q] {
      if q == i {
        assert after[p] == prev[p] && prev[p] <= prev[min];
      }
    }
    forall p, q | 0 <= p < i + 1 <= q < |after| ensures after[p] <= after[q] {
      if p == i {
        assert after[q] == prev[q] || after[q] == prev[i];
      } else {
        assert after[p] == prev[p];
        assert after[q] == prev[q] || after[q] == prev[i];
      }
    }
  }

  /** Once every element but the last is selected, the whole list is sorted. */
  lemma SelectedAll(s: seq<int>)
    requires |s| > 0 && SelectedPrefix(s, |s| - 1)
    ensures Sorted(s)
  {
  }

  /** When selection sort stops, its copy is the sorted rearrangement of the input. */
  lemma SelectionDone(numbers: seq<int>, r: seq<int>)
    requires multiset(r) == multiset(numbers) && (|r| > 0 ==> SelectedPrefix(r, |r| - 1))
    ensures Sorted(r)
    ensures Sorted(numbers) ==> r == numbers
  {
    if |r| > 0 {
      SelectedAll(r);
    }
    if Sorted(numbers) {
      SortedPermutationUnique(r, numbers);
    }
  }

  /**
   * The inner loop of selection sort: the position of the first smallest
   * element of list from position i on.
   */
  method FindMin(list: array<int>, i: nat) returns (min: nat)
    requires i < list.Length
    ensures i <= min < list.Length
    ensures forall k :: i <= k < list.Length ==> list[min] <= list[k]
    ensures forall k :: i <= k < min ==> list[min] < list[k]
  {
    min := i;
    var j := i + 1;
    while j < list.Length
      invariant i <= min < j <= list.Length
      invariant forall k :: i <= k < j ==> list[min] <= list[k]
      invariant forall k :: i <= k < min ==> list[min] < list[k]
    {
      if list[j] < list[min] {
        min := j;
      }
      j := j + 1;
    }
  }

  /**
   * Selection sort: for each position but the last, swap the smallest element
   * of the unsorted suffix into it.
   */
  method SelectionSort(numbers: seq<int>) returns (r: seq<int>)
    ensures Sorted(r) && multiset(r) == multiset(numbers)
    ensures Sorted(numbers) ==> r == numbers
  {
    var list := CopyToArray(numbers);
    var i := 0;
    while i < list.Length - 1
      invariant 0 <= i <= list.Length
      invariant list.Length > 0 ==> i <= list.Length - 1
      invariant multiset(list[..]) == multiset(numbers)
      invariant SelectedPrefix(list[..], i)
    {
      var min := FindMin(list, i);
      SelectionStep(list[..], i, min);
      Swap(list, i, min);
      i := i + 1;
    }
    r := list[..];
    SelectionDone(numbers, r);
  }

  /**
   * After the inner loop of insertion sort has moved element i of `prev` to
   * position j, the first i + 1 elements of `after` are prev[..j], then that
   * element, then prev[j..i], and the rest is untouched.
   */
  lemma Placed(prev: seq<int>, after: seq<int>, i: nat, j: nat)
    requires |prev| == |after| && j <= i < |prev|
    requires forall k :: 0 <= k < j ==> after[k] == prev[k]
    requires after[j] == prev[i]
    requires forall k :: j <= k < i ==> after[k + 1] == prev[k]
    requires forall k :: i < k < |after| ==> after[k] == prev[k]
    ensures after[..i + 1] == prev[..j] + [prev[i]] + prev[j..i]
    ensures after[i + 1..] == prev[i + 1..]
  {
    forall k | 0 <= k <= i ensures after[k] == (prev[..j] + [prev[i]] + prev[j..i])[k] {
      if k > j {
        assert after[(k - 1) + 1] == prev[k - 1];
      }
    }
  }

  /**
   * Putting element i of `prev` into the sorted prefix prev[..i] just after
   * the elements not above it keeps the prefix sorted.
   */
  lemma InsertKeepsSorted(prev: seq<int>, i: nat, j: nat)
    requires j <= i < |prev| && Sorted(prev[..i])
    requires j > 0 ==> prev[j - 1] <= prev[i]
    requires forall k :: j <= k < i ==> prev[k] > prev[i]
    ensures Sorted(prev[..j] + [prev[i]] + prev[j..i])
  {
    var placed := prev[..j] + [prev[i]] + prev[j..i];
    assert forall k :: 0 <= k < j ==> placed[k] == prev[k];
    assert forall k :: j < k < |placed| ==> placed[k] == prev[k - 1];
    forall p, q | 0 <= p < q < |placed| ensures placed[p] <= placed[q] {
      if q < j {
        assert prev[..i][p] <= prev[..i][q];
      } else if p > j {
        assert prev[..i][p - 1] <= prev[..i][q - 1];
      } else if p < j {
        assert prev[..i][p] <= prev[..i][j - 1];
      }
    }
  }

  /** The part of the sorted prefix before position j holds nothing above element i. */
  lemma PrefixNotAbove(prev: seq<int>, i: nat, j: nat)
    requires j <= i < |prev| && Sorted(prev[..i])
    requires j > 0 ==> prev[j - 1] <= prev[i]
    ensures forall k :: 0 <= k < |prev[..j]| ==> prev[..j][k] <= prev[i]
  {
    forall k | 0 <= k < j ensures prev[..j][k] <= prev[i] {
      assert prev[..i][k] <= prev[..i][j - 1];
    }
  }

  /** The elements from position j up to i are all above element i. */
  lemma SliceAbove(prev: seq<int>, i: nat, j: nat)
    requires j <= i < |prev|
    requires forall k :: j <= k < i ==> prev[k] > prev[i]
    ensures forall k :: 0 <= k < |prev[j..i]| ==> prev[j..i][k] > prev[i]
  {
  }

  /** The prefix up to i is the prefix up to j followed by the slice from j to i. */
  lemma SplitPrefix(prev: seq<int>, i: nat, j: nat)
    requires j <= i <= |prev|
    ensures prev[..i] == prev[..j] + prev[j..i]
  {
  }

  /**
   * The elements that element i passes on its way into the sorted prefix
   * prev[..i] are exactly the elements of the prefix greater than it.
   */
  lemma InsertPassesGreater(prev: seq<int>, i: nat, j: nat)
    requires j <= i < |prev| && Sorted(prev[..i])
    requires j > 0 ==> prev[j - 1] <= prev[i]
    requires forall k :: j <= k < i ==> prev[k] > prev[i]
    ensures CountGreater(prev[i], prev[..i]) == i - j
  {
    var x := prev[i];
    PrefixNotAbove(prev, i, j);
    CountGreaterZero(x, prev[..j]);
    SliceAbove(prev, i, j);
    CountGreaterAll(x, prev[j..i]);
    SplitPrefix(prev, i, j);
    CountGreaterAppend(x, prev[..j], prev[j..i]);
  }

  /** Moving element i into the prefix adds exactly that element to the prefix's multiset. */
  lemma PlacedPermutation(prev: seq<int>, i: nat, j: nat)
    requires j <= i < |prev|
    ensures multiset(prev[..j] + [prev[i]] + prev[j..i]) == multiset(prev[..i]) + multiset{prev[i]}
  {
    assert prev[..i] == prev[..j] + prev[j..i];
  }

  /**
   * What insertion sort has established after i outer steps: the first i
   * elements are a sorted rearrangement of the input's first i, the rest is
   * still the input's, and the shifts so far are the inversions among the
   * first i input elements.
   */
  ghost predicate InsertedPrefix(numbers: seq<int>, s: seq<int>, i: nat, shifts: nat) {
    && i <= |s| == |numbers|
    && Sorted(s[..i]) && multiset(s[..i]) == multiset(numbers[..i])
    && s[i..] == numbers[i..]
    && shifts == Inversions(numbers[..i])
  }

  /** When every element has been inserted the whole list is a sorted rearrangement of the input. */
  lemma InsertedAll(numbers: seq<int>, s: seq<int>, shifts: nat)
    requires InsertedPrefix(numbers, s, |s|, shifts)
    ensures Sorted(s) && multiset(s) == multiset(numbers) && shifts == Inversions(numbers)
  {
    assert s[..|s|] == s && numbers[..|s|] == numbers;
  }

  /**
   * One outer step of insertion sort, on values: if the first i elements are a
   * sorted rearrangement of the input's first i, and element i is put back just
   * after the elements not above it, the first i + 1 elements are a sorted
   * rearrangement of the input's first i + 1, and the elements it passed are
   * the inversions element i adds.
   */
  lemma InsertionStep(numbers: seq<int>, prev: seq<int>, after: seq<int>, i: nat, j: nat, shifts: nat)
    requires |prev| == |numbers| == |after| && j <= i < |numbers|
    requires InsertedPrefix(numbers, prev, i, shifts)
    requires j > 0 ==> prev[j - 1] <= prev[i]
    requires forall k :: j <= k < i ==> prev[k] > prev[i]
    requires forall k :: 0 <= k < j ==> after[k] == prev[k]
    requires after[j] == prev[i]
    requires forall k :: j <= k < i ==> after[k + 1] == prev[k]
    requires forall k :: i < k < |after| ==> after[k] == prev[k]
    ensures InsertedPrefix(numbers, after, i + 1, shifts + (i - j))
  {
    SuffixStep(prev, numbers, i);
    Placed(prev, after, i, j);
    InsertKeepsSorted(prev, i, j);
    InsertPassesGreater(prev, i, j);
    PlacedPermutation(prev, i, j);
    PrefixStep(numbers, i);
    CountGreaterPermutation(prev[i], prev[..i], numbers[..i]);
  }

  /**
   * The inner loop of insertion sort: starting from the gap at position i,
   * move each element before the gap that is greater than `temp` one place
   * right, and return where the gap ends up. The ghost `comparisons` counts
   * the evaluations of `list[j - 1] > temp` in the loop's condition: one
   * per element moved, and the one that stops the loop unless the gap
   * reached the front.
   */
  method ShiftGreater(list: array<int>, i: nat, temp: int) returns (j: nat, ghost comparisons: nat)
    requires i < list.Length
    modifies list
    ensures j <= i
    ensures j > 0 ==> list[j - 1] <= temp
    ensures forall k :: 0 <= k <= j ==> list[k] == old(list[k])
    ensures forall k :: j <= k < i ==> list[k + 1] == old(list[k]) && old(list[k]) > temp
    ensures forall k :: i < k < list.Length ==> list[k] == old(list[k])
    ensures comparisons == (i - j) + (if j > 0 then 1 else 0)
  {
    j, comparisons := i, 0;
    while j > 0 && list[j - 1] > temp
      invariant 0 <= j <= i
      invariant forall k :: 0 <= k <= j ==> list[k] == old(list[k])
      invariant forall k :: j <= k < i ==> list[k + 1] == old(list[k]) && old(list[k]) > temp
      invariant forall k :: i < k < list.Length ==> list[k] == old(list[k])
      invariant comparisons == i - j
    {
      comparisons := comparisons + 1;
      list[j] := list[j - 1];
      j := j - 1;
    }
    if j > 0 {
      // the evaluation of list[j - 1] > temp that ended the loop
      comparisons := comparisons + 1;
    }
  }

  /**
   * One outer step of insertion sort: lift element i out, shift the larger
   * elements before it one place right, and drop it into the gap. The ghost
   * `shifts` grows by the number of elements moved; `comparisons` counts the
   * element comparisons of the inner loop's condition: one per element
   * moved, and the one that stops it unless the gap reached the front.
   */
  method InsertNext(list: array<int>, i: nat, ghost numbers: seq<int>, ghost shifts0: nat) returns (ghost shifts: nat, ghost comparisons: nat)
    requires 0 < i < list.Length && InsertedPrefix(numbers, list[..], i, shifts0)
    modifies list
    ensures InsertedPrefix(numbers, list[..], i + 1, shifts)
    ensures shifts0 <= shifts <= comparisons + shifts0 <= shifts + 1
    ensures shifts == shifts0 ==> comparisons == 1
  {
    ghost var prev := list[..];
    var temp := list[i];
    var j;
    j, comparisons := ShiftGreater(list, i, temp);
    list[j] := temp;
    shifts := shifts0 + (i - j);
    InsertionStep(numbers, prev, list[..], i, j, shifts0);
  }

  /** When every element has been inserted, the list is the sorted rearrangement of the input. */
  lemma InsertionDone(numbers: seq<int>, r: seq<int>, shifts: nat)
    requires InsertedPrefix(numbers, r, |r|, shifts)
    ensures Sorted(r) && multiset(r) == multiset(numbers)
    ensures shifts == Inversions(numbers)
    ensures Sorted(numbers) ==> shifts == 0 && r == numbers
  {
    InsertedAll(numbers, r, shifts);
    if Sorted(numbers) {
      InversionsZeroIffSorted(numbers);
      SortedPermutationUnique(r, numbers);
    }
  }

  /**
   * Insertion sort: each element in turn is lifted out and the larger
   * elements before it shift one place right until its place is found. The
   * ghost `shifts` counts those moves: one per inversion of the input, so an
   * input that is already sorted never shifts. The ghost `comparisons` counts
   * the element comparisons: at most one more than the shifts per element,
   * and exactly one per element after the first on a sorted input.
   */
  method InsertionSort(numbers: seq<int>) returns (r: seq<int>, ghost shifts: nat, ghost comparisons: nat)
    ensures Sorted(r) && multiset(r) == multiset(numbers)
    ensures shifts == Inversions(numbers)
    ensures shifts <= comparisons <= shifts + (if |numbers| == 0 then 0 else |numbers| - 1)
    ensures Sorted(numbers) ==> shifts == 0 && r == numbers
    ensures Sorted(numbers) ==> comparisons == (if |numbers| == 0 then 0 else |numbers| - 1)
  {
    var list := CopyToArray(numbers);
    shifts, comparisons := 0, 0;
    var i := 1;
    assert list[..][..0] == [] && numbers[..0] == [];
    while i < list.Length
      invariant list.Length == |numbers| && 1 <= i <= (if list.Length == 0 then 1 else list.Length)
      invariant InsertedPrefix(numbers, list[..], if list.Length == 0 then 0 else i, shifts)
      invariant shifts <= comparisons <= shifts + (i - 1)
      invariant Sorted(numbers) ==> comparisons == i - 1
    {
      ghost var compared;
      shifts, compared := InsertNext(list, i, numbers, shifts);
      comparisons := comparisons + compared;
      if Sorted(numbers) {
        SortedPrefixInversions(numbers, i);
        SortedPrefixInversions(numbers, i + 1);
      }
      i := i + 1;
    }
    assert i - 1 == if |numbers| == 0 then 0 else |numbers| - 1;
    r := list[..];
    InsertionDone(numbers, r, shifts);
  }

  /**
   * The bookkeeping of the merge after taking i elements of `left` and j of
   * `right`: each result element names its position in left + right, those
   * positions are the first i of left and the first j of right, and each half
   * is taken in its own order.
   */
  ghost predicate MergeTrace(left: seq<int>, right: seq<int>, i: nat, j: nat, result: seq<int>, from: seq<nat>) {
    && i <= |left| && j <= |right| && |result| == |from| == i + j
    && (forall p :: 0 <= p < |from| ==>
          (from[p] < i || |left| <= from[p] < |left| + j)
          && result[p] == if from[p] < |left| then left[from[p]] else right[from[p] - |left|])
    && (forall p, q :: 0 <= p < q < |from| && (from[p] < |left| <==> from[q] < |left|) ==> from[p] < from[q])
  }

  /** For sorted halves: the result so far is sorted and not above either remaining head. */
  ghost predicate MergeOrdered(left: seq<int>, right: seq<int>, i: nat, j: nat, result: seq<int>) {
    && Sorted(result)
    && (i < |left| ==> forall p :: 0 <= p < |result| ==> result[p] <= left[i])
    && (j < |right| ==> forall p :: 0 <= p < |result| ==> result[p] <= right[j])
  }

  /**
   * For a sorted left half: ties so far are in left + right order, and every
   * element taken from the right is below every element still in the left.
   */
  ghost predicate MergeFavoursLeft(left: seq<int>, i: nat, result: seq<int>, from: seq<nat>) {
    && KeepsTiesInOrder(result, from)
    && (forall p, k :: 0 <= p < |from| && from[p] >= |left| && i <= k < |left| ==> result[p] < left[k])
  }

  ghost predicate MergeState(left: seq<int>, right: seq<int>, i: nat, j: nat, result: seq<int>, from: seq<nat>) {
    && MergeTrace(left, right, i, j, result, from)
    && (Sorted(left) && Sorted(right) ==> MergeOrdered(left, right, i, j, result))
    && (Sorted(left) ==> MergeFavoursLeft(left, i, result, from))
  }

  lemma TakeLeftTrace(left: seq<int>, right: seq<int>, i: nat, j: nat, result: seq<int>, from: seq<nat>)
    requires MergeTrace(left, right, i, j, result, from) && i < |left|
    ensures MergeTrace(left, right, i + 1, j, result + [left[i]], from + [i])
  {
    assert left[..i + 1] == left[..i] + [left[i]];
  }

  lemma TakeRightTrace(left: seq<int>, right: seq<int>, i: nat, j: nat, result: seq<int>, from: seq<nat>)
    requires MergeTrace(left, right, i, j, result, from) && j < |right|
    ensures MergeTrace(left, right, i, j + 1, result + [right[j]], from + [|left| + j])
  {
    assert right[..j + 1] == right[..j] + [right[j]];
  }

  lemma TakeLeftOrdered(left: seq<int>, right: seq<int>, i: nat, j: nat, result: seq<int>)
    requires Sorted(left) && MergeOrdered(left, right, i, j, result) && i < |left|
    requires j < |right| ==> left[i] <= right[j]
    ensures MergeOrdered(left, right, i + 1, j, result + [left[i]])
  {
  }

  lemma TakeRightOrdered(left: seq<int>, right: seq<int>, i: nat, j: nat, result: seq<int>)
    requires Sorted(right) && MergeOrdered(left, right, i, j, result) && j < |right|
    requires i < |left| ==> right[j] < left[i]
    ensures MergeOrdered(left, right, i, j + 1, result + [right[j]])
  {
  }

  lemma TakeLeftFavours(left: seq<int>, right: seq<int>, i: nat, j: nat, result: seq<int>, from: seq<nat>)
    requires MergeTrace(left, right, i, j, result, from) && MergeFavoursLeft(left, i, result, from)
    requires i < |left|
    ensures MergeFavoursLeft(left, i + 1, result + [left[i]], from + [i])
  {
    var result', from' := result + [left[i]], from + [i];
    forall p, q | 0 <= p < q < |result'| && result'[p] == result'[q] ensures from'[p] < from'[q] {
      if q == |result| {
        assert result[p] == left[i];
      }
    }
  }

  lemma TakeRightFavours(left: seq<int>, right: seq<int>, i: nat, j: nat, result: seq<int>, from: seq<nat>)
    requires Sorted(left) && MergeTrace(left, right, i, j, result, from) && MergeFavoursLeft(left, i, result, from)
    requires j < |right| && (i < |left| ==> right[j] < left[i])
    ensures MergeFavoursLeft(left, i, result + [right[j]], from + [|left| + j])
  {
    var result', from' := result + [right[j]], from + [|left| + j];
    forall p, k | 0 <= p < |from'| && from'[p] >= |left| && i <= k < |left| ensures result'[p] < left[k] {
      if p == |result| {
        assert left[i] <= left[k];
      }
    }
  }

  /**
   * The merge's state with its cursors: `l` and `r` are what remains of the
   * halves after i and j elements were taken.
   */
  ghost predicate MergeAt(left: seq<int>, right: seq<int>, l: seq<int>, r: seq<int>, i: nat, j: nat, result: seq<int>, from: seq<nat>) {
    && i <= |left| && j <= |right| && l == left[i..] && r == right[j..]
    && MergeState(left, right, i, j, result, from)
  }

  /** Taking the head of the left half keeps the merge's state and moves its cursor. */
  lemma TakeLeft(left: seq<int>, right: seq<int>, l: seq<int>, r: seq<int>, i: nat, j: nat, result: seq<int>, from: seq<nat>)
    requires MergeAt(left, right, l, r, i, j, result, from) && |l| > 0
    requires |r| > 0 ==> l[0] <= r[0]
    ensures MergeAt(left, right, l[1..], r, i + 1, j, result + [l[0]], from + [i])
  {
    assert l[0] == left[i] && l[1..] == left[i + 1..];
    TakeLeftTrace(left, right, i, j, result, from);
    if Sorted(left) && Sorted(right) {
      TakeLeftOrdered(left, right, i, j, result);
    }
    if Sorted(left) {
      TakeLeftFavours(left, right, i, j, result, from);
    }
  }

  /** Taking the head of the right half, when it is below the left head, keeps the merge's state and moves its cursor. */
  lemma TakeRight(left: seq<int>, right: seq<int>, l: seq<int>, r: seq<int>, i: nat, j: nat, result: seq<int>, from: seq<nat>)
    requires MergeAt(left, right, l, r, i, j, result, from) && |r| > 0
    requires |l| > 0 ==> r[0] < l[0]
    ensures MergeAt(left, right, l, r[1..], i, j + 1, result + [r[0]], from + [|left| + j])
  {
    assert r[0] == right[j] && r[1..] == right[j + 1..];
    TakeRightTrace(left, right, i, j, result, from);
    if Sorted(left) && Sorted(right) {
      TakeRightOrdered(left, right, i, j, result);
    }
    if Sorted(left) {
      TakeRightFavours(left, right, i, j, result, from);
    }
  }

  /** Once both halves are used up, the merge's state is its promise. */
  lemma MergeDone(left: seq<int>, right: seq<int>, i: nat, j: nat, result: seq<int>, from: seq<nat>)
    requires MergeAt(left, right, [], [], i, j, result, from)
    ensures multiset(result) == multiset(left) + multiset(right)
    ensures Rearranges(left + right, result, from)
    ensures forall p, q :: 0 <= p < q < |result| && (from[p] < |left| <==> from[q] < |left|) ==> from[p] < from[q]
    ensures Sorted(left) && Sorted(right) ==> Sorted(result)
    ensures Sorted(left) ==> KeepsTiesInOrder(result, from)
  {
    assert i == |left| && j == |right|;
    assert left[..|left|] == left && right[..|right|] == right;
    RearrangesMultiset(left + right, result, from);
  }

  /**
   * The merge loop of merge sort: while both halves are non-empty, move the
   * smaller head to the result, the left one when the heads are equal; then
   * append what remains of either half. The ghost `from` gives, for each
   * element of the result, its position in left + right.
   */
  method Merge(left: seq<int>, right: seq<int>) returns (result: seq<int>, ghost from: seq<nat>)
    ensures multiset(result) == multiset(left) + multiset(right)
    ensures Rearranges(left + right, result, from)
    ensures forall p, q :: 0 <= p < q < |result| && (from[p] < |left| <==> from[q] < |left|) ==> from[p] < from[q]
    ensures Sorted(left) && Sorted(right) ==> Sorted(result)
    ensures Sorted(left) ==> KeepsTiesInOrder(result, from)
  {
    var l, r := left, right;
    ghost var i, j := 0, 0;
    result, from := [], [];
    assert left[0..] == left && right[0..] == right;
    while |l| > 0 && |r| > 0
      invariant MergeAt(left, right, l, r, i, j, result, from)
      decreases |l| + |r|
    {
      if l[0] <= r[0] {
        TakeLeft(left, right, l, r, i, j, result, from);
        result, from := result + [l[0]], from + [i];
        l, i := l[1..], i + 1;
      } else {
        TakeRight(left, right, l, r, i, j, result, from);
        result, from := result + [r[0]], from + [|left| + j];
        r, j := r[1..], j + 1;
      }
    }
    while |l| > 0
      invariant (|l| == 0 || |r| == 0) && MergeAt(left, right, l, r, i, j, result, from)
      decreases |l|
    {
      TakeLeft(left, right, l, r, i, j, result, from);
      result, from := result + [l[0]], from + [i];
      l, i := l[1..], i + 1;
    }
    while |r| > 0
      invariant |l| == 0 && MergeAt(left, right, l, r, i, j, result, from)
      decreases |r|
    {
      TakeRight(left, right, l, r, i, j, result, from);
      result, from := result + [r[0]], from + [|left| + j];
      r, j := r[1..], j + 1;
    }
    MergeDone(left, right, i, j, result, from);
  }

  /** The rearrangement that leaves every element where it is. */
  ghost function Identity(n: nat): (id: seq<nat>)
    ensures |id| == n && forall p :: 0 <= p < n ==> id[p] == p
  {
    seq(n, p => p)
  }

  /**
   * Where each element of a merge of the sorted halves came from in the whole
   * list: through `from` into left + right, then through the origin of that half.
   */
  ghost function ComposeOrigins(middle: nat, leftOrigin: seq<nat>, rightOrigin: seq<nat>, from: seq<nat>): seq<nat>
    requires forall p :: 0 <= p < |from| ==> from[p] < |leftOrigin| + |rightOrigin|
  {
    seq(|from|, p requires 0 <= p < |from| =>
      if from[p] < |leftOrigin| then leftOrigin[from[p]] else middle + rightOrigin[from[p] - |leftOrigin|])
  }

  /** Rearranging each half and then merging the results rearranges the whole list. */
  lemma ComposeRearranges(numbers: seq<int>, middle: nat, left: seq<int>, right: seq<int>, leftOrigin: seq<nat>, rightOrigin: seq<nat>, merged: seq<int>, from: seq<nat>)
    requires middle <= |numbers|
    requires Rearranges(numbers[..middle], left, leftOrigin) && Rearranges(numbers[middle..], right, rightOrigin)
    requires Rearranges(left + right, merged, from)
    ensures Rearranges(numbers, merged, ComposeOrigins(middle, leftOrigin, rightOrigin, from))
  {
    var origin := ComposeOrigins(middle, leftOrigin, rightOrigin, from);
    forall p | 0 <= p < |origin| ensures origin[p] < |numbers| && merged[p] == numbers[origin[p]] {
      if from[p] < |left| {
        assert merged[p] == left[from[p]] == numbers[..middle][leftOrigin[from[p]]];
      } else {
        assert merged[p] == right[from[p] - |left|] == numbers[middle..][rightOrigin[from[p] - |left|]];
      }
    }
    forall p, q | 0 <= p < q < |origin| ensures origin[p] != origin[q] {
      if from[p] < |left| && from[q] < |left| {
        assert leftOrigin[from[p]] != leftOrigin[from[q]];
      } else if from[p] >= |left| && from[q] >= |left| {
        assert rightOrigin[from[p] - |left|] != rightOrigin[from[q] - |left|];
      }
    }
  }

  /** Merging stable sorts of the halves, ties to the left, is a stable sort of the whole list. */
  lemma ComposeKeepsTies(middle: nat, left: seq<int>, right: seq<int>, leftOrigin: seq<nat>, rightOrigin: seq<nat>, merged: seq<int>, from: seq<nat>)
    requires |leftOrigin| == |left| && |rightOrigin| == |right|
    requires forall k :: 0 <= k < |leftOrigin| ==> leftOrigin[k] < middle
    requires KeepsTiesInOrder(left, leftOrigin) && KeepsTiesInOrder(right, rightOrigin)
    requires Rearranges(left + right, merged, from) && KeepsTiesInOrder(merged, from)
    ensures KeepsTiesInOrder(merged, ComposeOrigins(middle, leftOrigin, rightOrigin, from))
  {
    var origin := ComposeOrigins(middle, leftOrigin, rightOrigin, from);
    forall p, q | 0 <= p < q < |merged| && merged[p] == merged[q] ensures origin[p] < origin[q] {
      assert from[p] < from[q];
      if from[q] < |left| {
        assert left[from[p]] == left[from[q]];
      } else if from[p] >= |left| {
        assert right[from[p] - |left|] == right[from[q] - |left|];
      }
    }
  }

  /** The merge of the sorted halves is the stable sorted rearrangement of the whole list. */
  lemma MergedHalves(numbers: seq<int>, middle: nat, left: seq<int>, right: seq<int>, leftOrigin: seq<nat>, rightOrigin: seq<nat>, merged: seq<int>, from: seq<nat>)
    requires middle <= |numbers|
    requires multiset(left) == multiset(numbers[..middle]) && multiset(right) == multiset(numbers[middle..])
    requires Rearranges(numbers[..middle], left, leftOrigin) && KeepsTiesInOrder(left, leftOrigin)
    requires Rearranges(numbers[middle..], right, rightOrigin) && KeepsTiesInOrder(right, rightOrigin)
    requires Sorted(merged) && multiset(merged) == multiset(left) + multiset(right)
    requires Rearranges(left + right, merged, from) && KeepsTiesInOrder(merged, from)
    ensures multiset(merged) == multiset(numbers)
    ensures Rearranges(numbers, merged, ComposeOrigins(middle, leftOrigin, rightOrigin, from))
    ensures KeepsTiesInOrder(merged, ComposeOrigins(middle, leftOrigin, rightOrigin, from))
    ensures Sorted(numbers) ==> merged == numbers
  {
    ComposeRearranges(numbers, middle, left, right, leftOrigin, rightOrigin, merged, from);
    ComposeKeepsTies(middle, left, right, leftOrigin, rightOrigin, merged, from);
    assert numbers == numbers[..middle] + numbers[middle..];
    if Sorted(numbers) {
      SortedPermutationUnique(merged, numbers);
    }
  }

  /**
   * Merge sort: a list of at most one element is returned as it is; a longer
   * one is split at the middle, both halves are sorted, and the results are
   * merged. The ghost `origin` gives, for each element of the result, its
   * position in the input: the sort is stable.
   */
  method MergeSort(numbers: seq<int>) returns (r: seq<int>, ghost origin: seq<nat>)
    ensures |numbers| <= 1 ==> r == numbers
    ensures Sorted(r) && multiset(r) == multiset(numbers)
    ensures Rearranges(numbers, r, origin) && KeepsTiesInOrder(r, origin)
    ensures Sorted(numbers) ==> r == numbers
    decreases |numbers|
  {
    if |numbers| <= 1 {
      return numbers, Identity(|numbers|);
    }
    var middle := |numbers| / 2;
    var left, leftOrigin := MergeSort(numbers[..middle]);
    var right, rightOrigin := MergeSort(numbers[middle..]);
    ghost var from;
    r, from := Merge(left, right);
    MergedHalves(numbers, middle, left, right, leftOrigin, rightOrigin, r, from);
    origin := ComposeOrigins(middle, leftOrigin, rightOrigin, from);
  }

  /**
   * The four sorts of the demo return the same list for every input, and
   * that list is the input itself exactly when the input was already sorted.
   */
  method SortsAgree(numbers: seq<int>) returns (bubble: seq<int>, selection: seq<int>, insertion: seq<int>, merged: seq<int>)
    ensures bubble == selection == insertion == merged
    ensures Sorted(numbers) <==> bubble == numbers
  {
    ghost var swaps, shifts, comparisons, origin;
    bubble, swaps := BubbleSort(numbers);
    selection := SelectionSort(numbers);
    insertion, shifts, comparisons := InsertionSort(numbers);
    merged, origin := MergeSort(numbers);
    SortedPermutationUnique(bubble, selection);
    SortedPermutationUnique(bubble, insertion);
    SortedPermutationUnique(bubble, merged);
  }

  /** Merge sort is idempotent: sorting its result again returns that result unchanged. */
  method MergeSortTwice(numbers: seq<int>) returns (once: seq<int>, twice: seq<int>)
    ensures Sorted(once) && twice == once
  {
    ghost var origin;
    once, origin := MergeSort(numbers);
    twice, origin := MergeSort(once);
  }
}
