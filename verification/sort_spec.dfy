/**
 * What the sorts of the algorithm demo promise, stated once: a list of
 * integers is sorted when it is non-decreasing, and a sort returns a sorted
 * rearrangement of its input. The inversion count measures how far a list is
 * from sorted; bubble sort pays one swap and insertion sort one shift for each
 * inversion.
 */
module SortSpec {

  /** Non-decreasing: every element is at most every element after it. */
  predicate Sorted(s: seq<int>) {
    forall i, j :: 0 <= i < j < |s| ==> s[i] <= s[j]
  }

  /** Every neighbouring pair is in order: what a bubble-sort pass without a swap has checked. */
  predicate AdjacentSorted(s: seq<int>) {
    forall i :: 0 <= i < |s| - 1 ==> s[i] <= s[i + 1]
  }

  /** A list is sorted exactly when each neighbouring pair is in order. */
  lemma {:induction false} AdjacentSortedIffSorted(s: seq<int>)
    ensures AdjacentSorted(s) <==> Sorted(s)
  {
    if AdjacentSorted(s) && |s| > 1 {
      var init := s[..|s| - 1];
      assert AdjacentSorted(init);
      AdjacentSortedIffSorted(init);
      forall i, j | 0 <= i < j < |s| ensures s[i] <= s[j] {
        if j < |s| - 1 {
          assert init[i] <= init[j];
        } else if i < |s| - 2 {
          assert init[i] <= init[|s| - 2];
        }
      }
    }
  }

  /** How many elements of s are strictly greater than x. */
  function CountGreater(x: int, s: seq<int>): (c: nat)
    ensures c <= |s|
  {
    if s == [] then 0
    else CountGreater(x, s[..|s| - 1]) + (if s[|s| - 1] > x then 1 else 0)
  }

  /**
   * The number of inversions of s: pairs of positions i < j with s[i] > s[j],
   * counted for each element over the elements before it.
   */
  function Inversions(s: seq<int>): nat
  {
    if s == [] then 0
    else Inversions(s[..|s| - 1]) + CountGreater(s[|s| - 1], s[..|s| - 1])
  }

  lemma {:induction false} CountGreaterAppend(x: int, a: seq<int>, b: seq<int>)
    ensures CountGreater(x, a + b) == CountGreater(x, a) + CountGreater(x, b)
  {
    if b == [] {
      assert a + b == a;
    } else {
      assert (a + b)[..|a + b| - 1] == a + b[..|b| - 1];
      CountGreaterAppend(x, a, b[..|b| - 1]);
    }
  }

  /** Removing the element at position k removes one copy of it from the multiset. */
  lemma MultisetRemove(b: seq<int>, k: nat)
    requires k < |b|
    ensures multiset(b[..k] + b[k + 1..]) == multiset(b) - multiset{b[k]}
  {
    assert b == b[..k] + [b[k]] + b[k + 1..];
  }

  /** Removing the element at position k removes it, and only it, from the count. */
  lemma CountGreaterRemove(x: int, b: seq<int>, k: nat)
    requires k < |b|
    ensures CountGreater(x, b) == CountGreater(x, b[..k] + b[k + 1..]) + (if b[k] > x then 1 else 0)
  {
    assert b == b[..k] + [b[k]] + b[k + 1..];
    CountGreaterAppend(x, b[..k] + [b[k]], b[k + 1..]);
    CountGreaterAppend(x, b[..k], [b[k]]);
    CountGreaterAppend(x, b[..k], b[k + 1..]);
    assert [b[k]][..0] == [];
  }

  /** Counting the elements above x does not depend on their order. */
  lemma {:induction false} CountGreaterPermutation(x: int, a: seq<int>, b: seq<int>)
    requires multiset(a) == multiset(b)
    ensures CountGreater(x, a) == CountGreater(x, b)
    decreases |a|
  {
    if a != [] {
      var y := a[|a| - 1];
      var init := a[..|a| - 1];
      assert a == init + [y];
      assert multiset(init) == multiset(a) - multiset{y};
      assert y in multiset(b);
      var k :| 0 <= k < |b| && b[k] == y;
      MultisetRemove(b, k);
      CountGreaterPermutation(x, init, b[..k] + b[k + 1..]);
      CountGreaterRemove(x, b, k);
    } else {
      assert |b| == |multiset(b)|;
    }
  }

  /** No element exceeds x exactly when the count of those that do is zero. */
  lemma {:induction false} CountGreaterZero(x: int, s: seq<int>)
    ensures CountGreater(x, s) == 0 <==> forall k :: 0 <= k < |s| ==> s[k] <= x
  {
    if s != [] {
      CountGreaterZero(x, s[..|s| - 1]);
    }
  }

  /** Every element exceeds x exactly when all of them are counted. */
  lemma {:induction false} CountGreaterAll(x: int, s: seq<int>)
    ensures CountGreater(x, s) == |s| <==> forall k :: 0 <= k < |s| ==> s[k] > x
  {
    if s != [] {
      CountGreaterAll(x, s[..|s| - 1]);
    }
  }

  /** A list is sorted exactly when it has no inversion. */
  lemma {:induction false} InversionsZeroIffSorted(s: seq<int>)
    ensures Inversions(s) == 0 <==> Sorted(s)
  {
    if s != [] {
      var init, last := s[..|s| - 1], s[|s| - 1];
      InversionsZeroIffSorted(init);
      CountGreaterZero(last, init);
      if Sorted(s) {
        assert Sorted(init);
      }
    }
  }

  /** Exchanging two neighbours does not change which elements a list holds. */
  lemma AdjacentSwapMultiset(s: seq<int>, i: nat)
    requires i + 1 < |s|
    ensures multiset(s[i := s[i + 1]][i + 1 := s[i]]) == multiset(s)
  {
    var t := s[i := s[i + 1]][i + 1 := s[i]];
    assert s == s[..i] + [s[i], s[i + 1]] + s[i + 2..];
    assert t == s[..i] + [s[i + 1], s[i]] + s[i + 2..];
  }

  /** The swap of the last two elements, when they are out of order, removes one inversion. */
  lemma LastSwapInversions(u: seq<int>, a: int, b: int)
    requires a > b
    ensures Inversions(u + [b, a]) == Inversions(u + [a, b]) - 1
  {
    assert (u + [a, b])[..|u| + 1] == u + [a] && (u + [a])[..|u|] == u;
    assert (u + [b, a])[..|u| + 1] == u + [b] && (u + [b])[..|u|] == u;
    CountGreaterAppend(b, u, [a]);
    CountGreaterAppend(a, u, [b]);
    assert [a][..0] == [] && [b][..0] == [];
  }

  /**
   * Swapping a neighbouring pair that is out of order removes exactly one
   * inversion and leaves all others.
   */
  lemma {:induction false} AdjacentSwapInversions(s: seq<int>, i: nat)
    requires i + 1 < |s| && s[i] > s[i + 1]
    ensures Inversions(s[i := s[i + 1]][i + 1 := s[i]]) == Inversions(s) - 1
    decreases |s|
  {
    var t := s[i := s[i + 1]][i + 1 := s[i]];
    if i + 2 == |s| {
      assert s == s[..i] + [s[i], s[i + 1]];
      assert t == s[..i] + [s[i + 1], s[i]];
      LastSwapInversions(s[..i], s[i], s[i + 1]);
    } else {
      var u, z := s[..|s| - 1], s[|s| - 1];
      var v := u[i := u[i + 1]][i + 1 := u[i]];
      assert t[..|t| - 1] == v && t[|t| - 1] == z;
      AdjacentSwapInversions(u, i);
      AdjacentSwapMultiset(u, i);
      CountGreaterPermutation(z, u, v);
    }
  }

  /** The first element of a sorted list is at most every element of it. */
  lemma SortedHeadIsLeast(s: seq<int>, x: int)
    requires Sorted(s) && x in multiset(s)
    ensures s[0] <= x
  {
    assert x in s;
    var k :| 0 <= k < |s| && s[k] == x;
    assert k == 0 || s[0] <= s[k];
  }

  /** Two sorted lists with the same elements start with the same element. */
  lemma SortedHeadsAgree(a: seq<int>, b: seq<int>)
    requires Sorted(a) && Sorted(b) && multiset(a) == multiset(b) && a != []
    ensures b != [] && a[0] == b[0]
  {
    assert a[0] in multiset(a);
    assert b != [];
    assert b[0] in multiset(b);
    SortedHeadIsLeast(b, a[0]);
    SortedHeadIsLeast(a, b[0]);
  }

  /** Lists with the same elements and the same first element agree on the elements after it. */
  lemma MultisetTail(a: seq<int>, b: seq<int>)
    requires a != [] && b != [] && a[0] == b[0] && multiset(a) == multiset(b)
    ensures multiset(a[1..]) == multiset(b[1..])
  {
    assert a == [a[0]] + a[1..];
    assert b == [b[0]] + b[1..];
    assert multiset(a[1..]) == multiset(a) - multiset{a[0]};
    assert multiset(b[1..]) == multiset(b) - multiset{b[0]};
  }

  /**
   * A multiset has one sorted arrangement: two sorted lists with the same
   * elements are equal.
   */
  lemma {:induction false} SortedPermutationUnique(a: seq<int>, b: seq<int>)
    requires Sorted(a) && Sorted(b) && multiset(a) == multiset(b)
    ensures a == b
    decreases |a|
  {
    if a != [] {
      SortedHeadsAgree(a, b);
      MultisetTail(a, b);
      SortedPermutationUnique(a[1..], b[1..]);
      assert a == [a[0]] + a[1..] && b == [b[0]] + b[1..];
    } else {
      assert |b| == |multiset(b)|;
    }
  }

  /** Extending a prefix by one element adds that element to its multiset and its inversions. */
  lemma PrefixStep(s: seq<int>, i: nat)
    requires i < |s|
    ensures multiset(s[..i + 1]) == multiset(s[..i]) + multiset{s[i]}
    ensures Inversions(s[..i + 1]) == Inversions(s[..i]) + CountGreater(s[i], s[..i])
  {
    assert s[..i + 1] == s[..i] + [s[i]];
    assert s[..i + 1][..i] == s[..i];
  }

  /** A prefix of a sorted list has no inversion. */
  lemma SortedPrefixInversions(s: seq<int>, i: nat)
    requires Sorted(s) && i <= |s|
    ensures Inversions(s[..i]) == 0
  {
    InversionsZeroIffSorted(s[..i]);
  }

  /** Two lists that agree from position i on agree at i and from i + 1 on. */
  lemma SuffixStep(s: seq<int>, t: seq<int>, i: nat)
    requires i < |s| == |t| && s[i..] == t[i..]
    ensures s[i] == t[i] && s[i + 1..] == t[i + 1..]
  {
    assert s[i..][0] == t[i..][0];
    assert s[i + 1..] == s[i..][1..];
    assert t[i + 1..] == t[i..][1..];
  }

  /**
   * `origin` maps each position of `output` to the position of `input` its
   * element came from, one to one: output is input rearranged.
   */
  ghost predicate Rearranges(input: seq<int>, output: seq<int>, origin: seq<nat>) {
    && |origin| == |output| == |input|
    && (forall p :: 0 <= p < |origin| ==> origin[p] < |input| && output[p] == input[origin[p]])
    && (forall p, q :: 0 <= p < q < |origin| ==> origin[p] != origin[q])
  }

  /** Stability: equal elements of `output` appear in the order of their `origin` positions. */
  ghost predicate KeepsTiesInOrder(output: seq<int>, origin: seq<nat>) {
    && |origin| == |output|
    && (forall p, q :: 0 <= p < q < |output| && output[p] == output[q] ==> origin[p] < origin[q])
  }

  /** A rearrangement keeps the multiset of elements. */
  lemma {:induction false} RearrangesMultiset(input: seq<int>, output: seq<int>, origin: seq<nat>)
    requires Rearranges(input, output, origin)
    ensures multiset(output) == multiset(input)
    decreases |output|
  {
    if output != [] {
      var n := |output| - 1;
      var k := origin[n];
      var input' := input[..k] + input[k + 1..];
      var origin' := seq(n, p requires 0 <= p < n => if origin[p] <= k then origin[p] else origin[p] - 1);
      forall p | 0 <= p < n ensures origin'[p] < |input'| && output[..n][p] == input'[origin'[p]] {
        assert origin[p] != k;
      }
      assert Rearranges(input', output[..n], origin');
      RearrangesMultiset(input', output[..n], origin');
      assert output == output[..n] + [input[k]];
      assert input == input[..k] + [input[k]] + input[k + 1..];
    }
  }
}
