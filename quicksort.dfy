/**
 * The two three-way-partition quicksorts of quicksort.py, on lists of integers.
 *
 * Both sorts split their input by three filters into the elements below, equal
 * to and above a pivot taken from the input, sort the outer two groups
 * recursively and concatenate. They differ only in where the pivot comes from:
 * the deterministic sort takes the element at the middle index, the randomized
 * one takes the element at an arbitrary index.
 */
module Sorting {

  /** The three comparisons against the pivot, one per filter. */
  datatype Side = Below | Equal | Above

  /** Whether the filter for `side` keeps `x` when the pivot is `pivot`. */
  predicate Keeps(side: Side, x: int, pivot: int) {
    match side
    case Below => x < pivot
    case Equal => x == pivot
    case Above => x > pivot
  }

  /** Every pair of positions is in ascending order. */
  predicate Sorted(s: seq<int>) {
    forall i, j :: 0 <= i <= j < |s| ==> s[i] <= s[j]
  }

  /** Every adjacent pair of positions is in ascending order. */
  predicate AdjacentSorted(s: seq<int>) {
    forall i :: 0 <= i < |s| - 1 ==> s[i] <= s[i + 1]
  }

  /** The two readings of "ascending" agree. */
  lemma {:induction false} AdjacentSortedIffSorted(s: seq<int>)
    ensures AdjacentSorted(s) <==> Sorted(s)
    decreases |s|
  {
    if |s| >= 2 && AdjacentSorted(s) {
      var t := s[1..];
      forall i | 0 <= i < |t| - 1
        ensures t[i] <= t[i + 1]
      {
        assert t[i] == s[i + 1] && t[i + 1] == s[i + 2];
      }
      AdjacentSortedIffSorted(t);
      forall i, j | 0 <= i <= j < |s|
        ensures s[i] <= s[j]
      {
        if i == 0 {
          if j > 0 {
            assert s[0] <= s[1];
            assert t[0] <= t[j - 1];
          }
        } else {
          assert t[i - 1] <= t[j - 1];
        }
      }
    }
  }

  /**
   * The list comprehension that keeps, in input order, the elements of `s`
   * on `side` of `pivot`: it holds every such element as often as `s` does,
   * and nothing else.
   */
  function Filter(s: seq<int>, side: Side, pivot: int): (r: seq<int>)
    ensures |r| <= |s|
    ensures forall x :: x in r ==> Keeps(side, x, pivot)
    ensures forall x :: multiset(r)[x] == if Keeps(side, x, pivot) then multiset(s)[x] else 0
    decreases |s|
  {
    if s == [] then []
    else
      assert s == [s[0]] + s[1..];
      (if Keeps(side, s[0], pivot) then [s[0]] else []) + Filter(s[1..], side, pivot)
  }

  /** The three groups one partitioning step produces. */
  datatype Parts = Parts(left: seq<int>, middle: seq<int>, right: seq<int>)

  /**
   * The three filters applied to `arr` with pivot `pivot`. Together the groups
   * hold exactly the elements of `arr`; the middle group is non-empty exactly
   * when the pivot occurs in `arr`, and then both outer groups are strictly
   * shorter than `arr`.
   */
  function Partition(arr: seq<int>, pivot: int): (p: Parts)
    ensures forall x :: x in p.left ==> x < pivot
    ensures forall x :: x in p.middle ==> x == pivot
    ensures forall x :: x in p.right ==> x > pivot
    ensures multiset(p.left) + multiset(p.middle) + multiset(p.right) == multiset(arr)
    ensures |p.left| + |p.middle| + |p.right| == |arr|
    ensures p.middle != [] <==> pivot in arr
    ensures pivot in arr ==> |p.left| < |arr| && |p.right| < |arr|
  {
    var p := Parts(Filter(arr, Below, pivot), Filter(arr, Equal, pivot), Filter(arr, Above, pivot));
    assert forall x :: (multiset(p.left) + multiset(p.middle) + multiset(p.right))[x] == multiset(arr)[x];
    assert multiset(p.left) + multiset(p.middle) + multiset(p.right) == multiset(arr);
    assert p.middle != [] <==> pivot in arr by {
      if pivot in arr {
        assert multiset(arr)[pivot] > 0;
        assert multiset(p.middle)[pivot] > 0;
      }
      if p.middle != [] {
        var m := p.middle[0];
        assert m in p.middle && m == pivot;
        assert multiset(p.middle)[m] > 0;
        assert multiset(arr)[m] > 0;
      }
    }
    p
  }

  /** Sorted groups below, at and above one pivot concatenate to a sorted list. */
  lemma JoinSorted(left: seq<int>, middle: seq<int>, right: seq<int>, pivot: int)
    requires Sorted(left) && Sorted(right)
    requires forall x :: x in left ==> x < pivot
    requires forall x :: x in middle ==> x == pivot
    requires forall x :: x in right ==> x > pivot
    ensures Sorted(left + middle + right)
  {
    var s := left + middle + right;
    forall i, j | 0 <= i <= j < |s|
      ensures s[i] <= s[j]
    {
      if j < |left| {
        assert s[i] == left[i] && s[j] == left[j];
      } else if i >= |left| + |middle| {
        assert s[i] == right[i - |left| - |middle|] && s[j] == right[j - |left| - |middle|];
      } else {
        assert s[i] <= pivot by {
          if i < |left| {
            assert s[i] == left[i] && left[i] in left;
          } else {
            assert s[i] == middle[i - |left|] && middle[i - |left|] in middle;
          }
        }
        assert s[j] >= pivot by {
          if j < |left| + |middle| {
            assert s[j] == middle[j - |left|] && middle[j - |left|] in middle;
          } else {
            assert s[j] == right[j - |left| - |middle|] && right[j - |left| - |middle|] in right;
          }
        }
      }
    }
  }

  /** Two lists with the same multiset of elements have the same members. */
  lemma SameElements(a: seq<int>, b: seq<int>)
    requires multiset(a) == multiset(b)
    ensures forall x :: x in a <==> x in b
  {
    forall x
      ensures x in a <==> x in b
    {
      assert x in a <==> x in multiset(a);
      assert x in b <==> x in multiset(b);
    }
  }

  /** Python's `len(arr) // 2`: the middle index of a non-empty list. */
  function MiddleIndex(n: nat): (i: nat)
    requires n > 0
    ensures i < n
    ensures 2 * i <= n < 2 * i + 2
  {
    n / 2
  }

  /**
   * The deterministic quicksort: pivot at the middle index, three filters,
   * recursion on the outer groups. The result is sorted and a permutation of
   * the input.
   */
  function Quicksort(arr: seq<int>): (r: seq<int>)
    ensures Sorted(r)
    ensures multiset(r) == multiset(arr)
    decreases |arr|
  {
    if |arr| <= 1 then arr
    else
      var pivot := arr[MiddleIndex(|arr|)];
      var p := Partition(arr, pivot);
      var sortedLeft := Quicksort(p.left);
      var sortedRight := Quicksort(p.right);
      SameElements(sortedLeft, p.left);
      SameElements(sortedRight, p.right);
      JoinSorted(sortedLeft, p.middle, sortedRight, pivot);
      sortedLeft + p.middle + sortedRight
  }

  /** A sorted list is determined by its multiset of elements. */
  lemma {:induction false} SortedPermutationUnique(a: seq<int>, b: seq<int>)
    requires Sorted(a) && Sorted(b)
    requires multiset(a) == multiset(b)
    ensures a == b
    decreases |a|
  {
    assert |a| == |multiset(a)| == |multiset(b)| == |b|;
    if a != [] {
      assert a[0] in multiset(b);
      assert b[0] in multiset(a);
      assert a[0] == b[0];
      assert a == [a[0]] + a[1..];
      assert b == [b[0]] + b[1..];
      assert multiset(a[1..]) == multiset(a) - multiset{a[0]};
      assert multiset(b[1..]) == multiset(b) - multiset{b[0]};
      SortedPermutationUnique(a[1..], b[1..]);
    }
  }

  /**
   * `Quicksort(arr)` is the one sorted permutation of `arr`: a list equals it
   * exactly when it is sorted and has the elements of `arr`.
   */
  lemma QuicksortCharacterization(arr: seq<int>, out: seq<int>)
    ensures out == Quicksort(arr) <==> Sorted(out) && multiset(out) == multiset(arr)
  {
    if Sorted(out) && multiset(out) == multiset(arr) {
      SortedPermutationUnique(out, Quicksort(arr));
    }
  }

  /**
   * The output has the length of the input; this follows from the multiset
   * postcondition of `Quicksort`, since a list's multiset has the list's size.
   */
  lemma QuicksortLength(arr: seq<int>)
    ensures |Quicksort(arr)| == |arr|
  {
  }

  /** Lists of length 0 or 1 come back unchanged. */
  lemma ShortInputUnchanged(arr: seq<int>)
    requires |arr| <= 1
    ensures Quicksort(arr) == arr
  {
  }

  /** Quicksort leaves a list unchanged exactly when it is already sorted. */
  lemma SortedInputUnchanged(arr: seq<int>)
    ensures Quicksort(arr) == arr <==> Sorted(arr)
  {
    QuicksortCharacterization(arr, arr);
  }

  /** A list whose elements are all equal comes back unchanged. */
  lemma AllEqualUnchanged(arr: seq<int>, v: int)
    requires forall x :: x in arr ==> x == v
    ensures Quicksort(arr) == arr
  {
    assert Sorted(arr) by {
      forall i, j | 0 <= i <= j < |arr|
        ensures arr[i] <= arr[j]
      {
        assert arr[i] in arr && arr[j] in arr;
      }
    }
    SortedInputUnchanged(arr);
  }

  /** Sorting twice gives what sorting once gives. */
  lemma QuicksortIdempotent(arr: seq<int>)
    ensures Quicksort(Quicksort(arr)) == Quicksort(arr)
  {
    SortedInputUnchanged(Quicksort(arr));
  }

  /**
   * One partitioning step around the element at any index, followed by
   * sorting the outer groups, gives the deterministic result: the choice of
   * pivot does not change the output.
   */
  lemma PivotChoiceIrrelevant(arr: seq<int>, i: nat)
    requires i < |arr|
    ensures var p := Partition(arr, arr[i]);
            Quicksort(p.left) + p.middle + Quicksort(p.right) == Quicksort(arr)
  {
    var pivot := arr[i];
    var p := Partition(arr, pivot);
    var out := Quicksort(p.left) + p.middle + Quicksort(p.right);
    SameElements(Quicksort(p.left), p.left);
    SameElements(Quicksort(p.right), p.right);
    JoinSorted(Quicksort(p.left), p.middle, Quicksort(p.right), pivot);
    QuicksortCharacterization(arr, out);
  }

  /**
   * The randomized quicksort. The pivot index is any index of the list, chosen
   * afresh at every call; whatever the choices, the result is sorted, a
   * permutation of the input, and equal to the deterministic result.
   */
  method RandomizedQuicksort(arr: seq<int>) returns (r: seq<int>)
    ensures |arr| <= 1 ==> r == arr
    ensures Sorted(r)
    ensures multiset(r) == multiset(arr)
    ensures r == Quicksort(arr)
    decreases |arr|
  {
    if |arr| <= 1 {
      return arr;
    }
    var pivotIndex :| 0 <= pivotIndex < |arr|;
    var pivot := arr[pivotIndex];
    var p := Partition(arr, pivot);
    var sortedLeft := RandomizedQuicksort(p.left);
    var sortedRight := RandomizedQuicksort(p.right);
    r := sortedLeft + p.middle + sortedRight;
    PivotChoiceIrrelevant(arr, pivotIndex);
  }

  /** The sample list of the demonstration block, sorted deterministically. */
  lemma DemoDeterministic()
    ensures Quicksort([3, 6, 8, 10, 1, 2, 1]) == [1, 1, 2, 3, 6, 8, 10]
  {
    var arr := [3, 6, 8, 10, 1, 2, 1];
    var out := [1, 1, 2, 3, 6, 8, 10];
    assert Sorted(out);
    assert multiset(out) == multiset(arr);
    QuicksortCharacterization(arr, out);
  }

  /** The sample list of the demonstration block, sorted with random pivots. */
  method DemoRandomized() returns (r: seq<int>)
    ensures r == [1, 1, 2, 3, 6, 8, 10]
  {
    r := RandomizedQuicksort([3, 6, 8, 10, 1, 2, 1]);
    DemoDeterministic();
  }
}
