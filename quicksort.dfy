/**
 * The in-place quicksort of src/sorting/quicksort.rs.
 *
 * The source sorts a mutable slice and recurses on the two sub-slices left
 * and right of the pivot. Here a slice is the index range `[lo, hi)` of one
 * array, so the recursive calls work on sub-ranges of the same array and
 * the indices are absolute (the source's `left` is `left - lo` here).
 */
module Sorting {

  ghost predicate Sorted(s: seq<int>)
  {
    forall i, j :: 0 <= i < j < |s| ==> s[i] <= s[j]
  }

  ghost predicate AllBelow(s: seq<int>, bound: int)
  {
    forall i :: 0 <= i < |s| ==> s[i] < bound
  }

  ghost predicate AllAtLeast(s: seq<int>, bound: int)
  {
    forall i :: 0 <= i < |s| ==> bound <= s[i]
  }

  /** A rearrangement keeps every element below a bound. */
  lemma PermutationKeepsBelow(s: seq<int>, t: seq<int>, bound: int)
    requires multiset(s) == multiset(t) && AllBelow(s, bound)
    ensures AllBelow(t, bound)
  {
    forall i | 0 <= i < |t| ensures t[i] < bound {
      assert t[i] in multiset(s);
    }
  }

  /** A rearrangement keeps every element at or above a bound. */
  lemma PermutationKeepsAtLeast(s: seq<int>, t: seq<int>, bound: int)
    requires multiset(s) == multiset(t) && AllAtLeast(s, bound)
    ensures AllAtLeast(t, bound)
  {
    forall i | 0 <= i < |t| ensures bound <= t[i] {
      assert t[i] in multiset(s);
    }
  }

  /** Two sorted runs separated by a pivot between them form one sorted run. */
  lemma SortedAroundPivot(left: seq<int>, pivot: int, right: seq<int>)
    requires Sorted(left) && Sorted(right)
    requires AllBelow(left, pivot) && AllAtLeast(right, pivot)
    ensures Sorted(left + [pivot] + right)
  {
  }

  /**
   * `t` is `s` with the slice `[lo, hi)` rearranged and everything outside
   * it untouched.
   */
  ghost predicate Rearranged(s: seq<int>, t: seq<int>, lo: nat, hi: nat)
  {
    lo <= hi <= |s| == |t| &&
    s[..lo] == t[..lo] && s[hi..] == t[hi..] &&
    multiset(s[lo..hi]) == multiset(t[lo..hi])
  }

  lemma RearrangedTrans(s: seq<int>, t: seq<int>, u: seq<int>, lo: nat, hi: nat)
    requires Rearranged(s, t, lo, hi) && Rearranged(t, u, lo, hi)
    ensures Rearranged(s, u, lo, hi)
  {
  }

  /** Rearranging a slice rearranges every slice that contains it. */
  lemma RearrangedWiden(s: seq<int>, t: seq<int>, lo: nat, hi: nat, lo': nat, hi': nat)
    requires Rearranged(s, t, lo, hi) && lo' <= lo && hi <= hi' <= |s|
    ensures Rearranged(s, t, lo', hi')
  {
    assert s[lo'..lo] == s[..lo][lo'..] == t[..lo][lo'..] == t[lo'..lo];
    assert s[hi..hi'] == s[hi..][..hi' - hi] == t[hi..][..hi' - hi] == t[hi..hi'];
    assert s[lo'..hi'] == s[lo'..lo] + s[lo..hi] + s[hi..hi'];
    assert t[lo'..hi'] == t[lo'..lo] + t[lo..hi] + t[hi..hi'];
    assert s[..lo'] == s[..lo][..lo'];
    assert t[..lo'] == t[..lo][..lo'];
    assert s[hi'..] == s[hi..][hi' - hi..];
    assert t[hi'..] == t[hi..][hi' - hi..];
  }

  /** Exchanging two positions of a slice rearranges it. */
  lemma SwapRearranges(s: seq<int>, lo: nat, hi: nat, i: nat, j: nat)
    requires lo <= i < hi && lo <= j < hi && hi <= |s|
    ensures Rearranged(s, s[i := s[j]][j := s[i]], lo, hi)
  {
    var t := s[i := s[j]][j := s[i]];
    assert t[lo..hi] == s[lo..hi][i - lo := s[j]][j - lo := s[i]];
    assert t[..lo] == s[..lo];
    assert t[hi..] == s[hi..];
  }

  /** The source's `arr.swap(i, j)` on the slice `[lo, hi)`. */
  method Swap(a: array<int>, ghost lo: nat, ghost hi: nat, i: nat, j: nat)
    requires lo <= i < hi && lo <= j < hi && hi <= a.Length
    modifies a
    ensures a[i] == old(a[j]) && a[j] == old(a[i])
    ensures forall k :: 0 <= k < a.Length && k != i && k != j ==> a[k] == old(a[k])
    ensures Rearranged(old(a[..]), a[..], lo, hi)
  {
    SwapRearranges(a[..], lo, hi, i, j);
    a[i], a[j] := a[j], a[i];
  }

  /**
   * The partition step: pivot on the last element, move `left` up past
   * smaller elements and `right` down past larger ones, swap the pair they
   * stop at, and finally swap the pivot into `left`, which is returned.
   */
  method Partition(a: array<int>, lo: nat, hi: nat) returns (left: nat)
    requires lo + 2 <= hi <= a.Length
    modifies a
    ensures lo <= left < hi
    ensures Rearranged(old(a[..]), a[..], lo, hi)
    ensures a[left] == old(a[hi - 1])
    ensures forall k :: lo <= k < left ==> a[k] < a[left]
    ensures forall k :: left < k < hi ==> a[left] <= a[k]
  {
    var pivot := a[hi - 1];
    left := lo;
    var right: nat := hi - 1;
    while true
      invariant lo <= left < right <= hi - 1
      invariant a[hi - 1] == pivot
      invariant forall k :: lo <= k < left ==> a[k] < pivot
      invariant forall k :: right <= k < hi ==> pivot <= a[k]
      invariant Rearranged(old(a[..]), a[..], lo, hi)
      decreases right
    {
      // The pivot itself stops this scan, so `left` stays below `hi`.
      while left < hi && a[left] < pivot
        invariant lo <= left <= right
        invariant forall k :: lo <= k < left ==> a[k] < pivot
      {
        left := left + 1;
      }
      // `right` was above `left` at the top of the loop and `left` is at
      // least `lo`, so this cannot go below `lo`.
      right := right - 1;
      while right > lo && a[right] > pivot
        invariant lo <= right
        invariant forall k :: right < k < hi ==> pivot <= a[k]
      {
        right := right - 1;
      }
      if left >= right {
        break;
      }
      ghost var before := a[..];
      Swap(a, lo, hi, left, right);
      RearrangedTrans(old(a[..]), before, a[..], lo, hi);
    }
    ghost var before := a[..];
    Swap(a, lo, hi, left, hi - 1);
    RearrangedTrans(old(a[..]), before, a[..], lo, hi);
  }

  /**
   * After a partition around `parted[left]`, sorting the part below the pivot
   * and then the part above it sorts the whole slice and only rearranges it.
   */
  lemma SortedAroundPartition(parted: seq<int>, leftDone: seq<int>, done: seq<int>, lo: nat, left: nat, hi: nat)
    requires lo <= left < hi <= |parted|
    requires forall k :: lo <= k < left ==> parted[k] < parted[left]
    requires forall k :: left < k < hi ==> parted[left] <= parted[k]
    requires Rearranged(parted, leftDone, lo, left) && Sorted(leftDone[lo..left])
    requires Rearranged(leftDone, done, left + 1, hi) && Sorted(done[left + 1..hi])
    ensures Sorted(done[lo..hi]) && Rearranged(parted, done, lo, hi)
  {
    var pivot := parted[left];
    assert AllBelow(parted[lo..left], pivot);
    assert AllAtLeast(parted[left + 1..hi], pivot);
    assert leftDone[left..] == parted[left..];
    assert leftDone[left + 1..hi] == leftDone[left..][1..hi - left] == parted[left..][1..hi - left] == parted[left + 1..hi];
    assert done[..left + 1] == leftDone[..left + 1];
    forall k | lo <= k <= left ensures done[k] == leftDone[k] {
      assert done[..left + 1][k] == leftDone[..left + 1][k];
    }
    assert done[lo..left] == leftDone[lo..left];
    assert done[left] == leftDone[left..][0] == pivot;
    PermutationKeepsBelow(parted[lo..left], done[lo..left], pivot);
    PermutationKeepsAtLeast(parted[left + 1..hi], done[left + 1..hi], pivot);
    assert done[lo..hi] == done[lo..left] + [pivot] + done[left + 1..hi];
    SortedAroundPivot(done[lo..left], pivot, done[left + 1..hi]);
    RearrangedWiden(parted, leftDone, lo, left, lo, hi);
    RearrangedWiden(leftDone, done, left + 1, hi, lo, hi);
    RearrangedTrans(parted, leftDone, done, lo, hi);
  }

  /**
   * Sorts the slice `[lo, hi)` of `a` in place: slices of length 0 or 1 are
   * left alone, longer ones are partitioned and both sides sorted.
   */
  method Quicksort(a: array<int>, lo: nat, hi: nat)
    requires lo <= hi <= a.Length
    modifies a
    ensures Sorted(a[lo..hi])
    ensures Rearranged(old(a[..]), a[..], lo, hi)
    ensures hi - lo <= 1 ==> a[..] == old(a[..])
    decreases hi - lo
  {
    if hi - lo <= 1 {
      return;
    }
    var left := Partition(a, lo, hi);
    ghost var parted := a[..];
    Quicksort(a, lo, left);
    ghost var leftDone := a[..];
    Quicksort(a, left + 1, hi);
    SortedAroundPartition(parted, leftDone, a[..], lo, left, hi);
    RearrangedTrans(old(a[..]), parted, a[..], lo, hi);
  }

  /** The first element of a sorted sequence is its least. */
  lemma FirstIsLeast(s: seq<int>, x: int)
    requires Sorted(s) && x in multiset(s)
    ensures s[0] <= x
  {
  }

  /** Sequences with equal heads and equal multisets have tails with equal multisets. */
  lemma TailsRearranged(s: seq<int>, t: seq<int>)
    requires s != [] && t != [] && s[0] == t[0] && multiset(s) == multiset(t)
    ensures multiset(s[1..]) == multiset(t[1..])
  {
    assert s == [s[0]] + s[1..];
    assert t == [t[0]] + t[1..];
    assert multiset(s[1..]) == multiset(s) - multiset{s[0]};
    assert multiset(t[1..]) == multiset(t) - multiset{t[0]};
  }

  /** A sorted arrangement of a multiset is unique. */
  lemma {:induction false} SortedUnique(s: seq<int>, t: seq<int>)
    requires Sorted(s) && Sorted(t) && multiset(s) == multiset(t)
    ensures s == t
    decreases |s|
  {
    if s != [] {
      assert s[0] in multiset(t);
      FirstIsLeast(t, s[0]);
      FirstIsLeast(s, t[0]);
      TailsRearranged(s, t);
      SortedUnique(s[1..], t[1..]);
      assert s == [s[0]] + s[1..];
      assert t == [t[0]] + t[1..];
    }
  }

  /** Sorts a fresh array holding `s`, as the source's tests do with array literals. */
  method SortedCopy(s: seq<int>) returns (r: seq<int>)
    ensures Sorted(r) && multiset(r) == multiset(s)
  {
    var a := new int[|s|](i requires 0 <= i < |s| => s[i]);
    assert a[..] == s == s[0..|s|];
    Quicksort(a, 0, a.Length);
    assert a[0..a.Length] == a[..];
    r := a[..];
  }

  /**
   * Sorting `input` gives `expected` whenever `expected` is a sorted
   * arrangement of it.
   */
  method SortsTo(input: seq<int>, expected: seq<int>) returns (r: seq<int>)
    requires Sorted(expected) && multiset(input) == multiset(expected)
    ensures r == expected
  {
    r := SortedCopy(input);
    SortedUnique(r, expected);
  }

  // The inputs of the source's tests come out as the arrays they expect.

  method SortEmpty() returns (r: seq<int>)
    ensures r == []
  {
    r := SortsTo([], []);
  }

  method SortSingle() returns (r: seq<int>)
    ensures r == [1]
  {
    r := SortsTo([1], [1]);
  }

  method SortTwo() returns (r: seq<int>)
    ensures r == [1, 2]
  {
    r := SortsTo([2, 1], [1, 2]);
  }

  /** `[5, 4, 3, 2, 1]` and `[1, 2, 3, 4, 5]` hold the same elements. */
  lemma ReversedFive()
    ensures multiset([5, 4, 3, 2, 1]) == multiset([1, 2, 3, 4, 5])
  {
  }

  method SortReversed() returns (r: seq<int>)
    ensures r == [1, 2, 3, 4, 5]
  {
    ReversedFive();
    r := SortsTo([5, 4, 3, 2, 1], [1, 2, 3, 4, 5]);
  }

  method SortAllSame() returns (r: seq<int>)
    ensures r == [1, 1, 1, 1, 1]
  {
    r := SortsTo([1, 1, 1, 1, 1], [1, 1, 1, 1, 1]);
  }

  method SortSorted() returns (r: seq<int>)
    ensures r == [1, 2, 3, 4, 5]
  {
    r := SortsTo([1, 2, 3, 4, 5], [1, 2, 3, 4, 5]);
  }

  method SortOneDifferent() returns (r: seq<int>)
    ensures r == [1, 1, 1, 1, 1, 4]
  {
    r := SortsTo([1, 1, 1, 4, 1, 1], [1, 1, 1, 1, 1, 4]);
  }
}
