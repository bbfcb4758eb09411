/**
  The C++ standard algorithms the accelerated solver applies to the interior
  `[1, n - 1)` of its `locations` vector: `std::iter_swap`, `std::sort`,
  `std::reverse` and `std::next_permutation`, each on the half-open range
  `[lo, hi)` of an array of names, leaving the rest of the array alone.
 */
module StdAlgorithm {
  import opened Permutations
  import opened Lex

  method Swap(a: array<string>, i: nat, j: nat)
    requires i < a.Length && j < a.Length
    modifies a
    ensures a[..] == old(a[..])[i := old(a[j])][j := old(a[i])]
    ensures multiset(a[..]) == old(multiset(a[..]))
  {
    a[i], a[j] := a[j], a[i];
  }

  /**
    `std::sort(a + lo, a + hi)`. Written as an insertion sort; since a sorted
    permutation is unique (`Lex.SortedUnique`), the outcome is the one
    `std::sort` produces.
   */
  method SortRange(a: array<string>, lo: nat, hi: nat)
    requires lo <= hi <= a.Length
    modifies a
    ensures Sorted(a[lo..hi])
    ensures IsPermutation(a[lo..hi], old(a[lo..hi]))
    ensures a[..lo] == old(a[..lo]) && a[hi..] == old(a[hi..])
  {
    if lo == hi {
      return;
    }
    for k := lo + 1 to hi
      invariant forall m :: lo < m < k ==> StrLe(a[m - 1], a[m])
      invariant multiset(a[..]) == old(multiset(a[..]))
      invariant a[..lo] == old(a[..lo]) && a[hi..] == old(a[hi..])
    {
      // move a[k] left past every larger neighbour
      var j := k;
      while j > lo && StrLt(a[j], a[j - 1])
        invariant lo <= j <= k
        invariant forall m :: lo < m <= k && m != j ==> StrLe(a[m - 1], a[m])
        invariant lo < j < k ==> StrLe(a[j - 1], a[j + 1])
        invariant multiset(a[..]) == old(multiset(a[..]))
        invariant a[..lo] == old(a[..lo]) && a[hi..] == old(a[hi..])
      {
        Swap(a, j - 1, j);
        j := j - 1;
      }
      if j > lo {
        StrNotLt(a[j], a[j - 1]);
      }
    }
    assert Sorted(a[lo..hi]) by {
      forall i | 0 < i < hi - lo ensures StrLe(a[lo..hi][i - 1], a[lo..hi][i]) {
        assert a[lo..hi][i - 1] == a[lo + i - 1] && a[lo..hi][i] == a[lo + i];
      }
    }
    RangeMultiset(a[..], old(a[..]), lo, hi);
  }

  /** Equal outside `[lo, hi)` and permutations of one another: then also inside `[lo, hi)`. */
  lemma RangeMultiset(s: seq<string>, t: seq<string>, lo: nat, hi: nat)
    requires lo <= hi <= |s| == |t|
    requires multiset(s) == multiset(t) && s[..lo] == t[..lo] && s[hi..] == t[hi..]
    ensures multiset(s[lo..hi]) == multiset(t[lo..hi])
  {
    assert s == s[..lo] + s[lo..hi] + s[hi..];
    assert t == t[..lo] + t[lo..hi] + t[hi..];
    assert multiset(s) == multiset(s[..lo]) + multiset(s[lo..hi]) + multiset(s[hi..]);
    assert multiset(t) == multiset(t[..lo]) + multiset(t[lo..hi]) + multiset(t[hi..]);
    var outside := multiset(s[..lo]) + multiset(s[hi..]);
    assert multiset(s) == outside + multiset(s[lo..hi]);
    assert multiset(t) == outside + multiset(t[lo..hi]);
    MultisetCancelUnion(outside, multiset(s[lo..hi]), multiset(t[lo..hi]));
  }

  /** `std::reverse(a + lo, a + hi)`. */
  method ReverseRange(a: array<string>, lo: nat, hi: nat)
    requires lo <= hi <= a.Length
    modifies a
    ensures a[lo..hi] == Reverse(old(a[lo..hi]))
    ensures a[..lo] == old(a[..lo]) && a[hi..] == old(a[hi..])
  {
    var i, j := lo, hi;
    while i + 1 < j
      invariant lo <= i <= j <= hi && i - lo == hi - j
      invariant forall m :: lo <= m < i ==> a[m] == old(a[lo + hi - 1 - m])
      invariant forall m :: j <= m < hi ==> a[m] == old(a[lo + hi - 1 - m])
      invariant forall m :: i <= m < j ==> a[m] == old(a[m])
      invariant a[..lo] == old(a[..lo]) && a[hi..] == old(a[hi..])
    {
      a[i], a[j - 1] := a[j - 1], a[i];
      i, j := i + 1, j - 1;
    }
    assert a[lo..hi] == Reverse(old(a[lo..hi])) by {
      forall k | 0 <= k < hi - lo ensures a[lo..hi][k] == Reverse(old(a[lo..hi]))[k] {
        assert a[lo..hi][k] == a[lo + k];
      }
    }
  }

  /**
    `std::next_permutation(a + lo, a + hi)`: rearranges the range into the next
    permutation in lexicographic order and returns true, or, when the range is
    already the last one, reverses it into sorted order and returns false.
   */
  method NextPermutation(a: array<string>, lo: nat, hi: nat) returns (more: bool)
    requires lo <= hi <= a.Length
    modifies a
    ensures a[..lo] == old(a[..lo]) && a[hi..] == old(a[hi..])
    ensures more ==> IsSuccessor(old(a[lo..hi]), a[lo..hi])
    ensures !more ==> IsLast(old(a[lo..hi])) && a[lo..hi] == Reverse(old(a[lo..hi])) && Sorted(a[lo..hi])
  {
    ghost var s := a[lo..hi];
    if hi - lo < 2 {
      assert NonIncreasing(s);
      NonIncreasingIsLast(s);
      assert s == Reverse(s);
      return false;
    }
    // a[k..hi] is the longest non-increasing tail seen so far
    var k := hi - 1;
    while true
      invariant lo < k < hi
      invariant a[..] == old(a[..])
      invariant NonIncreasing(a[k..hi])
      decreases k
    {
      var pivot := k - 1;
      if StrLt(a[pivot], a[k]) {
        AdvanceAt(a, lo, hi, pivot);
        return true;
      }
      StrNotLt(a[pivot], a[k]);
      assert NonIncreasing(a[pivot..hi]) by {
        forall i | 0 < i < hi - pivot ensures StrLe(a[pivot..hi][i], a[pivot..hi][i - 1]) {
          if i > 1 {
            assert a[pivot..hi][i] == a[k..hi][i - 1] && a[pivot..hi][i - 1] == a[k..hi][i - 2];
          }
        }
      }
      if pivot == lo {
        NonIncreasingIsLast(s);
        ReverseNonIncreasing(s);
        ReverseRange(a, lo, hi);
        return false;
      }
      k := pivot;
    }
  }

  /**
    The branch of `next_permutation` that finds a pivot: `a[pivot] < a[pivot + 1]`
    and everything after is non-increasing. Swap the pivot with the last element
    above it, then reverse the tail.
   */
  method AdvanceAt(a: array<string>, lo: nat, hi: nat, pivot: nat)
    requires lo <= pivot && pivot + 1 < hi <= a.Length
    requires StrLt(a[pivot], a[pivot + 1]) && NonIncreasing(a[pivot + 1..hi])
    modifies a
    ensures a[..lo] == old(a[..lo]) && a[hi..] == old(a[hi..])
    ensures IsSuccessor(old(a[lo..hi]), a[lo..hi])
  {
    var j := FindCeiling(a, pivot, hi);
    ghost var before := a[..];
    Swap(a, pivot, j);
    ghost var swapped := a[..];
    ReverseRange(a, pivot + 1, hi);
    AdvancedIsSuccessor(before, swapped, a[..], lo, pivot, j, hi);
    assert a[lo..hi] == a[..][lo..hi] && a[..lo] == a[..][..lo] && a[hi..] == a[..][hi..];
  }

  /**
    The search for the swap partner: the last position after the pivot whose
    element is greater than the pivot's.
   */
  method FindCeiling(a: array<string>, pivot: nat, hi: nat) returns (j: nat)
    requires pivot + 1 < hi <= a.Length && StrLt(a[pivot], a[pivot + 1])
    ensures pivot < j < hi && StrLt(a[pivot], a[j])
    ensures forall m :: j < m < hi ==> !StrLt(a[pivot], a[m])
  {
    j := hi - 1;
    while !StrLt(a[pivot], a[j])
      invariant pivot < j < hi
      invariant forall m :: j < m < hi ==> !StrLt(a[pivot], a[m])
      decreases j
    {
      j := j - 1;
    }
  }

  /** The swap and the reversal of `AdvanceAt` take the range to its successor and leave the rest alone. */
  lemma AdvancedIsSuccessor(before: seq<string>, swapped: seq<string>, after: seq<string>,
                            lo: nat, pivot: nat, j: nat, hi: nat)
    requires lo <= pivot < j < hi <= |before|
    requires StrLt(before[pivot], before[j]) && NonIncreasing(before[pivot + 1..hi])
    requires forall m :: j < m < hi ==> !StrLt(before[pivot], before[m])
    requires swapped == before[pivot := before[j]][j := before[pivot]]
    requires |after| == |swapped|
    requires after[pivot + 1..hi] == Reverse(swapped[pivot + 1..hi])
    requires after[..pivot + 1] == swapped[..pivot + 1] && after[hi..] == swapped[hi..]
    ensures after[..lo] == before[..lo] && after[hi..] == before[hi..]
    ensures IsSuccessor(before[lo..hi], after[lo..hi])
  {
    AdvanceLayout(before, swapped, after, lo, pivot, j, hi);
    var tail, d := before[pivot + 1..hi], j - pivot - 1;
    assert forall m :: d < m < |tail| ==> !StrLt(before[pivot], tail[m]) by {
      forall m | d < m < |tail| ensures !StrLt(before[pivot], tail[m]) {
        assert tail[m] == before[pivot + 1 + m];
      }
    }
    assert tail[d] == before[j];
    assert before[lo..hi] == before[lo..pivot] + [before[pivot]] + tail;
    Successor(before[lo..hi], after[lo..hi], before[lo..pivot], before[pivot], tail, d);
  }

  /** Where the swap and the reversal of `AdvanceAt` leave every element. */
  lemma AdvanceLayout(before: seq<string>, swapped: seq<string>, after: seq<string>,
                      lo: nat, pivot: nat, j: nat, hi: nat)
    requires lo <= pivot < j < hi <= |before|
    requires swapped == before[pivot := before[j]][j := before[pivot]]
    requires |after| == |swapped|
    requires after[pivot + 1..hi] == Reverse(swapped[pivot + 1..hi])
    requires after[..pivot + 1] == swapped[..pivot + 1] && after[hi..] == swapped[hi..]
    ensures after[..lo] == before[..lo] && after[hi..] == before[hi..]
    ensures after[lo..hi] == before[lo..pivot] + [before[j]]
                             + Reverse(before[pivot + 1..hi][j - pivot - 1 := before[pivot]])
  {
    var k := pivot + 1;
    assert swapped[k..hi] == before[k..hi][j - k := before[pivot]];
    forall m | 0 <= m < k ensures after[m] == swapped[m] {
      assert after[..k][m] == after[m] && swapped[..k][m] == swapped[m];
    }
    forall m | hi <= m < |after| ensures after[m] == before[m] {
      assert after[hi..][m - hi] == after[m] && swapped[hi..][m - hi] == swapped[m];
    }
    assert after[lo..hi] == after[lo..pivot] + [after[pivot]] + after[k..hi];
  }
}
