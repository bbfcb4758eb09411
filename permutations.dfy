/**
  Permutations of a list of stops, enumerated in the order of Python's
  `itertools.permutations`: lexicographic in the POSITIONS of the input, so
  the permutations that start with the element at position 0 come first, and
  within them the remaining elements are permuted in their original order.
 */
module Permutations {

  /** `p` is a rearrangement of `s`: the same elements, each as often. */
  ghost predicate IsPermutation(p: seq<string>, s: seq<string>) {
    multiset(p) == multiset(s)
  }

  function Factorial(n: nat): (f: nat)
    ensures f >= 1
  {
    if n == 0 then 1 else n * Factorial(n - 1)
  }

  /** `s` with the element at position `i` taken out, the others in order. */
  function RemoveAt(s: seq<string>, i: nat): (r: seq<string>)
    requires i < |s|
    ensures |r| == |s| - 1
  {
    s[..i] + s[i + 1..]
  }

  /** Puts `x` in front of every sequence of `ps`. */
  function PrependAll(x: string, ps: seq<seq<string>>): (r: seq<seq<string>>)
    ensures |r| == |ps|
  {
    seq(|ps|, k requires 0 <= k < |ps| => [x] + ps[k])
  }

  /** `itertools.permutations(s)`, as a list. */
  function Permutations(s: seq<string>): seq<seq<string>>
    decreases |s|, 1
  {
    if |s| == 0 then [[]] else PermutationsFrom(s, 0)
  }

  /** The permutations of `s` whose first element comes from position `i` or later. */
  function PermutationsFrom(s: seq<string>, i: nat): seq<seq<string>>
    requires i <= |s|
    decreases |s|, 0, |s| - i
  {
    if i == |s| then []
    else PrependAll(s[i], Permutations(RemoveAt(s, i))) + PermutationsFrom(s, i + 1)
  }

  lemma RemoveAtMultiset(s: seq<string>, i: nat)
    requires i < |s|
    ensures multiset(RemoveAt(s, i)) == multiset(s) - multiset{s[i]}
    ensures multiset(s) == multiset(RemoveAt(s, i)) + multiset{s[i]}
  {
    assert s == s[..i] + [s[i]] + s[i + 1..];
    assert multiset(s) == multiset(s[..i]) + multiset{s[i]} + multiset(s[i + 1..]);
    assert multiset(RemoveAt(s, i)) == multiset(s[..i]) + multiset(s[i + 1..]);
  }

  /** Every sequence `itertools.permutations` yields is a permutation of its input. */
  lemma {:induction false} PermutationsSound(s: seq<string>, p: seq<string>)
    requires p in Permutations(s)
    ensures IsPermutation(p, s)
    decreases |s|, 1
  {
    if |s| > 0 {
      PermutationsFromSound(s, 0, p);
    }
  }

  lemma {:induction false} PermutationsFromSound(s: seq<string>, i: nat, p: seq<string>)
    requires i <= |s| && p in PermutationsFrom(s, i)
    ensures IsPermutation(p, s)
    decreases |s|, 0, |s| - i
  {
    var front := PrependAll(s[i], Permutations(RemoveAt(s, i)));
    if p in front {
      var k :| 0 <= k < |front| && front[k] == p;
      var q := Permutations(RemoveAt(s, i))[k];
      PermutationsSound(RemoveAt(s, i), q);
      RemoveAtMultiset(s, i);
      assert p == [s[i]] + q;
    } else {
      PermutationsFromSound(s, i + 1, p);
    }
  }

  /** Every permutation of the input is among those `itertools.permutations` yields. */
  lemma {:induction false} PermutationsComplete(s: seq<string>, p: seq<string>)
    requires IsPermutation(p, s)
    ensures p in Permutations(s)
    decreases |s|
  {
    assert |p| == |multiset(p)| == |multiset(s)| == |s|;
    if |s| == 0 {
      assert p == [];
    } else {
      assert p[0] in multiset(s) by { assert p == [p[0]] + p[1..]; }
      var i :| 0 <= i < |s| && s[i] == p[0];
      RemoveAtMultiset(s, i);
      assert p == [p[0]] + p[1..];
      assert multiset(p) == multiset(p[1..]) + multiset{p[0]};
      PermutationsComplete(RemoveAt(s, i), p[1..]);
      var qs := Permutations(RemoveAt(s, i));
      var k :| 0 <= k < |qs| && qs[k] == p[1..];
      assert PrependAll(s[i], qs)[k] == p;
      PermutationsFromContains(s, 0, i, p);
    }
  }

  lemma {:induction false} PermutationsFromContains(s: seq<string>, j: nat, i: nat, p: seq<string>)
    requires j <= i < |s|
    requires p in PrependAll(s[i], Permutations(RemoveAt(s, i)))
    ensures p in PermutationsFrom(s, j)
    decreases i - j
  {
    if j < i {
      PermutationsFromContains(s, j + 1, i, p);
    }
  }

  /** `itertools.permutations` of k elements yields k! sequences. */
  lemma {:induction false} PermutationsCount(s: seq<string>)
    ensures |Permutations(s)| == Factorial(|s|)
    decreases |s|, 1
  {
    if |s| > 0 {
      PermutationsFromCount(s, 0);
    }
  }

  lemma {:induction false} PermutationsFromCount(s: seq<string>, i: nat)
    requires i <= |s| && |s| > 0
    ensures |PermutationsFrom(s, i)| == (|s| - i) * Factorial(|s| - 1)
    decreases |s|, 0, |s| - i
  {
    if i < |s| {
      PermutationsCount(RemoveAt(s, i));
      PermutationsFromCount(s, i + 1);
      var f, r := Factorial(|s| - 1), |s| - (i + 1);
      assert |PermutationsFrom(s, i)| == f + r * f;
      assert (r + 1) * f == r * f + f;
    }
  }

  /** A single stop has no rearrangement but itself. */
  lemma SingletonPermutation(x: string, p: seq<string>)
    requires IsPermutation(p, [x])
    ensures p == [x]
  {
    assert |p| == |multiset(p)| == 1;
    assert p[0] in multiset(p);
    assert p == [p[0]];
  }
}
