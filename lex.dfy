/**
  The orders the C++ solver relies on: `std::string`'s `operator<` on location
  names, and `std::lexicographical_compare` over a range of names, which is the
  order `std::next_permutation` steps through. Also the facts about sorted and
  non-increasing ranges that make `next_permutation` produce the immediate
  lexicographic successor.
 */
module Lex {
  import opened Permutations

  // ---------------------------------------------------------------------------
  // Order on names

  /** `a` sorts before `b`: the first differing character is smaller, or `a` is a proper prefix of `b`. */
  predicate StrLt(a: string, b: string)
    decreases |a|
  {
    if |a| == 0 then |b| > 0
    else |b| > 0 && (a[0] < b[0] || (a[0] == b[0] && StrLt(a[1..], b[1..])))
  }

  predicate StrLe(a: string, b: string) {
    a == b || StrLt(a, b)
  }

  lemma {:induction false} StrLtIrreflexive(a: string)
    ensures !StrLt(a, a)
    decreases |a|
  {
    if |a| > 0 {
      StrLtIrreflexive(a[1..]);
    }
  }

  lemma {:induction false} StrLtTransitive(a: string, b: string, c: string)
    requires StrLt(a, b) && StrLt(b, c)
    ensures StrLt(a, c)
    decreases |a|
  {
    if |a| > 0 && a[0] == b[0] && b[0] == c[0] {
      StrLtTransitive(a[1..], b[1..], c[1..]);
    }
  }

  lemma {:induction false} StrLtTotal(a: string, b: string)
    ensures a == b || StrLt(a, b) || StrLt(b, a)
    decreases |a|
  {
    if |a| > 0 && |b| > 0 && a[0] == b[0] {
      StrLtTotal(a[1..], b[1..]);
      assert a == [a[0]] + a[1..] && b == [b[0]] + b[1..];
    }
  }

  lemma StrLtAsymmetric(a: string, b: string)
    requires StrLt(a, b)
    ensures !StrLt(b, a) && a != b
  {
    StrLtIrreflexive(a);
    if StrLt(b, a) {
      StrLtTransitive(a, b, a);
    }
  }

  lemma StrLeTransitive(a: string, b: string, c: string)
    requires StrLe(a, b) && StrLe(b, c)
    ensures StrLe(a, c)
  {
    if StrLt(a, b) && StrLt(b, c) {
      StrLtTransitive(a, b, c);
    }
  }

  /** `!(a < b)` means `b <= a`: the order is total. */
  lemma StrNotLt(a: string, b: string)
    requires !StrLt(a, b)
    ensures StrLe(b, a)
  {
    StrLtTotal(a, b);
  }

  // ---------------------------------------------------------------------------
  // Lexicographic order on ranges of names

  /** `std::lexicographical_compare(a, b)` with `StrLt` comparing elements. */
  predicate SeqLt(a: seq<string>, b: seq<string>)
    decreases |a|
  {
    if |a| == 0 then |b| > 0
    else |b| > 0 && (StrLt(a[0], b[0]) || (a[0] == b[0] && SeqLt(a[1..], b[1..])))
  }

  predicate SeqLe(a: seq<string>, b: seq<string>) {
    a == b || SeqLt(a, b)
  }

  lemma {:induction false} SeqLtIrreflexive(a: seq<string>)
    ensures !SeqLt(a, a)
    decreases |a|
  {
    if |a| > 0 {
      StrLtIrreflexive(a[0]);
      SeqLtIrreflexive(a[1..]);
    }
  }

  lemma {:induction false} SeqLtTransitive(a: seq<string>, b: seq<string>, c: seq<string>)
    requires SeqLt(a, b) && SeqLt(b, c)
    ensures SeqLt(a, c)
    decreases |a|
  {
    if |a| > 0 {
      if StrLt(a[0], b[0]) && StrLt(b[0], c[0]) {
        StrLtTransitive(a[0], b[0], c[0]);
      } else if a[0] == b[0] && b[0] == c[0] {
        SeqLtTransitive(a[1..], b[1..], c[1..]);
      }
    }
  }

  lemma {:induction false} SeqLtTotal(a: seq<string>, b: seq<string>)
    ensures a == b || SeqLt(a, b) || SeqLt(b, a)
    decreases |a|
  {
    if |a| > 0 && |b| > 0 {
      StrLtTotal(a[0], b[0]);
      if a[0] == b[0] {
        SeqLtTotal(a[1..], b[1..]);
        assert a == [a[0]] + a[1..] && b == [b[0]] + b[1..];
      }
    }
  }

  lemma SeqLtAsymmetric(a: seq<string>, b: seq<string>)
    requires SeqLt(a, b)
    ensures !SeqLe(b, a)
  {
    SeqLtIrreflexive(a);
    if SeqLt(b, a) {
      SeqLtTransitive(a, b, a);
    }
  }

  lemma SeqLeAntisymmetric(a: seq<string>, b: seq<string>)
    requires SeqLe(a, b) && SeqLe(b, a)
    ensures a == b
  {
    if a != b {
      SeqLtAsymmetric(a, b);
    }
  }

  /** A common prefix does not change the comparison. */
  lemma {:induction false} SeqLtCommonPrefix(p: seq<string>, a: seq<string>, b: seq<string>)
    ensures SeqLt(p + a, p + b) == SeqLt(a, b)
    decreases |p|
  {
    if |p| == 0 {
      assert p + a == a && p + b == b;
    } else {
      StrLtIrreflexive(p[0]);
      assert (p + a)[0] == p[0] && (p + b)[0] == p[0];
      assert (p + a)[1..] == p[1..] + a && (p + b)[1..] == p[1..] + b;
      assert SeqLt(p + a, p + b) == SeqLt(p[1..] + a, p[1..] + b);
      SeqLtCommonPrefix(p[1..], a, b);
    }
  }

  lemma SeqLeCommonPrefix(p: seq<string>, a: seq<string>, b: seq<string>)
    requires SeqLe(a, b)
    ensures SeqLe(p + a, p + b)
  {
    SeqLtCommonPrefix(p, a, b);
  }

  /** Between ranges of equal length, the comparison is decided before anything appended. */
  lemma {:induction false} SeqLtAppend(a: seq<string>, b: seq<string>, c: seq<string>, d: seq<string>)
    requires |a| == |b| && SeqLt(a, b)
    ensures SeqLt(a + c, b + d)
    decreases |a|
  {
    assert (a + c)[0] == a[0] && (b + d)[0] == b[0];
    if !StrLt(a[0], b[0]) {
      assert (a + c)[1..] == a[1..] + c && (b + d)[1..] == b[1..] + d;
      SeqLtAppend(a[1..], b[1..], c, d);
    }
  }

  // ---------------------------------------------------------------------------
  // Sorted and non-increasing ranges

  /** Non-decreasing under `StrLt`, the state `std::sort` leaves a range in. */
  ghost predicate Sorted(s: seq<string>) {
    forall i :: 0 < i < |s| ==> StrLe(s[i - 1], s[i])
  }

  ghost predicate NonIncreasing(s: seq<string>) {
    forall i :: 0 < i < |s| ==> StrLe(s[i], s[i - 1])
  }

  lemma {:induction false} SortedPairwise(s: seq<string>, i: int, j: int)
    requires Sorted(s) && 0 <= i <= j < |s|
    ensures StrLe(s[i], s[j])
    decreases j - i
  {
    if i < j {
      SortedPairwise(s, i, j - 1);
      StrLeTransitive(s[i], s[j - 1], s[j]);
    }
  }

  lemma {:induction false} NonIncreasingPairwise(s: seq<string>, i: int, j: int)
    requires NonIncreasing(s) && 0 <= i <= j < |s|
    ensures StrLe(s[j], s[i])
    decreases j - i
  {
    if i < j {
      NonIncreasingPairwise(s, i, j - 1);
      StrLeTransitive(s[j], s[j - 1], s[i]);
    }
  }

  /** A sorted range is the lexicographically least of its permutations. */
  lemma {:induction false} SortedIsLeast(q: seq<string>, r: seq<string>)
    requires Sorted(q) && IsPermutation(r, q)
    ensures SeqLe(q, r)
    decreases |q|
  {
    assert |r| == |multiset(r)| == |multiset(q)| == |q|;
    if |q| > 0 {
      var m := HeadPosition(q, r);
      SortedPairwise(q, 0, m);
      if q[0] == r[0] {
        assert Sorted(q[1..]) by {
          forall i | 0 < i < |q[1..]| ensures StrLe(q[1..][i - 1], q[1..][i]) {
            assert q[1..][i - 1] == q[i] && q[1..][i] == q[i + 1];
          }
        }
        SortedIsLeast(q[1..], r[1..]);
      }
    }
  }

  /** A non-increasing range is the lexicographically greatest of its permutations. */
  lemma {:induction false} NonIncreasingIsGreatest(q: seq<string>, r: seq<string>)
    requires NonIncreasing(q) && IsPermutation(r, q)
    ensures SeqLe(r, q)
    decreases |q|
  {
    assert |r| == |multiset(r)| == |multiset(q)| == |q|;
    if |q| > 0 {
      var m := HeadPosition(q, r);
      NonIncreasingPairwise(q, 0, m);
      if q[0] == r[0] {
        assert NonIncreasing(q[1..]) by {
          forall i | 0 < i < |q[1..]| ensures StrLe(q[1..][i], q[1..][i - 1]) {
            assert q[1..][i - 1] == q[i] && q[1..][i] == q[i + 1];
          }
        }
        NonIncreasingIsGreatest(q[1..], r[1..]);
      }
    }
  }

  /**
    For two non-empty permutations of one another: where the head of `r` sits
    in `q`, and, when the heads agree, the tails are permutations too.
   */
  lemma HeadPosition(q: seq<string>, r: seq<string>) returns (m: nat)
    requires IsPermutation(r, q) && |q| > 0 && |r| > 0
    ensures m < |q| && q[m] == r[0]
    ensures q[0] == r[0] ==> IsPermutation(r[1..], q[1..])
  {
    HeadAndTail(q);
    HeadAndTail(r);
    assert r[0] in multiset(q);
    m :| 0 <= m < |q| && q[m] == r[0];
    if q[0] == r[0] {
      MultisetCancel(q[0], multiset(r[1..]), multiset(q[1..]));
    }
  }

  /** Two sorted permutations of one another are equal: a sort has exactly one outcome. */
  lemma SortedUnique(a: seq<string>, b: seq<string>)
    requires Sorted(a) && Sorted(b) && IsPermutation(a, b)
    ensures a == b
  {
    SortedIsLeast(a, b);
    SortedIsLeast(b, a);
    SeqLeAntisymmetric(a, b);
  }

  // ---------------------------------------------------------------------------
  // Reversal

  ghost function Reverse(s: seq<string>): (r: seq<string>)
    ensures |r| == |s|
  {
    seq(|s|, k requires 0 <= k < |s| => s[|s| - 1 - k])
  }

  lemma {:induction false} ReverseMultiset(s: seq<string>)
    ensures multiset(Reverse(s)) == multiset(s)
    decreases |s|
  {
    if |s| > 0 {
      assert Reverse(s) == Reverse(s[1..]) + [s[0]];
      assert s == [s[0]] + s[1..];
      ReverseMultiset(s[1..]);
    }
  }

  lemma ReverseNonIncreasing(s: seq<string>)
    requires NonIncreasing(s)
    ensures Sorted(Reverse(s))
  {
    forall i | 0 < i < |s| ensures StrLe(Reverse(s)[i - 1], Reverse(s)[i]) {
      assert Reverse(s)[i - 1] == s[|s| - i] && Reverse(s)[i] == s[|s| - 1 - i];
    }
  }

  // ---------------------------------------------------------------------------
  // The successor step of `std::next_permutation`

  /** `t` is the next permutation of `s` in lexicographic order: no permutation lies strictly between them. */
  ghost predicate IsSuccessor(s: seq<string>, t: seq<string>) {
    && IsPermutation(t, s)
    && SeqLt(s, t)
    && forall p :: IsPermutation(p, s) && SeqLt(s, p) ==> SeqLe(t, p)
  }

  /** `s` is the last of its permutations in lexicographic order. */
  ghost predicate IsLast(s: seq<string>) {
    forall p :: IsPermutation(p, s) ==> SeqLe(p, s)
  }

  /** Strictly increasing, hence without repetition. */
  ghost predicate Increasing(ps: seq<seq<string>>) {
    forall i, j :: 0 <= i < j < |ps| ==> SeqLt(ps[i], ps[j])
  }

  /**
    The step `next_permutation` takes when `s == P + [x] + S`, the tail `S` is
    non-increasing and `S[j]` is the last element of `S` above `x`: swapping
    `x` with `S[j]` and reversing the tail gives the lexicographic successor.
   */
  lemma Successor(s: seq<string>, t: seq<string>, p: seq<string>, x: string, tail: seq<string>, j: nat)
    requires NonIncreasing(tail) && j < |tail|
    requires StrLt(x, tail[j])
    requires forall m :: j < m < |tail| ==> !StrLt(x, tail[m])
    requires s == p + [x] + tail && t == p + [tail[j]] + Reverse(tail[j := x])
    ensures IsSuccessor(s, t)
  {
    SwappedTail(x, tail, j);
    ReverseNonIncreasing(tail[j := x]);
    SwapMultiset(x, tail, j);
    CeilingIsLeast(x, tail, j);
    SuccessorStep(s, t, p, x, tail, tail[j], Reverse(tail[j := x]));
  }

  /** Taking `tail[j]` out, putting `x` in and reversing leaves the same elements. */
  lemma SwapMultiset(x: string, tail: seq<string>, j: nat)
    requires j < |tail|
    ensures multiset([tail[j]] + Reverse(tail[j := x])) == multiset([x] + tail)
  {
    ReverseMultiset(tail[j := x]);
    assert tail == tail[..j] + [tail[j]] + tail[j + 1..];
    assert tail[j := x] == tail[..j] + [x] + tail[j + 1..];
  }

  /** The last element of a non-increasing tail above `x` is the least element above `x`. */
  lemma CeilingIsLeast(x: string, tail: seq<string>, j: nat)
    requires NonIncreasing(tail) && j < |tail|
    requires forall m :: j < m < |tail| ==> !StrLt(x, tail[m])
    ensures forall e :: e in multiset(tail) && StrLt(x, e) ==> StrLe(tail[j], e)
  {
    forall e | e in multiset(tail) && StrLt(x, e) ensures StrLe(tail[j], e) {
      var m :| 0 <= m < |tail| && tail[m] == e;
      NonIncreasingPairwise(tail, m, j);
    }
  }

  /** Putting `x` in place of the last element above it keeps the tail non-increasing. */
  lemma SwappedTail(x: string, tail: seq<string>, j: nat)
    requires NonIncreasing(tail) && j < |tail|
    requires StrLt(x, tail[j])
    requires forall m :: j < m < |tail| ==> !StrLt(x, tail[m])
    ensures NonIncreasing(tail[j := x])
  {
    var swapped := tail[j := x];
    forall i | 0 < i < |swapped| ensures StrLe(swapped[i], swapped[i - 1]) {
      if i == j {
        NonIncreasingPairwise(tail, i - 1, j);
        StrLeTransitive(x, tail[j], tail[i - 1]);
      } else if i - 1 == j {
        StrNotLt(x, tail[i]);
      }
    }
  }

  /**
    The successor step with the swap and reversal abstracted: `y` is the least
    element of the non-increasing tail above `x`, and `rest` is the sorted
    arrangement of what remains once `y` is taken out and `x` put in.
   */
  lemma SuccessorStep(s: seq<string>, t: seq<string>, p: seq<string>, x: string, tail: seq<string>, y: string, rest: seq<string>)
    requires NonIncreasing(tail) && StrLt(x, y)
    requires forall e :: e in multiset(tail) && StrLt(x, e) ==> StrLe(y, e)
    requires Sorted(rest) && multiset([y] + rest) == multiset([x] + tail)
    requires s == p + [x] + tail && t == p + [y] + rest
    ensures IsSuccessor(s, t)
  {
    SuccessorAbove(s, t, p, x, tail, y, rest);
    SuccessorIsLeast(s, t, p, x, tail, y, rest);
  }

  /** Putting a greater `y` after the common prefix gives a greater permutation. */
  lemma SuccessorAbove(s: seq<string>, t: seq<string>, p: seq<string>, x: string, tail: seq<string>, y: string, rest: seq<string>)
    requires StrLt(x, y) && multiset([y] + rest) == multiset([x] + tail)
    requires s == p + [x] + tail && t == p + [y] + rest
    ensures IsPermutation(t, s) && SeqLt(s, t)
  {
    assert s == p + ([x] + tail) && t == p + ([y] + rest);
    assert multiset(s) == multiset(p) + multiset([x] + tail);
    assert multiset(t) == multiset(p) + multiset([y] + rest);
    SeqLtCommonPrefix(p, [x] + tail, [y] + rest);
  }

  /** No permutation lies strictly between `p + [x] + tail` and `p + [y] + rest`. */
  lemma SuccessorIsLeast(s: seq<string>, t: seq<string>, p: seq<string>, x: string, tail: seq<string>, y: string, rest: seq<string>)
    requires NonIncreasing(tail) && StrLt(x, y)
    requires forall e :: e in multiset(tail) && StrLt(x, e) ==> StrLe(y, e)
    requires Sorted(rest) && multiset([y] + rest) == multiset([x] + tail)
    requires s == p + [x] + tail && t == p + [y] + rest
    ensures forall q :: IsPermutation(q, s) && SeqLt(s, q) ==> SeqLe(t, q)
  {
    forall q | IsPermutation(q, s) && SeqLt(s, q) ensures SeqLe(t, q) {
      SuccessorBelow(p, x, tail, y, rest, q);
    }
  }

  lemma SuccessorBelow(p: seq<string>, x: string, tail: seq<string>, y: string, rest: seq<string>, q: seq<string>)
    requires NonIncreasing(tail) && StrLt(x, y)
    requires forall e :: e in multiset(tail) && StrLt(x, e) ==> StrLe(y, e)
    requires Sorted(rest) && multiset([y] + rest) == multiset([x] + tail)
    requires IsPermutation(q, p + [x] + tail) && SeqLt(p + [x] + tail, q)
    ensures SeqLe(p + [y] + rest, q)
  {
    var i := |p|;
    assert p + [x] + tail == p + ([x] + tail) && p + [y] + rest == p + ([y] + rest);
    assert |q| == |multiset(q)| == |multiset(p + [x] + tail)| == |p| + 1 + |tail|;
    if q[..i] != p {
      DifferentPrefix(p, [x] + tail, [y] + rest, q);
    } else {
      var u := q[i..];
      assert q == p + u;
      assert multiset(p + u) == multiset(p) + multiset(u);
      assert multiset(p + ([x] + tail)) == multiset(p) + multiset([x] + tail);
      MultisetCancelUnion(multiset(p), multiset(u), multiset([x] + tail));
      SeqLtCommonPrefix(p, [x] + tail, u);
      AtPivot(x, tail, y, rest, u);
      SeqLeCommonPrefix(p, [y] + rest, u);
    }
  }

  /** When a candidate differs from `p + a` already within `p`, the first difference decides for `p + b` too. */
  lemma DifferentPrefix(p: seq<string>, a: seq<string>, b: seq<string>, q: seq<string>)
    requires |a| == |b| && |q| == |p| + |a|
    requires q[..|p|] != p && SeqLt(p + a, q)
    ensures SeqLt(p + b, q)
  {
    var i := |p|;
    assert q == q[..i] + q[i..];
    SeqLtTotal(q[..i], p);
    if SeqLt(q[..i], p) {
      SeqLtAppend(q[..i], p, q[i..], a);
      SeqLtAsymmetric(p + a, q);
    } else {
      SeqLtAppend(p, q[..i], b, q[i..]);
    }
  }

  /** The successor step once the common prefix is stripped off. */
  lemma AtPivot(x: string, tail: seq<string>, y: string, rest: seq<string>, u: seq<string>)
    requires NonIncreasing(tail) && StrLt(x, y)
    requires forall e :: e in multiset(tail) && StrLt(x, e) ==> StrLe(y, e)
    requires Sorted(rest) && multiset([y] + rest) == multiset([x] + tail)
    requires multiset(u) == multiset([x] + tail) && SeqLt([x] + tail, u)
    ensures SeqLe([y] + rest, u)
  {
    assert |u| == |multiset(u)| == |multiset([x] + tail)| > 0;
    var ut := u[1..];
    HeadAndTail(u);
    HeadAndTail([x] + tail);
    HeadAndTail([y] + rest);
    assert ([x] + tail)[0] == x && ([x] + tail)[1..] == tail;
    assert ([y] + rest)[0] == y && ([y] + rest)[1..] == rest;
    StrLtTotal(u[0], x);
    if u[0] == x {
      // the tails are permutations of one another, and the non-increasing one is greatest
      MultisetCancel(x, multiset(ut), multiset(tail));
      StrLtIrreflexive(x);
      NonIncreasingIsGreatest(tail, ut);
      SeqLtAsymmetric(tail, ut);
    } else if StrLt(u[0], x) {
      StrLtAsymmetric(u[0], x);
    } else {
      assert u[0] in multiset(u);
      assert u[0] in multiset(tail);
      if u[0] == y {
        MultisetCancel(y, multiset(rest), multiset(ut));
        SortedIsLeast(rest, ut);
      }
    }
  }

  lemma HeadAndTail(s: seq<string>)
    requires |s| > 0
    ensures s == [s[0]] + s[1..]
    ensures multiset(s) == multiset{s[0]} + multiset(s[1..])
  {
    assert s == [s[0]] + s[1..];
  }

  lemma MultisetCancelUnion(m: multiset<string>, a: multiset<string>, b: multiset<string>)
    requires m + a == m + b
    ensures a == b
  {
    assert a == (m + a) - m;
    assert b == (m + b) - m;
  }

  lemma MultisetCancel(x: string, a: multiset<string>, b: multiset<string>)
    requires multiset{x} + a == multiset{x} + b
    ensures a == b
  {
    assert a == (multiset{x} + a) - multiset{x};
    assert b == (multiset{x} + b) - multiset{x};
  }

  /**
    A non-increasing range is the last of its permutations: the case in which
    `next_permutation` reverses the range and returns false.
   */
  lemma NonIncreasingIsLast(s: seq<string>)
    requires NonIncreasing(s)
    ensures IsLast(s)
  {
    forall q | IsPermutation(q, s) ensures SeqLe(q, s) {
      NonIncreasingIsGreatest(s, q);
    }
  }
}
