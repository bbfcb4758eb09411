/**
  The enumeration the accelerated solver's do/while loop performs: starting
  from the sorted stops and stepping with `std::next_permutation`, it visits
  every permutation of the stops exactly once, in strictly increasing
  lexicographic order. Nothing here depends on the graph or the costs.
 */
module Enumeration {
  import opened Permutations
  import opened Lex

  /** `visited` holds permutations of `stops` in strictly increasing order. */
  ghost predicate Enumerated(stops: seq<string>, visited: seq<seq<string>>) {
    && (forall k :: 0 <= k < |visited| ==> IsPermutation(visited[k], stops))
    && Increasing(visited)
  }

  /** Every permutation below `cur` has been visited, and everything visited is below `cur`. */
  ghost predicate VisitedBelow(stops: seq<string>, visited: seq<seq<string>>, cur: seq<string>) {
    && (forall k :: 0 <= k < |visited| ==> SeqLt(visited[k], cur))
    && (forall p :: IsPermutation(p, stops) && SeqLt(p, cur) ==> p in visited)
  }

  /** Permutations of the stops that come after `cur`: the loop's termination measure. */
  ghost function Remaining(stops: seq<string>, cur: seq<string>): set<seq<string>> {
    set p | p in Permutations.Permutations(stops) && SeqLt(cur, p)
  }

  /** One turn of the do/while loop when `next_permutation` returns true. */
  lemma AdvanceStep(stops: seq<string>, visited: seq<seq<string>>, cur: seq<string>, next: seq<string>)
    requires IsPermutation(cur, stops) && Enumerated(stops, visited) && VisitedBelow(stops, visited, cur)
    requires IsSuccessor(cur, next)
    ensures IsPermutation(next, stops)
    ensures Enumerated(stops, visited + [cur]) && VisitedBelow(stops, visited + [cur], next)
    ensures Remaining(stops, next) < Remaining(stops, cur)
  {
    var visited' := visited + [cur];
    forall k | 0 <= k < |visited'| ensures SeqLt(visited'[k], next) {
      if k < |visited| {
        SeqLtTransitive(visited[k], cur, next);
      }
    }
    forall p | IsPermutation(p, stops) && SeqLt(p, next) ensures p in visited' {
      SeqLtTotal(p, cur);
      if SeqLt(cur, p) {
        SeqLtAsymmetric(p, next);
      } else if p != cur {
        assert p in visited;
      }
    }
    forall p | p in Remaining(stops, next) ensures p in Remaining(stops, cur) {
      SeqLtTransitive(cur, next, p);
    }
    PermutationsComplete(stops, next);
    SeqLtIrreflexive(next);
    assert next in Remaining(stops, cur);
  }

  /** The last turn, when `next_permutation` returns false: every permutation has been visited. */
  lemma FinalStep(stops: seq<string>, visited: seq<seq<string>>, cur: seq<string>)
    requires IsPermutation(cur, stops) && Enumerated(stops, visited) && VisitedBelow(stops, visited, cur)
    requires IsLast(cur)
    ensures Enumerated(stops, visited + [cur])
    ensures forall p :: IsPermutation(p, stops) ==> p in visited + [cur]
  {
    forall p | IsPermutation(p, stops) ensures p in visited + [cur] {
      assert SeqLe(p, cur);
      if p != cur {
        assert p in visited;
      }
    }
  }

  /**
    What the do/while loop knows about the enumeration when it is about to
    score `cur` (while `more`) or has left (when not `more`).
   */
  ghost predicate Progress(stops: seq<string>, visited: seq<seq<string>>, cur: seq<string>, more: bool) {
    && IsPermutation(cur, stops)
    && Enumerated(stops, visited)
    && (visited == [] ==> Sorted(cur))
    && (visited != [] ==> Sorted(visited[0]))
    && (more ==> VisitedBelow(stops, visited, cur))
    && (!more ==> visited != [] && forall p :: IsPermutation(p, stops) ==> p in visited)
  }

  /** One turn of the do/while loop, in terms of what `next_permutation` promises. */
  lemma ProgressStep(stops: seq<string>, visited: seq<seq<string>>, cur: seq<string>, more: bool, next: seq<string>)
    requires Progress(stops, visited, cur, true)
    requires more ==> IsSuccessor(cur, next)
    requires !more ==> IsLast(cur) && next == Reverse(cur)
    ensures Progress(stops, visited + [cur], next, more)
    ensures more ==> Remaining(stops, next) < Remaining(stops, cur)
  {
    if more {
      AdvanceStep(stops, visited, cur, next);
    } else {
      ReverseMultiset(cur);
      FinalStep(stops, visited, cur);
    }
    if visited == [] {
      assert (visited + [cur])[0] == cur;
    } else {
      assert (visited + [cur])[0] == visited[0];
    }
  }

  /** Before the first turn: the sorted stops, nothing visited, nothing below them. */
  lemma FirstProgress(stops: seq<string>, cur: seq<string>)
    requires Sorted(cur) && IsPermutation(cur, stops)
    ensures Progress(stops, [], cur, true)
  {
    forall p | IsPermutation(p, stops) ensures !SeqLt(p, cur) {
      SortedIsLeast(cur, p);
      if SeqLt(p, cur) {
        SeqLtAsymmetric(p, cur);
      }
    }
  }

  /** `visited` starts from the sorted stops and holds their permutations in strictly increasing order. */
  ghost predicate SortedEnumeration(stops: seq<string>, visited: seq<seq<string>>) {
    |visited| > 0 && Sorted(visited[0]) && Enumerated(stops, visited)
  }

  /**
    A complete sorted enumeration visits every distinct permutation exactly
    once: no entry repeats, the entries are exactly the permutations of the
    stops, and so there are as many as there are distinct permutations.
   */
  lemma ExactlyOnce(stops: seq<string>, visited: seq<seq<string>>)
    requires SortedEnumeration(stops, visited)
    requires forall p :: IsPermutation(p, stops) ==> p in visited
    ensures forall i, j :: 0 <= i < j < |visited| ==> visited[i] != visited[j]
    ensures forall p :: p in visited <==> IsPermutation(p, stops)
    ensures |visited| == |set p | p in Permutations.Permutations(stops)|
  {
    forall i, j | 0 <= i < j < |visited| ensures visited[i] != visited[j] {
      SeqLtIrreflexive(visited[i]);
    }
    DistinctCardinality(visited);
    forall p ensures p in visited <==> p in Permutations.Permutations(stops) {
      if p in visited {
        PermutationsComplete(stops, p);
      }
      if p in Permutations.Permutations(stops) {
        PermutationsSound(stops, p);
      }
    }
    assert (set p | p in visited) == (set p | p in Permutations.Permutations(stops));
  }

  /** A sequence without repeats has as many distinct elements as entries. */
  lemma {:induction false} DistinctCardinality(ps: seq<seq<string>>)
    requires forall i, j :: 0 <= i < j < |ps| ==> ps[i] != ps[j]
    ensures |set p | p in ps| == |ps|
    decreases |ps|
  {
    if ps != [] {
      var front := ps[..|ps| - 1];
      DistinctCardinality(front);
      assert (set p | p in ps) == (set p | p in front) + {ps[|ps| - 1]};
    }
  }

  /** With no stops there is one permutation, the empty one, and the loop visits it once. */
  lemma NoStops(visited: seq<seq<string>>)
    requires SortedEnumeration([], visited)
    ensures visited == [[]]
  {
    assert |visited[0]| == |multiset(visited[0])| == 0;
    if |visited| > 1 {
      assert |visited[1]| == |multiset(visited[1])| == 0;
      SeqLtIrreflexive([]);
    }
  }
}
