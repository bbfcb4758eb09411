/**
  The accelerated solver of `cpp/tps_solver.cpp`. It lays out
  `[start] ++ required_stops ++ [end]` in a `locations` vector, sorts the
  interior, and walks the interior through every lexicographic permutation
  with `std::next_permutation`, scoring each candidate along DIRECTED edges
  and keeping the first one whose cost is strictly below the best so far.
 */
module TpsSolver {
  import opened Permutations
  import opened Lex
  import opened Routes
  import opened StdAlgorithm
  import opened Enumeration

  /** `struct Edge`: the metrics stored for one directed pair of locations. */
  datatype Edge = Edge(distanceKm: real, durationMin: real)

  /** `unordered_map<string, unordered_map<string, Edge>>`: from, then to. */
  type Graph = map<string, map<string, Edge>>

  function CalculateCost(distanceKm: real, durationMin: real, weightDistance: real, weightDuration: real): real {
    weightDistance * distanceKm + weightDuration * durationMin
  }

  /** `graph.at(from).at(to)`: nothing where either `at` would throw `std::out_of_range`. */
  function Lookup(graph: Graph, from: string, to: string): Option<Edge> {
    if from in graph && to in graph[from] then Some(graph[from][to]) else None
  }

  /** The inner `for` loop over consecutive pairs: sums of cost, distance and duration, or the first pair with no edge. */
  function WalkPath(graph: Graph, weightDistance: real, weightDuration: real, path: seq<string>): Walk
    decreases |path|
  {
    if |path| < 2 then Walked(0.0, 0.0, 0.0)
    else
      var n := |path|;
      var front := WalkPath(graph, weightDistance, weightDuration, path[..n - 1]);
      var edge := Lookup(graph, path[n - 2], path[n - 1]);
      if front.Missing? then front
      else if edge.None? then Missing(path[n - 2], path[n - 1])
      else Walked(front.cost + CalculateCost(edge.value.distanceKm, edge.value.durationMin, weightDistance, weightDuration),
                  front.distanceKm + edge.value.distanceKm, front.durationMin + edge.value.durationMin)
  }

  /** The walk of candidate `(start,) + interior + (end,)`. */
  ghost function CandidateWalk(graph: Graph, weightDistance: real, weightDuration: real,
                               start: string, end: string, interior: seq<string>): Walk
  {
    WalkPath(graph, weightDistance, weightDuration, FullPath(start, interior, end))
  }

  /** Summing edge costs is the same as costing the summed distance and duration. */
  lemma {:induction false} CostIsWeightedSum(graph: Graph, weightDistance: real, weightDuration: real, path: seq<string>)
    requires WalkPath(graph, weightDistance, weightDuration, path).Walked?
    ensures var w := WalkPath(graph, weightDistance, weightDuration, path);
            w.cost == CalculateCost(w.distanceKm, w.durationMin, weightDistance, weightDuration)
    decreases |path|
  {
    if |path| >= 2 {
      var front := path[..|path| - 1];
      CostIsWeightedSum(graph, weightDistance, weightDuration, front);
      var f := WalkPath(graph, weightDistance, weightDuration, front);
      var e := Lookup(graph, path[|path| - 2], path[|path| - 1]).value;
      assert weightDistance * (f.distanceKm + e.distanceKm) == weightDistance * f.distanceKm + weightDistance * e.distanceKm;
      assert weightDuration * (f.durationMin + e.durationMin) == weightDuration * f.durationMin + weightDuration * e.durationMin;
      assert f.cost == weightDistance * f.distanceKm + weightDuration * f.durationMin;
      assert WalkPath(graph, weightDistance, weightDuration, path)
             == Walked(f.cost + CalculateCost(e.distanceKm, e.durationMin, weightDistance, weightDuration),
                       f.distanceKm + e.distanceKm, f.durationMin + e.durationMin);
      var w := WalkPath(graph, weightDistance, weightDuration, path);
      assert w.cost == f.cost + weightDistance * e.distanceKm + weightDuration * e.durationMin;
      assert w.cost == weightDistance * w.distanceKm + weightDuration * w.durationMin;
    } else {
      assert weightDistance * 0.0 == 0.0 && weightDuration * 0.0 == 0.0;
    }
  }

  /** Every consecutive pair of `path` has an entry in the graph. */
  ghost predicate AllEdges(graph: Graph, path: seq<string>) {
    forall i :: 0 <= i < |path| - 1 ==> Lookup(graph, path[i], path[i + 1]).Some?
  }

  /** `(path[i], path[i + 1])` is the first consecutive pair with no entry. */
  ghost predicate FirstMissingAt(graph: Graph, path: seq<string>, i: int) {
    && 0 <= i < |path| - 1
    && Lookup(graph, path[i], path[i + 1]).None?
    && forall m :: 0 <= m < i ==> Lookup(graph, path[m], path[m + 1]).Some?
  }

  /**
    Lookups are directed: the walk reaches the end exactly when every
    consecutive pair `(path[i], path[i + 1])` has an entry, and otherwise
    reports the first pair that has none.
   */
  lemma {:induction false} WalkPathMissing(graph: Graph, weightDistance: real, weightDuration: real, path: seq<string>)
    ensures WalkPath(graph, weightDistance, weightDuration, path).Walked? <==> AllEdges(graph, path)
    ensures WalkPath(graph, weightDistance, weightDuration, path).Missing? ==>
            exists i :: FirstMissingAt(graph, path, i) &&
                        WalkPath(graph, weightDistance, weightDuration, path) == Missing(path[i], path[i + 1])
    decreases |path|
  {
    if |path| >= 2 {
      var n := |path|;
      var front := path[..n - 1];
      WalkPathMissing(graph, weightDistance, weightDuration, front);
      assert forall i :: 0 <= i < n - 1 ==> front[i] == path[i];
      if WalkPath(graph, weightDistance, weightDuration, front).Missing? {
        var i :| FirstMissingAt(graph, front, i) &&
                 WalkPath(graph, weightDistance, weightDuration, front) == Missing(front[i], front[i + 1]);
        assert FirstMissingAt(graph, path, i);
      } else if Lookup(graph, path[n - 2], path[n - 1]).None? {
        assert FirstMissingAt(graph, path, n - 2);
      }
    }
  }

  /** Once a prefix of the path misses an edge, so does the whole path, at the same pair. */
  lemma {:induction false} MissingPropagates(graph: Graph, weightDistance: real, weightDuration: real, path: seq<string>, m: nat)
    requires 2 <= m <= |path|
    requires WalkPath(graph, weightDistance, weightDuration, path[..m]).Missing?
    ensures WalkPath(graph, weightDistance, weightDuration, path) == WalkPath(graph, weightDistance, weightDuration, path[..m])
    decreases |path| - m
  {
    if m < |path| {
      assert path[..m + 1][..m] == path[..m];
      MissingPropagates(graph, weightDistance, weightDuration, path, m + 1);
    } else {
      assert path[..m] == path;
    }
  }

  /** The best-so-far variables, after the candidates `visited` have been scored. */
  ghost predicate BestSoFar(graph: Graph, weightDistance: real, weightDuration: real, start: string, end: string,
                            visited: seq<seq<string>>, at: nat, best: Solution)
  {
    && at < |visited|
    && best.path == FullPath(start, visited[at], end)
    && CandidateWalk(graph, weightDistance, weightDuration, start, end, visited[at])
       == Walked(best.cost, best.distanceKm, best.durationMin)
    && (forall k :: 0 <= k < |visited| ==>
          && CandidateWalk(graph, weightDistance, weightDuration, start, end, visited[k]).Walked?
          && best.cost <= CandidateWalk(graph, weightDistance, weightDuration, start, end, visited[k]).cost)
    && (forall k :: 0 <= k < at ==>
          best.cost < CandidateWalk(graph, weightDistance, weightDuration, start, end, visited[k]).cost)
  }

  /** Scoring one more candidate with the strict `<` update keeps the best-so-far facts. */
  lemma ScoreStep(graph: Graph, weightDistance: real, weightDuration: real, start: string, end: string,
                  visited: seq<seq<string>>, at: nat, best: Option<Solution>, cur: seq<string>,
                  at': nat, best': Solution)
    requires best.None? <==> visited == []
    requires best.Some? ==> BestSoFar(graph, weightDistance, weightDuration, start, end, visited, at, best.value)
    requires CandidateWalk(graph, weightDistance, weightDuration, start, end, cur).Walked?
    requires var w := CandidateWalk(graph, weightDistance, weightDuration, start, end, cur);
             if best.None? || w.cost < best.value.cost
             then at' == |visited| && best' == Solution(FullPath(start, cur, end), w.cost, w.distanceKm, w.durationMin)
             else at' == at && best' == best.value
    ensures BestSoFar(graph, weightDistance, weightDuration, start, end, visited + [cur], at', best')
  {
  }

  /**
    `interior` is the lexicographically first permutation of the stops whose
    candidate misses an edge, and `(from, to)` is the first missing pair on it.
   */
  ghost predicate FirstFailure(graph: Graph, weightDistance: real, weightDuration: real, start: string, end: string,
                               stops: seq<string>, interior: seq<string>, from: string, to: string)
  {
    && IsPermutation(interior, stops)
    && CandidateWalk(graph, weightDistance, weightDuration, start, end, interior) == Missing(from, to)
    && forall p :: IsPermutation(p, stops) && SeqLt(p, interior) ==>
         CandidateWalk(graph, weightDistance, weightDuration, start, end, p).Walked?
  }

  /**
    `sol` runs from `start` through a permutation of the stops to `end`, its
    totals are the sums along it, no candidate costs less, and every candidate
    lexicographically before it costs strictly more.
   */
  ghost predicate Optimal(graph: Graph, weightDistance: real, weightDuration: real, start: string, end: string,
                          stops: seq<string>, sol: Solution)
  {
    && |sol.path| == |stops| + 2
    && sol.path[0] == start && sol.path[|sol.path| - 1] == end
    && IsPermutation(sol.path[1..|sol.path| - 1], stops)
    && WalkPath(graph, weightDistance, weightDuration, sol.path) == Walked(sol.cost, sol.distanceKm, sol.durationMin)
    && sol.cost == CalculateCost(sol.distanceKm, sol.durationMin, weightDistance, weightDuration)
    && (forall p :: IsPermutation(p, stops) ==>
          && CandidateWalk(graph, weightDistance, weightDuration, start, end, p).Walked?
          && sol.cost <= CandidateWalk(graph, weightDistance, weightDuration, start, end, p).cost)
    && (forall p :: IsPermutation(p, stops) && SeqLt(p, sol.path[1..|sol.path| - 1]) ==>
          sol.cost < CandidateWalk(graph, weightDistance, weightDuration, start, end, p).cost)
  }

  /** The strict `<` tie-break makes the optimal solution unique: two optimal answers are the same path. */
  lemma OptimalUnique(graph: Graph, weightDistance: real, weightDuration: real, start: string, end: string,
                      stops: seq<string>, a: Solution, b: Solution)
    requires Optimal(graph, weightDistance, weightDuration, start, end, stops, a)
    requires Optimal(graph, weightDistance, weightDuration, start, end, stops, b)
    ensures a == b
  {
    var ia, ib := a.path[1..|a.path| - 1], b.path[1..|b.path| - 1];
    FullPathOf(a.path);
    FullPathOf(b.path);
    SeqLtTotal(ia, ib);
  }

  /** Without required stops the answer is the path `[start, end]` along the direct edge. */
  lemma OptimalNoStops(graph: Graph, weightDistance: real, weightDuration: real, start: string, end: string, sol: Solution)
    requires Optimal(graph, weightDistance, weightDuration, start, end, [], sol)
    ensures sol.path == [start, end]
    ensures Lookup(graph, start, end) == Some(Edge(sol.distanceKm, sol.durationMin))
    ensures sol.cost == CalculateCost(sol.distanceKm, sol.durationMin, weightDistance, weightDuration)
  {
    assert sol.path == [start, end];
    assert sol.path[..1] == [start];
    var e := Lookup(graph, start, end);
    assert e.Some?;
    assert WalkPath(graph, weightDistance, weightDuration, sol.path)
           == Walked(0.0 + CalculateCost(e.value.distanceKm, e.value.durationMin, weightDistance, weightDuration),
                     0.0 + e.value.distanceKm, 0.0 + e.value.durationMin);
  }

  /** A permutation whose candidate misses an edge rules out every solution: the call can only fail. */
  lemma MissingRulesOutOptimal(graph: Graph, weightDistance: real, weightDuration: real, start: string, end: string,
                               stops: seq<string>, p: seq<string>, sol: Solution)
    requires IsPermutation(p, stops)
    requires CandidateWalk(graph, weightDistance, weightDuration, start, end, p).Missing?
    ensures !Optimal(graph, weightDistance, weightDuration, start, end, stops, sol)
  {
  }

  /** Only one permutation can be the first failing one. */
  lemma FirstFailureUnique(graph: Graph, weightDistance: real, weightDuration: real, start: string, end: string,
                           stops: seq<string>, p: seq<string>, q: seq<string>, from: string, to: string,
                           from': string, to': string)
    requires FirstFailure(graph, weightDistance, weightDuration, start, end, stops, p, from, to)
    requires FirstFailure(graph, weightDistance, weightDuration, start, end, stops, q, from', to')
    ensures p == q && from == from' && to == to'
  {
    SeqLtTotal(p, q);
  }

  /** A turn whose candidate misses an edge: the loop's exit through the rethrown exception. */
  lemma ReportMissing(graph: Graph, weightDistance: real, weightDuration: real, start: string, end: string,
                      stops: seq<string>, visited: seq<seq<string>>, at: nat, best: Option<Solution>,
                      cur: seq<string>, visited': seq<seq<string>>, from: string, to: string)
    requires Progress(stops, visited, cur, true) && visited' == visited + [cur]
    requires best.None? <==> visited == []
    requires best.Some? ==> BestSoFar(graph, weightDistance, weightDuration, start, end, visited, at, best.value)
    requires CandidateWalk(graph, weightDistance, weightDuration, start, end, cur) == Missing(from, to)
    ensures SortedEnumeration(stops, visited')
    ensures FirstFailure(graph, weightDistance, weightDuration, start, end, stops, visited'[|visited'| - 1], from, to)
  {
    assert visited'[0] == if visited == [] then cur else visited[0];
    forall p | IsPermutation(p, stops) && SeqLt(p, cur)
      ensures CandidateWalk(graph, weightDistance, weightDuration, start, end, p).Walked?
    {
      var k :| 0 <= k < |visited| && visited[k] == p;
    }
  }

  /** From the finished and scored enumeration to the promises about the returned solution. */
  lemma Selection(graph: Graph, weightDistance: real, weightDuration: real, start: string, end: string,
                  stops: seq<string>, visited: seq<seq<string>>, cur: seq<string>, at: nat, best: Solution)
    requires Progress(stops, visited, cur, false)
    requires BestSoFar(graph, weightDistance, weightDuration, start, end, visited, at, best)
    ensures SortedEnumeration(stops, visited)
    ensures forall p :: IsPermutation(p, stops) ==> p in visited
    ensures Optimal(graph, weightDistance, weightDuration, start, end, stops, best)
  {
    assert best.path[1..|best.path| - 1] == visited[at];
    assert |visited[at]| == |multiset(visited[at])| == |multiset(stops)| == |stops|;
    forall p | IsPermutation(p, stops)
      ensures && CandidateWalk(graph, weightDistance, weightDuration, start, end, p).Walked?
              && best.cost <= CandidateWalk(graph, weightDistance, weightDuration, start, end, p).cost
    {
      var k :| 0 <= k < |visited| && visited[k] == p;
    }
    forall p | IsPermutation(p, stops) && SeqLt(p, visited[at])
      ensures best.cost < CandidateWalk(graph, weightDistance, weightDuration, start, end, p).cost
    {
      var k :| 0 <= k < |visited| && visited[k] == p;
      if at <= k {
        SeqLtIrreflexive(p);
        if at < k {
          SeqLtAsymmetric(visited[at], visited[k]);
        }
      }
    }
    CostIsWeightedSum(graph, weightDistance, weightDuration, best.path);
  }

  /** The inner `for` loop over consecutive pairs of `locations`; the `catch` rethrows, so a missing edge ends the walk. */
  method WalkLocations(graph: Graph, locations: array<string>, weightDistance: real, weightDuration: real)
    returns (walk: Walk)
    requires locations.Length >= 2
    ensures walk == WalkPath(graph, weightDistance, weightDuration, locations[..])
  {
    ghost var path := locations[..];
    var cost, distance, duration := 0.0, 0.0, 0.0;
    for i := 0 to locations.Length - 1
      invariant WalkPath(graph, weightDistance, weightDuration, path[..i + 1]) == Walked(cost, distance, duration)
    {
      assert path[..i + 2][..i + 1] == path[..i + 1];
      var edge := Lookup(graph, locations[i], locations[i + 1]);
      if edge.None? {
        MissingPropagates(graph, weightDistance, weightDuration, path, i + 2);
        return Missing(locations[i], locations[i + 1]);
      }
      cost := cost + CalculateCost(edge.value.distanceKm, edge.value.durationMin, weightDistance, weightDuration);
      distance := distance + edge.value.distanceKm;
      duration := duration + edge.value.durationMin;
    }
    assert path[..locations.Length] == path;
    return Walked(cost, distance, duration);
  }

  /** The `locations` vector: the required stops with the start inserted in front and the end pushed at the back. */
  method Locations(startLocation: string, endLocation: string, requiredStops: seq<string>)
    returns (locations: array<string>)
    ensures fresh(locations)
    ensures locations[..] == FullPath(startLocation, requiredStops, endLocation)
  {
    var n := |requiredStops| + 2;
    locations := new string[n](k requires 0 <= k < n =>
      if k == 0 then startLocation else if k == n - 1 then endLocation else requiredStops[k - 1]);
    assert locations[..] == FullPath(startLocation, requiredStops, endLocation);
  }

  /**
    One turn's scoring: walk the candidate in `locations`, and take it as the
    new best when there is none yet or its cost is strictly lower.
   */
  method Score(graph: Graph, weightDistance: real, weightDuration: real, locations: array<string>,
               best: Option<Solution>, ghost start: string, ghost end: string,
               ghost visited: seq<seq<string>>, ghost at: nat)
    returns (walk: Walk, best': Option<Solution>, ghost at': nat)
    requires locations.Length >= 2 && locations[0] == start && locations[locations.Length - 1] == end
    requires best.None? <==> visited == []
    requires best.Some? ==> BestSoFar(graph, weightDistance, weightDuration, start, end, visited, at, best.value)
    ensures walk == CandidateWalk(graph, weightDistance, weightDuration, start, end, locations[1..locations.Length - 1])
    ensures walk.Missing? ==> best' == best && at' == at
    ensures walk.Walked? ==>
              && best'.Some?
              && BestSoFar(graph, weightDistance, weightDuration, start, end,
                           visited + [locations[1..locations.Length - 1]], at', best'.value)
  {
    FullPathOf(locations[..]);
    walk := WalkLocations(graph, locations, weightDistance, weightDuration);
    best', at' := best, at;
    if walk.Missing? {
      return;
    }
    if best.None? || walk.cost < best.value.cost {
      best' := Some(Solution(locations[..], walk.cost, walk.distanceKm, walk.durationMin));
      at' := |visited|;
    }
    ScoreStep(graph, weightDistance, weightDuration, start, end, visited, at, best,
              locations[1..locations.Length - 1], at', best'.value);
  }

  /** The `while (std::next_permutation(...))` of the do/while loop, with what it means for the enumeration. */
  method Advance(locations: array<string>, ghost stops: seq<string>, ghost visited: seq<seq<string>>)
    returns (more: bool)
    requires 2 <= locations.Length
    requires Progress(stops, visited, locations[1..locations.Length - 1], true)
    modifies locations
    ensures locations[0] == old(locations[0]) && locations[locations.Length - 1] == old(locations[locations.Length - 1])
    ensures Progress(stops, visited + [old(locations[1..locations.Length - 1])], locations[1..locations.Length - 1], more)
    ensures more ==> Remaining(stops, locations[1..locations.Length - 1]) < Remaining(stops, old(locations[1..locations.Length - 1]))
  {
    ghost var cur := locations[1..locations.Length - 1];
    more := NextPermutation(locations, 1, locations.Length - 1);
    ProgressStep(stops, visited, cur, more, locations[1..locations.Length - 1]);
    assert locations[0] == locations[..1][0] && locations[locations.Length - 1] == locations[locations.Length - 1..][0];
  }

  /** `solve_tsp` of `cpp/tps_solver.cpp`; `visited` records the interiors the loop scores, in order. */
  method SolveTsp(graph: Graph, startLocation: string, endLocation: string, requiredStops: seq<string>,
                  weightDistance: real, weightDuration: real)
    returns (r: Result<Solution>, ghost visited: seq<seq<string>>)
    ensures SortedEnumeration(requiredStops, visited)
    // a solution: every permutation was scored and the one returned is the optimal one
    ensures r.Ok? ==> && (forall p :: IsPermutation(p, requiredStops) ==> p in visited)
                      && Optimal(graph, weightDistance, weightDuration, startLocation, endLocation, requiredStops, r.value)
    // a missing edge: the enumeration stopped at the first permutation that misses one
    ensures r.Err? ==> && r.error.MissingEdge?
                       && FirstFailure(graph, weightDistance, weightDuration, startLocation, endLocation, requiredStops,
                                       visited[|visited| - 1], r.error.from, r.error.to)
  {
    var n := |requiredStops| + 2;
    var locations := Locations(startLocation, endLocation, requiredStops);
    assert locations[1..n - 1] == locations[..][1..n - 1] == requiredStops;
    assert locations[0] == startLocation && locations[n - 1] == endLocation by {
      assert locations[0] == locations[..][0] && locations[n - 1] == locations[..][n - 1];
    }
    SortRange(locations, 1, n - 1);
    assert locations[0] == locations[..1][0] && locations[n - 1] == locations[n - 1..][0];
    FirstProgress(requiredStops, locations[1..n - 1]);
    var best: Option<Solution> := None;
    ghost var bestAt: nat := 0;
    visited := [];
    var more := true;
    while more
      invariant locations[0] == startLocation && locations[n - 1] == endLocation
      invariant Progress(requiredStops, visited, locations[1..n - 1], more)
      invariant best.None? <==> visited == []
      invariant best.Some? ==>
        BestSoFar(graph, weightDistance, weightDuration, startLocation, endLocation, visited, bestAt, best.value)
      decreases more, Remaining(requiredStops, locations[1..n - 1])
    {
      ghost var cur := locations[1..n - 1];
      var walk;
      walk, best, bestAt := Score(graph, weightDistance, weightDuration, locations, best,
                                  startLocation, endLocation, visited, bestAt);
      if walk.Missing? {
        ReportMissing(graph, weightDistance, weightDuration, startLocation, endLocation, requiredStops,
                      visited, bestAt, best, cur, visited + [cur], walk.from, walk.to);
        visited := visited + [cur];
        return Err(MissingEdge(walk.from, walk.to)), visited;
      }
      more := Advance(locations, requiredStops, visited);
      visited := visited + [cur];
    }
    r := Ok(best.value);
    Selection(graph, weightDistance, weightDuration, startLocation, endLocation, requiredStops,
              visited, locations[1..n - 1], bestAt, best.value);
  }

  /**
    Directed edges A->B (1 km, 2 min), B->C (1 km, 2 min) and A->C (5 km, 5 min),
    as the driver converts the table: C has a row, and it is empty.
   */
  function ExampleGraph(): Graph {
    map["A" := map["B" := Edge(1.0, 2.0), "C" := Edge(5.0, 5.0)], "B" := map["C" := Edge(1.0, 2.0)], "C" := map[]]
  }

  /** The only candidate from A to C through B walks A->B->C: cost, distance and duration 2, 2 and 4. */
  lemma ExampleRouteWalk()
    ensures CandidateWalk(ExampleGraph(), 1.0, 0.0, "A", "C", ["B"]) == Walked(2.0, 2.0, 4.0)
  {
    var path := FullPath("A", ["B"], "C");
    assert path == ["A", "B", "C"];
    assert path[..2] == ["A", "B"] && path[..2][..1] == ["A"];
    var g := ExampleGraph();
    assert Lookup(g, "A", "B") == Some(Edge(1.0, 2.0)) && Lookup(g, "B", "C") == Some(Edge(1.0, 2.0));
    assert WalkPath(g, 1.0, 0.0, ["A", "B"]) == Walked(0.0 + CalculateCost(1.0, 2.0, 1.0, 0.0), 0.0 + 1.0, 0.0 + 2.0);
  }

  /** `(A, B, C)` with cost 2, distance 2 and duration 4 meets every condition on the answer. */
  lemma ExampleRouteOptimal()
    ensures Optimal(ExampleGraph(), 1.0, 0.0, "A", "C", ["B"], Solution(["A", "B", "C"], 2.0, 2.0, 4.0))
  {
    var sol := Solution(["A", "B", "C"], 2.0, 2.0, 4.0);
    ExampleRouteWalk();
    assert FullPath("A", ["B"], "C") == sol.path && sol.path[1..2] == ["B"];
    forall p | IsPermutation(p, ["B"])
      ensures CandidateWalk(ExampleGraph(), 1.0, 0.0, "A", "C", p) == Walked(2.0, 2.0, 4.0)
      ensures !SeqLt(p, sol.path[1..2])
    {
      SingletonPermutation("B", p);
      SeqLtIrreflexive(p);
    }
  }

  /**
    From A to C through B, costing distance only: the call succeeds, and its
    answer is exactly `[A, B, C]` with cost 2, distance 2 and duration 4, not the
    direct edge of cost 5.
   */
  lemma ExampleRoute(sol: Solution)
    ensures Optimal(ExampleGraph(), 1.0, 0.0, "A", "C", ["B"], sol) <==> sol == Solution(["A", "B", "C"], 2.0, 2.0, 4.0)
    ensures forall p, from, to :: !FirstFailure(ExampleGraph(), 1.0, 0.0, "A", "C", ["B"], p, from, to)
  {
    var expected := Solution(["A", "B", "C"], 2.0, 2.0, 4.0);
    ExampleRouteOptimal();
    if Optimal(ExampleGraph(), 1.0, 0.0, "A", "C", ["B"], sol) {
      OptimalUnique(ExampleGraph(), 1.0, 0.0, "A", "C", ["B"], sol, expected);
    }
    forall p, from, to ensures !FirstFailure(ExampleGraph(), 1.0, 0.0, "A", "C", ["B"], p, from, to) {
      if IsPermutation(p, ["B"]) {
        SingletonPermutation("B", p);
        ExampleRouteWalk();
      }
    }
  }

  /** The same trip backwards: lookups are directed, so the only candidate fails at its first edge C->B. */
  lemma ExampleReversed()
    ensures CandidateWalk(ExampleGraph(), 1.0, 0.0, "C", "A", ["B"]) == Missing("C", "B")
    ensures forall sol :: !Optimal(ExampleGraph(), 1.0, 0.0, "C", "A", ["B"], sol)
  {
    var path := FullPath("C", ["B"], "A");
    assert path == ["C", "B", "A"];
    assert path[..2] == ["C", "B"] && path[..2][..1] == ["C"];
    assert "B" !in ExampleGraph()["C"];
    assert WalkPath(ExampleGraph(), 1.0, 0.0, ["C", "B"]) == Missing("C", "B");
    forall sol ensures !Optimal(ExampleGraph(), 1.0, 0.0, "C", "A", ["B"], sol) {
      MissingRulesOutOptimal(ExampleGraph(), 1.0, 0.0, "C", "A", ["B"], ["B"], sol);
    }
  }
}
