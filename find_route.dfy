/**
  The reference solver of `find_route.py`. The distance table is a dictionary
  of dictionaries, kept here as a list of entries in insertion order. From it
  `solve_tsp` builds an UNDIRECTED graph, walks every candidate
  `(start,) + perm + (end,)` in the order of `itertools.permutations`, and
  keeps the first candidate whose cost is strictly below the best so far.
 */
module FindRoute {
  import opened Permutations
  import opened Routes

  /** The `weights` dictionary of the configuration. */
  datatype Weights = Weights(distanceKm: real, durationMin: real)

  /** One `metrics` dictionary of the distance table. */
  datatype Metrics = Metrics(distanceKm: real, durationMin: real)

  /**
    `distances`: for each location, in insertion order, its destinations and
    their metrics. As in the dictionaries this stands for, the locations are
    distinct and so are the destinations of each row; no proof here needs it.
   */
  type Distances = seq<(string, seq<(string, Metrics)>)>

  /** The keys of `distances`, in insertion order. */
  function Keys(distances: Distances): seq<string> {
    seq(|distances|, i requires 0 <= i < |distances| => distances[i].0)
  }

  // ---------------------------------------------------------------------------
  // verify_stops_in_distances

  /** `stops[k]` is the first of `stops` that is not among `keys`. */
  ghost predicate FirstUnknown(keys: seq<string>, stops: seq<string>, k: int) {
    && 0 <= k < |stops|
    && stops[k] !in keys
    && forall m :: 0 <= m < k ==> stops[m] in keys
  }

  /**
    `verify_stops_in_distances`: nothing when every stop is a key of the
    table, otherwise the first stop that is not (the one the `ValueError`
    names). Only keys are consulted, never the destinations under them.
   */
  method VerifyStopsInDistances(distances: Distances, stops: seq<string>) returns (unknown: Option<string>)
    ensures unknown.None? <==> forall k :: 0 <= k < |stops| ==> stops[k] in Keys(distances)
    ensures unknown.Some? ==> exists k :: FirstUnknown(Keys(distances), stops, k) && stops[k] == unknown.value
  {
    var keys := Keys(distances);
    for i := 0 to |stops|
      invariant forall m :: 0 <= m < i ==> stops[m] in keys
    {
      if stops[i] !in keys {
        assert FirstUnknown(keys, stops, i);
        return Some(stops[i]);
      }
    }
    return None;
  }

  // ---------------------------------------------------------------------------
  // calculate_cost

  function CalculateCost(distance: real, duration: real, weights: Weights): real {
    weights.distanceKm * distance + weights.durationMin * duration
  }

  /** The cost is linear: costing summed totals is summing the costs. */
  lemma CostIsLinear(d1: real, t1: real, d2: real, t2: real, weights: Weights)
    ensures CalculateCost(d1 + d2, t1 + t2, weights) == CalculateCost(d1, t1, weights) + CalculateCost(d2, t2, weights)
    ensures CalculateCost(0.0, 0.0, weights) == 0.0
  {
    assert weights.distanceKm * (d1 + d2) == weights.distanceKm * d1 + weights.distanceKm * d2;
    assert weights.durationMin * (t1 + t2) == weights.durationMin * t1 + weights.durationMin * t2;
    assert weights.distanceKm * 0.0 == 0.0 && weights.durationMin * 0.0 == 0.0;
  }

  // ---------------------------------------------------------------------------
  // The graph

  /** One `G.add_edge(location, destination, ...)` call of the nested loops. */
  datatype Record = Record(location: string, destination: string, metrics: Metrics)

  /** The calls the inner loop makes for one row of the table. */
  ghost function RowRecords(location: string, row: seq<(string, Metrics)>): seq<Record>
    decreases |row|
  {
    if row == [] then []
    else RowRecords(location, row[..|row| - 1]) + [Record(location, row[|row| - 1].0, row[|row| - 1].1)]
  }

  /** All the `add_edge` calls, in the order the nested loops make them. */
  ghost function Records(distances: Distances): seq<Record>
    decreases |distances|
  {
    if distances == [] then []
    else Records(distances[..|distances| - 1])
         + RowRecords(distances[|distances| - 1].0, distances[|distances| - 1].1)
  }

  /** The attributes `weight`, `distance_km` and `duration_min` of an edge. */
  datatype EdgeData = EdgeData(weight: real, distanceKm: real, durationMin: real)

  /**
    An `nx.Graph`: an undirected edge between `u` and `v` is found under both
    `(u, v)` and `(v, u)`.
   */
  type Graph = map<(string, string), EdgeData>

  function EdgeOf(r: Record, weights: Weights): EdgeData {
    EdgeData(CalculateCost(r.metrics.distanceKm, r.metrics.durationMin, weights),
             r.metrics.distanceKm, r.metrics.durationMin)
  }

  /**
    `G.add_edge(u, v, weight=..., distance_km=..., duration_min=...)`: the
    edge between `u` and `v` gets these attributes, whichever way round it
    was added before. Every call sets all three attributes, so networkx's
    update of the attribute dictionary replaces it.
   */
  function AddEdge(graph: Graph, r: Record, weights: Weights): Graph {
    graph[(r.location, r.destination) := EdgeOf(r, weights)][(r.destination, r.location) := EdgeOf(r, weights)]
  }

  /** The graph after the given `add_edge` calls, starting from `nx.Graph()`. */
  ghost function GraphFrom(records: seq<Record>, weights: Weights): Graph
    decreases |records|
  {
    if records == [] then map[]
    else AddEdge(GraphFrom(records[..|records| - 1], weights), records[|records| - 1], weights)
  }

  /** The nested loops of `solve_tsp` that fill `G`. */
  method BuildGraph(distances: Distances, weights: Weights) returns (graph: Graph)
    ensures graph == GraphFrom(Records(distances), weights)
  {
    graph := map[];
    for i := 0 to |distances|
      invariant graph == GraphFrom(Records(distances[..i]), weights)
    {
      var location, edges := distances[i].0, distances[i].1;
      ghost var done := Records(distances[..i]);
      assert done + RowRecords(location, edges[..0]) == done by {
        assert edges[..0] == [];
      }
      for j := 0 to |edges|
        invariant graph == GraphFrom(done + RowRecords(location, edges[..j]), weights)
      {
        var r := Record(location, edges[j].0, edges[j].1);
        assert edges[..j + 1][..j] == edges[..j];
        ghost var before := done + RowRecords(location, edges[..j]);
        assert done + RowRecords(location, edges[..j + 1]) == before + [r];
        assert (before + [r])[..|before|] == before;
        graph := AddEdge(graph, r, weights);
      }
      assert edges[..|edges|] == edges;
      assert distances[..i + 1][..i] == distances[..i];
    }
    assert distances[..|distances|] == distances;
  }

  /** Record `r` is an edge between `u` and `v`, added in either direction. */
  predicate Joins(r: Record, u: string, v: string) {
    (r.location == u && r.destination == v) || (r.location == v && r.destination == u)
  }

  /** The last record that joins `u` and `v`, if there is one. */
  ghost function LastBetween(records: seq<Record>, u: string, v: string): Option<Record>
    decreases |records|
  {
    if records == [] then None
    else if Joins(records[|records| - 1], u, v) then Some(records[|records| - 1])
    else LastBetween(records[..|records| - 1], u, v)
  }

  /** `records[k]` joins `u` and `v`, and no later record does. */
  ghost predicate LastJoiningAt(records: seq<Record>, u: string, v: string, k: int) {
    && 0 <= k < |records|
    && Joins(records[k], u, v)
    && forall m :: k < m < |records| ==> !Joins(records[m], u, v)
  }

  /** `LastBetween` is what its name says: the last record joining the two, or none when no record does. */
  lemma {:induction false} LastBetweenIsLast(records: seq<Record>, u: string, v: string)
    ensures LastBetween(records, u, v).None? <==> forall k :: 0 <= k < |records| ==> !Joins(records[k], u, v)
    ensures LastBetween(records, u, v).Some? ==>
              exists k :: LastJoiningAt(records, u, v, k) && records[k] == LastBetween(records, u, v).value
    decreases |records|
  {
    if records != [] {
      var n := |records|;
      var front := records[..n - 1];
      LastBetweenIsLast(front, u, v);
      assert forall k :: 0 <= k < n - 1 ==> front[k] == records[k];
      if Joins(records[n - 1], u, v) {
        assert LastJoiningAt(records, u, v, n - 1);
      } else if LastBetween(front, u, v).Some? {
        var k :| LastJoiningAt(front, u, v, k) && front[k] == LastBetween(front, u, v).value;
        assert LastJoiningAt(records, u, v, k);
      }
    }
  }

  /** The order of the two locations does not matter. */
  lemma {:induction false} LastBetweenSymmetric(records: seq<Record>, u: string, v: string)
    ensures LastBetween(records, u, v) == LastBetween(records, v, u)
    decreases |records|
  {
    if records != [] {
      LastBetweenSymmetric(records[..|records| - 1], u, v);
    }
  }

  /** The graph holds an edge between `u` and `v` exactly when a record joins them, and it is the last such record's. */
  lemma {:induction false} GraphFromLookup(records: seq<Record>, weights: Weights, u: string, v: string)
    ensures (u, v) in GraphFrom(records, weights) <==> LastBetween(records, u, v).Some?
    ensures (u, v) in GraphFrom(records, weights) ==>
              GraphFrom(records, weights)[(u, v)] == EdgeOf(LastBetween(records, u, v).value, weights)
    decreases |records|
  {
    if records != [] {
      GraphFromLookup(records[..|records| - 1], weights, u, v);
    }
  }

  /**
    Lookups in the graph are symmetric: `G.edges[a, b]` and `G.edges[b, a]`
    are the same edge, carrying the metrics of the last record between the
    two in either direction.
   */
  lemma GraphSymmetric(records: seq<Record>, weights: Weights, u: string, v: string)
    ensures (u, v) in GraphFrom(records, weights) <==> (v, u) in GraphFrom(records, weights)
    ensures (u, v) in GraphFrom(records, weights) ==>
              && GraphFrom(records, weights)[(u, v)] == GraphFrom(records, weights)[(v, u)]
              && exists k :: LastJoiningAt(records, u, v, k)
                             && GraphFrom(records, weights)[(u, v)] == EdgeOf(records[k], weights)
  {
    GraphFromLookup(records, weights, u, v);
    GraphFromLookup(records, weights, v, u);
    LastBetweenSymmetric(records, u, v);
    LastBetweenIsLast(records, u, v);
  }

  /** Every edge's `weight` is `calculate_cost` of its own distance and duration. */
  ghost predicate WeightsAgree(graph: Graph, weights: Weights) {
    forall e :: e in graph.Values ==> e.weight == CalculateCost(e.distanceKm, e.durationMin, weights)
  }

  lemma {:induction false} GraphFromWeightsAgree(records: seq<Record>, weights: Weights)
    ensures WeightsAgree(GraphFrom(records, weights), weights)
    decreases |records|
  {
    if records != [] {
      GraphFromWeightsAgree(records[..|records| - 1], weights);
    }
  }

  // ---------------------------------------------------------------------------
  // Walking a candidate

  /**
    The inner loop over `range(len(path) - 1)`: the sums of `weight`,
    `distance_km` and `duration_min` along the path, or the first pair for
    which `G.edges[...]` raises `KeyError`.
   */
  function WalkPath(graph: Graph, path: seq<string>): Walk
    decreases |path|
  {
    if |path| < 2 then Walked(0.0, 0.0, 0.0)
    else
      var n := |path|;
      var front := WalkPath(graph, path[..n - 1]);
      if front.Missing? then front
      else if (path[n - 2], path[n - 1]) !in graph then Missing(path[n - 2], path[n - 1])
      else
        var e := graph[(path[n - 2], path[n - 1])];
        Walked(front.cost + e.weight, front.distanceKm + e.distanceKm, front.durationMin + e.durationMin)
  }

  /** Once a prefix of the path misses an edge, so does the whole path, at the same pair. */
  lemma {:induction false} MissingPropagates(graph: Graph, path: seq<string>, m: nat)
    requires 2 <= m <= |path|
    requires WalkPath(graph, path[..m]).Missing?
    ensures WalkPath(graph, path) == WalkPath(graph, path[..m])
    decreases |path| - m
  {
    if m < |path| {
      assert path[..m + 1][..m] == path[..m];
      MissingPropagates(graph, path, m + 1);
    } else {
      assert path[..m] == path;
    }
  }

  /** Every consecutive pair of `path` is an edge of the graph. */
  ghost predicate AllEdges(graph: Graph, path: seq<string>) {
    forall i :: 0 <= i < |path| - 1 ==> (path[i], path[i + 1]) in graph
  }

  /** `(path[i], path[i + 1])` is the first consecutive pair that is not an edge. */
  ghost predicate FirstMissingAt(graph: Graph, path: seq<string>, i: int) {
    && 0 <= i < |path| - 1
    && (path[i], path[i + 1]) !in graph
    && forall m :: 0 <= m < i ==> (path[m], path[m + 1]) in graph
  }

  /**
    The walk reaches the end exactly when every consecutive pair is an edge
    of `G`, and otherwise reports the first pair for which `G.edges[...]`
    raises `KeyError`.
   */
  lemma {:induction false} WalkPathMissing(graph: Graph, path: seq<string>)
    ensures WalkPath(graph, path).Walked? <==> AllEdges(graph, path)
    ensures WalkPath(graph, path).Missing? ==>
            exists i :: FirstMissingAt(graph, path, i) && WalkPath(graph, path) == Missing(path[i], path[i + 1])
    decreases |path|
  {
    if |path| >= 2 {
      var n := |path|;
      var front := path[..n - 1];
      WalkPathMissing(graph, front);
      assert forall i :: 0 <= i < n - 1 ==> front[i] == path[i];
      if WalkPath(graph, front).Missing? {
        var i :| FirstMissingAt(graph, front, i) && WalkPath(graph, front) == Missing(front[i], front[i + 1]);
        assert FirstMissingAt(graph, path, i);
      } else if (path[n - 2], path[n - 1]) !in graph {
        assert FirstMissingAt(graph, path, n - 2);
      }
    }
  }

  /** The inner loop of `solve_tsp` for one candidate. */
  method WalkCandidate(graph: Graph, path: seq<string>) returns (walk: Walk)
    ensures walk == WalkPath(graph, path)
  {
    if |path| < 2 {
      return Walked(0.0, 0.0, 0.0);
    }
    var cost, distance, duration := 0.0, 0.0, 0.0;
    for i := 0 to |path| - 1
      invariant WalkPath(graph, path[..i + 1]) == Walked(cost, distance, duration)
    {
      assert path[..i + 2][..i + 1] == path[..i + 1];
      if (path[i], path[i + 1]) !in graph {
        MissingPropagates(graph, path, i + 2);
        return Missing(path[i], path[i + 1]);
      }
      var edge := graph[(path[i], path[i + 1])];
      cost := cost + edge.weight;
      distance := distance + edge.distanceKm;
      duration := duration + edge.durationMin;
    }
    assert path[..|path|] == path;
    return Walked(cost, distance, duration);
  }

  /** With weights that agree with the metrics, summing edge weights is costing the summed metrics. */
  lemma {:induction false} WalkCost(graph: Graph, weights: Weights, path: seq<string>)
    requires WeightsAgree(graph, weights)
    requires WalkPath(graph, path).Walked?
    ensures var w := WalkPath(graph, path); w.cost == CalculateCost(w.distanceKm, w.durationMin, weights)
    decreases |path|
  {
    var w := WalkPath(graph, path);
    if |path| >= 2 {
      var n := |path|;
      WalkCost(graph, weights, path[..n - 1]);
      var f := WalkPath(graph, path[..n - 1]);
      var e := graph[(path[n - 2], path[n - 1])];
      assert e in graph.Values;
      CostIsLinear(f.distanceKm, f.durationMin, e.distanceKm, e.durationMin, weights);
    } else {
      CostIsLinear(0.0, 0.0, 0.0, 0.0, weights);
    }
  }

  // ---------------------------------------------------------------------------
  // The candidates and the selection

  /** `full_paths`: every permutation of the stops, in `itertools.permutations` order, between start and end. */
  function Candidates(start: string, end: string, stops: seq<string>): (paths: seq<seq<string>>)
    ensures |paths| == |Permutations.Permutations(stops)|
  {
    var perms := Permutations.Permutations(stops);
    seq(|perms|, k requires 0 <= k < |perms| => FullPath(start, perms[k], end))
  }

  /**
    The best-so-far variables after the first `n` candidates: `best` is
    candidate `at`, no candidate so far costs less, and every earlier one
    costs strictly more.
   */
  ghost predicate BestAmong(graph: Graph, paths: seq<seq<string>>, n: nat, at: nat, best: Solution) {
    && at < n <= |paths|
    && best.path == paths[at]
    && WalkPath(graph, paths[at]) == Walked(best.cost, best.distanceKm, best.durationMin)
    && (forall k :: 0 <= k < n ==> WalkPath(graph, paths[k]).Walked? && best.cost <= WalkPath(graph, paths[k]).cost)
    && (forall k :: 0 <= k < at ==> best.cost < WalkPath(graph, paths[k]).cost)
  }

  /** Candidate `i` is the first that misses an edge, and `(from, to)` is the first missing pair on it. */
  ghost predicate FirstFailure(graph: Graph, paths: seq<seq<string>>, i: nat, from: string, to: string) {
    && i < |paths|
    && WalkPath(graph, paths[i]) == Missing(from, to)
    && forall k :: 0 <= k < i ==> WalkPath(graph, paths[k]).Walked?
  }

  /** Scoring candidate `i` with the strict `<` update keeps the best-so-far facts. */
  lemma ScoreStep(graph: Graph, paths: seq<seq<string>>, i: nat, at: nat, best: Option<Solution>,
                  at': nat, best': Solution)
    requires i < |paths|
    requires best.None? <==> i == 0
    requires best.Some? ==> BestAmong(graph, paths, i, at, best.value)
    requires WalkPath(graph, paths[i]).Walked?
    requires var w := WalkPath(graph, paths[i]);
             if best.None? || w.cost < best.value.cost
             then at' == i && best' == Solution(paths[i], w.cost, w.distanceKm, w.durationMin)
             else at' == at && best' == best.value
    ensures BestAmong(graph, paths, i + 1, at', best')
  {
  }

  /**
    `solve_tsp`: a `ValueError` for the first location (required stops, then
    start, then end) that is not a key of the table; a `KeyError` for the
    first candidate that misses an edge; otherwise the first candidate, in
    `itertools.permutations` order, with the least cost, and its totals.
    `at` is the position of that candidate, or of the failing one.
   */
  method SolveTsp(distances: Distances, startLocation: string, endLocation: string,
                  requiredStops: seq<string>, weights: Weights)
    returns (r: Result<Solution>, ghost at: nat)
    ensures var locations := requiredStops + [startLocation, endLocation];
            (r.Err? && r.error.StopMissing?) <==> exists k :: 0 <= k < |locations| && locations[k] !in Keys(distances)
    ensures var locations := requiredStops + [startLocation, endLocation];
            r.Err? && r.error.StopMissing? ==>
              exists k :: FirstUnknown(Keys(distances), locations, k) && locations[k] == r.error.stop
    ensures r.Err? && r.error.MissingEdge? ==>
              FirstFailure(GraphFrom(Records(distances), weights), Candidates(startLocation, endLocation, requiredStops),
                           at, r.error.from, r.error.to)
    ensures r.Ok? ==>
              var paths := Candidates(startLocation, endLocation, requiredStops);
              BestAmong(GraphFrom(Records(distances), weights), paths, |paths|, at, r.value)
  {
    at := 0;
    var unknown := VerifyStopsInDistances(distances, requiredStops + [startLocation, endLocation]);
    if unknown.Some? {
      return Err(StopMissing(unknown.value)), at;
    }
    var graph := BuildGraph(distances, weights);
    var fullPaths := Candidates(startLocation, endLocation, requiredStops);
    PermutationsCount(requiredStops);
    var best: Option<Solution> := None;
    for i := 0 to |fullPaths|
      invariant best.None? <==> i == 0
      invariant best.Some? ==> BestAmong(graph, fullPaths, i, at, best.value)
    {
      var walk := WalkCandidate(graph, fullPaths[i]);
      if walk.Missing? {
        return Err(MissingEdge(walk.from, walk.to)), i;
      }
      ghost var at' := at;
      var best' := best;
      if best.None? || walk.cost < best.value.cost {
        best' := Some(Solution(fullPaths[i], walk.cost, walk.distanceKm, walk.durationMin));
        at' := i;
      }
      ScoreStep(graph, fullPaths, i, at, best, at', best'.value);
      best, at := best', at';
    }
    return Ok(best.value), at;
  }

  // ---------------------------------------------------------------------------
  // What the selection promises

  /** Candidate `k` is the start, permutation `k` of the stops, and the end. */
  lemma CandidateShape(start: string, end: string, stops: seq<string>, k: nat)
    requires k < |Permutations.Permutations(stops)|
    ensures var path := Candidates(start, end, stops)[k];
            && |path| == |stops| + 2
            && path[0] == start && path[|path| - 1] == end
            && path[1..|path| - 1] == Permutations.Permutations(stops)[k]
            && IsPermutation(path[1..|path| - 1], stops)
  {
    var p := Permutations.Permutations(stops)[k];
    PermutationsSound(stops, p);
    assert |p| == |multiset(p)| == |multiset(stops)| == |stops|;
    var path := FullPath(start, p, end);
    assert path[1..|path| - 1] == p;
  }

  /** The returned path runs from the start through a permutation of the required stops to the end. */
  lemma SolutionShape(graph: Graph, start: string, end: string, stops: seq<string>, at: nat, sol: Solution)
    requires var paths := Candidates(start, end, stops); BestAmong(graph, paths, |paths|, at, sol)
    ensures |sol.path| == |stops| + 2
    ensures sol.path[0] == start && sol.path[|sol.path| - 1] == end
    ensures IsPermutation(sol.path[1..|sol.path| - 1], stops)
  {
    CandidateShape(start, end, stops, at);
  }

  /** No candidate `(start,) + perm + (end,)` costs less than the returned one. */
  lemma SolutionIsOptimal(graph: Graph, start: string, end: string, stops: seq<string>, at: nat, sol: Solution)
    requires var paths := Candidates(start, end, stops); BestAmong(graph, paths, |paths|, at, sol)
    ensures forall p :: IsPermutation(p, stops) ==>
              && WalkPath(graph, FullPath(start, p, end)).Walked?
              && sol.cost <= WalkPath(graph, FullPath(start, p, end)).cost
  {
    var paths := Candidates(start, end, stops);
    forall p | IsPermutation(p, stops)
      ensures && WalkPath(graph, FullPath(start, p, end)).Walked?
              && sol.cost <= WalkPath(graph, FullPath(start, p, end)).cost
    {
      PermutationsComplete(stops, p);
      var perms := Permutations.Permutations(stops);
      var k :| 0 <= k < |perms| && perms[k] == p;
      assert paths[k] == FullPath(start, p, end);
    }
  }

  /**
    The totals are the sums along the returned path, and the returned cost
    is `calculate_cost` of the returned distance and duration.
   */
  lemma SolutionTotals(distances: Distances, weights: Weights, start: string, end: string, stops: seq<string>,
                       at: nat, sol: Solution)
    requires var paths := Candidates(start, end, stops);
             BestAmong(GraphFrom(Records(distances), weights), paths, |paths|, at, sol)
    ensures WalkPath(GraphFrom(Records(distances), weights), sol.path) == Walked(sol.cost, sol.distanceKm, sol.durationMin)
    ensures sol.cost == CalculateCost(sol.distanceKm, sol.durationMin, weights)
  {
    GraphFromWeightsAgree(Records(distances), weights);
    WalkCost(GraphFrom(Records(distances), weights), weights, sol.path);
  }

  /**
    The strict `<` makes the answer the FIRST least-cost candidate in
    `itertools.permutations` order: two answers satisfying the selection
    are the same candidate with the same totals.
   */
  lemma TieBreak(graph: Graph, paths: seq<seq<string>>, at1: nat, sol1: Solution, at2: nat, sol2: Solution)
    requires BestAmong(graph, paths, |paths|, at1, sol1)
    requires BestAmong(graph, paths, |paths|, at2, sol2)
    ensures at1 == at2 && sol1 == sol2
  {
  }

  /**
    When there is a single candidate and it walks, the call succeeds and
    returns exactly that candidate with its totals.
   */
  lemma SingleCandidate(graph: Graph, paths: seq<seq<string>>, at: nat, sol: Solution)
    requires |paths| == 1 && WalkPath(graph, paths[0]).Walked?
    ensures var w := WalkPath(graph, paths[0]);
            BestAmong(graph, paths, 1, at, sol) <==> at == 0 && sol == Solution(paths[0], w.cost, w.distanceKm, w.durationMin)
    ensures forall i, from, to :: !FirstFailure(graph, paths, i, from, to)
  {
  }

  /** Without required stops there is one candidate, `(start, end)`, and the answer is the direct edge. */
  lemma NoStops(graph: Graph, start: string, end: string, at: nat, sol: Solution)
    requires var paths := Candidates(start, end, []); BestAmong(graph, paths, |paths|, at, sol)
    ensures Candidates(start, end, []) == [[start, end]]
    ensures at == 0 && sol.path == [start, end] && (start, end) in graph
    ensures sol.cost == graph[(start, end)].weight
    ensures sol.distanceKm == graph[(start, end)].distanceKm && sol.durationMin == graph[(start, end)].durationMin
  {
    assert Permutations.Permutations([]) == [[]];
    assert FullPath(start, [], end) == [start, end];
    assert Candidates(start, end, [])[0] == FullPath(start, [], end);
    assert [start, end][..1] == [start];
    var e := graph[(start, end)];
    assert WalkPath(graph, [start, end]) == Walked(0.0 + e.weight, 0.0 + e.distanceKm, 0.0 + e.durationMin);
  }

  // ---------------------------------------------------------------------------
  // A worked example

  /** Edges A-B (1 km, 2 min), B-C (1 km, 2 min) and A-C (5 km, 5 min); C's row is empty. */
  function ExampleDistances(): Distances {
    [("A", [("B", Metrics(1.0, 2.0)), ("C", Metrics(5.0, 5.0))]),
     ("B", [("C", Metrics(1.0, 2.0))]),
     ("C", [])]
  }

  /** The required stop, the start and the end of the example are all keys of the table. */
  lemma ExampleKeys()
    ensures forall k :: 0 <= k < 3 ==> ["B", "A", "C"][k] in Keys(ExampleDistances())
  {
    assert Keys(ExampleDistances()) == ["A", "B", "C"];
  }

  /** The `add_edge` calls for the example table. */
  lemma ExampleRecords()
    ensures Records(ExampleDistances())
            == [Record("A", "B", Metrics(1.0, 2.0)), Record("A", "C", Metrics(5.0, 5.0)), Record("B", "C", Metrics(1.0, 2.0))]
  {
    var d := ExampleDistances();
    var row := d[0].1;
    assert row[..1][..0] == [] && row[..1] == [row[0]] && row[..2] == row;
    assert RowRecords("A", row) == [Record("A", "B", Metrics(1.0, 2.0)), Record("A", "C", Metrics(5.0, 5.0))];
    assert d[1].1[..1][..0] == [] && d[1].1[..1] == d[1].1;
    assert RowRecords("B", d[1].1) == [Record("B", "C", Metrics(1.0, 2.0))];
    assert d[..1][..0] == [] && d[..2][..1] == d[..1] && d[..3] == d;
    assert Records(d[..1]) == RowRecords("A", row);
    assert Records(d[..2]) == Records(d[..1]) + RowRecords("B", d[1].1);
  }

  /** The example graph holds A-B and B-C with weight 1, distance 1 and duration 2. */
  lemma ExampleGraph()
    ensures var g := GraphFrom(Records(ExampleDistances()), Weights(1.0, 0.0));
            ("A", "B") in g && g[("A", "B")] == EdgeData(1.0, 1.0, 2.0)
            && ("B", "C") in g && g[("B", "C")] == EdgeData(1.0, 1.0, 2.0)
  {
    ExampleRecords();
    var rs := Records(ExampleDistances());
    var w := Weights(1.0, 0.0);
    assert "A" != "B" && "B" != "C" && "A" != "C";
    GraphFromLookup(rs, w, "A", "B");
    GraphFromLookup(rs, w, "B", "C");
    assert [rs[0], rs[1], rs[2]][..2] == [rs[0], rs[1]] && [rs[0], rs[1]][..1] == [rs[0]];
    assert LastBetween(rs, "B", "C") == Some(rs[2]);
    assert LastBetween(rs, "A", "B") == Some(rs[0]);
  }

  /** With one stop there is one candidate. */
  lemma ExampleCandidates(start: string, end: string)
    ensures Candidates(start, end, ["B"]) == [[start, "B", end]]
  {
    ExamplePermutations();
    assert FullPath(start, ["B"], end) == [start, "B", end];
  }

  lemma ExamplePermutations()
    ensures Permutations.Permutations(["B"]) == [["B"]]
  {
    assert RemoveAt(["B"], 0) == [];
    assert PrependAll("B", [[]])[0] == ["B"] + [] == ["B"];
  }

  /** The walk A-B-C costs 2, with distance 2 and duration 4. */
  lemma ExampleRouteWalk()
    ensures WalkPath(GraphFrom(Records(ExampleDistances()), Weights(1.0, 0.0)), ["A", "B", "C"]) == Walked(2.0, 2.0, 4.0)
  {
    ExampleGraph();
    var g := GraphFrom(Records(ExampleDistances()), Weights(1.0, 0.0));
    var path := ["A", "B", "C"];
    assert path[..2] == ["A", "B"] && path[..2][..1] == ["A"];
    assert WalkPath(g, ["A", "B"]) == Walked(0.0 + 1.0, 0.0 + 1.0, 0.0 + 2.0);
  }

  /**
    From A to C through B, costing distance only: the only candidate is
    `(A, B, C)`; the call succeeds, and its answer is exactly that path with
    cost 2, distance 2 and duration 4, not the direct edge of cost 5.
   */
  lemma ExampleRoute(at: nat, sol: Solution)
    ensures var paths := Candidates("A", "C", ["B"]);
            BestAmong(GraphFrom(Records(ExampleDistances()), Weights(1.0, 0.0)), paths, |paths|, at, sol)
            <==> at == 0 && sol == Solution(["A", "B", "C"], 2.0, 2.0, 4.0)
    ensures forall i, from, to ::
              !FirstFailure(GraphFrom(Records(ExampleDistances()), Weights(1.0, 0.0)), Candidates("A", "C", ["B"]), i, from, to)
  {
    ExampleCandidates("A", "C");
    ExampleRouteWalk();
    SingleCandidate(GraphFrom(Records(ExampleDistances()), Weights(1.0, 0.0)), Candidates("A", "C", ["B"]), at, sol);
  }

  /** The graph is undirected, so it holds B-A and C-B as well. */
  lemma ExampleGraphReversed()
    ensures var g := GraphFrom(Records(ExampleDistances()), Weights(1.0, 0.0));
            ("B", "A") in g && g[("B", "A")] == EdgeData(1.0, 1.0, 2.0)
            && ("C", "B") in g && g[("C", "B")] == EdgeData(1.0, 1.0, 2.0)
  {
    ExampleGraph();
    GraphSymmetric(Records(ExampleDistances()), Weights(1.0, 0.0), "A", "B");
    GraphSymmetric(Records(ExampleDistances()), Weights(1.0, 0.0), "B", "C");
  }

  /** The walk C-B-A uses the same edges the other way round: cost 2, distance 2, duration 4. */
  lemma ExampleReversedWalk()
    ensures WalkPath(GraphFrom(Records(ExampleDistances()), Weights(1.0, 0.0)), ["C", "B", "A"]) == Walked(2.0, 2.0, 4.0)
  {
    ExampleGraphReversed();
    var g := GraphFrom(Records(ExampleDistances()), Weights(1.0, 0.0));
    var path := ["C", "B", "A"];
    assert path[..2] == ["C", "B"] && path[..2][..1] == ["C"];
    assert WalkPath(g, ["C", "B"]) == Walked(0.0 + 1.0, 0.0 + 1.0, 0.0 + 2.0);
  }

  /**
    The same trip backwards: the graph is undirected, so the call succeeds
    with `(C, B, A)` and the same totals.
   */
  lemma ExampleReversed(at: nat, sol: Solution)
    ensures var paths := Candidates("C", "A", ["B"]);
            BestAmong(GraphFrom(Records(ExampleDistances()), Weights(1.0, 0.0)), paths, |paths|, at, sol)
            <==> at == 0 && sol == Solution(["C", "B", "A"], 2.0, 2.0, 4.0)
    ensures forall i, from, to ::
              !FirstFailure(GraphFrom(Records(ExampleDistances()), Weights(1.0, 0.0)), Candidates("C", "A", ["B"]), i, from, to)
  {
    ExampleCandidates("C", "A");
    ExampleReversedWalk();
    SingleCandidate(GraphFrom(Records(ExampleDistances()), Weights(1.0, 0.0)), Candidates("C", "A", ["B"]), at, sol);
  }
}
