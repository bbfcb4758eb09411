/**
  Vocabulary shared by both solvers: a candidate path, the totals gathered
  along it, the solution they return and the ways a call can fail.
 */
module Routes {

  datatype Option<T> = None | Some(value: T)

  /** The candidate `(start,) + interior + (end,)`. */
  function FullPath(start: string, interior: seq<string>, end: string): (path: seq<string>)
    ensures |path| == |interior| + 2
  {
    [start] + interior + [end]
  }

  /** Every path of at least two names is the candidate of its interior. */
  lemma FullPathOf(path: seq<string>)
    requires |path| >= 2
    ensures path == FullPath(path[0], path[1..|path| - 1], path[|path| - 1])
  {
    assert path == [path[0]] + path[1..|path| - 1] + [path[|path| - 1]];
  }

  /**
    Walking a path edge by edge either reaches its end, with the summed cost,
    distance and duration, or stops at the first consecutive pair that has no
    edge.
   */
  datatype Walk = Walked(cost: real, distanceKm: real, durationMin: real) | Missing(from: string, to: string)

  /** The returned tuple `(shortest_path, min_cost, total_distance, total_duration)`. */
  datatype Solution = Solution(path: seq<string>, cost: real, distanceKm: real, durationMin: real)

  datatype Error =
    | StopMissing(stop: string)                 // a location is not a key of the distance table
    | MissingEdge(from: string, to: string)     // a consecutive pair of a candidate has no edge

  datatype Result<T> = Ok(value: T) | Err(error: Error)
}
