# Exact route solver of tsp-open-route-service

The program picks the cheapest route from a start location to an end location
that visits every required stop. It does this by brute force: it tries every
order of the stops and costs each candidate route
`(start,) + order + (end,)` as `weight_distance * km + weight_duration * min`,
summed edge by edge. It has two solvers with the same interface:

- `solve_tsp` of `find_route.py`, the reference solver. It checks that every
  location is a key of the distance table. It builds an undirected
  `networkx` graph from the table and walks the candidates in the order of
  `itertools.permutations`. It keeps the first candidate whose cost is
  strictly below the best so far.
- `solve_tsp` of `cpp/tps_solver.cpp`, the accelerated solver. It lays the
  locations out in a vector and sorts the stops. It steps through their
  permutations with `std::next_permutation` in a do/while loop. It looks up
  every edge in a directed map of maps, where a missing edge throws. It keeps
  the first candidate whose cost is strictly below the best so far.

The Dafny project models both, with one module per concern:

| module | file | models |
|---|---|---|
| `Permutations` | permutations.dfy | `itertools.permutations`: its order, soundness, completeness, k! count |
| `Lex` | lex.dfy | `std::string` `operator<`, `std::lexicographical_compare`, sorted and non-increasing ranges, the lexicographic successor |
| `Routes` | routes.dfy | candidate paths, walks, the returned tuple, the two ways a call fails |
| `StdAlgorithm` | std_algorithm.dfy | `std::sort`, `std::iter_swap`, `std::reverse`, `std::next_permutation` on an array range |
| `Enumeration` | enumeration.dfy | the do/while loop visiting every distinct permutation once, in increasing order |
| `TpsSolver` | tps_solver.dfy | `cpp/tps_solver.cpp`: `Edge`, `calculate_cost`, `solve_tsp` (imperative, over an `array`) |
| `FindRoute` | find_route.dfy | `find_route.py`: `verify_stops_in_distances`, `calculate_cost`, `solve_tsp` (graph building, candidate walking, selection) |

Modelling choices:

- Distances, durations, weights and costs are `real`.
- The `float('inf')` and `numeric_limits<double>::infinity()` sentinel of
  "no best yet" becomes an `Option` that is `None` until the first candidate
  is scored. Every finite cost is below infinity, so the first candidate
  always becomes the best, as it does in the code.
- A raised exception becomes `Err` of a `Result`:
  - `StopMissing(stop)` is the `ValueError` of `verify_stops_in_distances`.
  - `MissingEdge(from, to)` is the `KeyError` of `G.edges[...]`, or the
    rethrown `std::out_of_range` of `graph.at(...).at(...)`.
- The Python dictionaries are ordered association lists (`seq` of pairs),
  because iteration order decides which `add_edge` call wins.
- The `nx.Graph` is a `map` keyed by ordered pairs that stores both
  orientations of each edge.
- Names are `seq<char>`. `StrLt` compares them character by character. For
  UTF-8 strings, byte order equals code-point order, so `StrLt` agrees with
  `std::string`'s `operator<` on the names the program reads.

Behaviour of the code that the model follows:

- `verify_stops_in_distances` checks only the KEYS of the distance table
  (the start, the end and the stops), never the destinations.
  - It fails on the first location that is not a key.
  - A location may be a key with an empty row and still pass.
  - A missing edge surfaces only later, while candidates are walked: the
    first candidate with a missing consecutive pair aborts the whole call.
- The Python graph is UNDIRECTED. For a pair given twice (in either
  direction or in both rows), the `add_edge` call made last wins:
  `FindRoute.GraphSymmetric` and `FindRoute.LastBetweenIsLast`.
- The C++ map is DIRECTED. On the same edges, the trip from A to C through B
  succeeds in both solvers with the same answer (`TpsSolver.ExampleRoute`,
  `FindRoute.ExampleRoute`). The trip back from C to A succeeds in Python
  with the same totals (`FindRoute.ExampleReversed`). In C++ it fails at
  C->B (`TpsSolver.ExampleReversed`).
- The two solvers visit candidates in different orders:
  - Python visits stop positions in `itertools` order, which repeats a
    permutation when stops repeat.
  - C++ visits each distinct permutation once, in increasing lexicographic
    order of the names.
  - With the strict `<` both keep the first cheapest candidate they meet, so
    on ties they may return different, equally cheap routes.

## Model

| member | source | states |
|---|---|---|
| Permutations.PermutationsSound | find_route.py:48 | every sequence `permutations(required_stops)` yields is a rearrangement of the stops |
| Permutations.PermutationsComplete | find_route.py:48 | every rearrangement of the stops is yielded |
| Permutations.SingletonPermutation | find_route.py:48 | a single stop has no rearrangement but itself |
| Permutations.PermutationsCount | find_route.py:48-50 | k stops give exactly k! orders, hence k! candidates |
| Lex.StrLtIrreflexive | cpp/tps_solver.cpp:46 | no name sorts before itself |
| Lex.StrLtTransitive | cpp/tps_solver.cpp:46 | the name order used by `std::sort` is transitive |
| Lex.StrLtTotal | cpp/tps_solver.cpp:46 | any two different names are ordered one way or the other |
| Lex.SeqLtIrreflexive | cpp/tps_solver.cpp:69 | no range is lexicographically below itself |
| Lex.SeqLtTransitive | cpp/tps_solver.cpp:69 | the lexicographic order `next_permutation` follows is transitive |
| Lex.SeqLtTotal | cpp/tps_solver.cpp:69 | any two different ranges are lexicographically ordered |
| Lex.SortedIsLeast | cpp/tps_solver.cpp:46 | the sorted stops are the lexicographically least of their permutations, so the loop starts at the first |
| Lex.SortedUnique | cpp/tps_solver.cpp:46 | two sorted permutations of each other are equal: the sort has one outcome |
| Lex.NonIncreasingIsLast | cpp/tps_solver.cpp:69 | a non-increasing range has no lexicographically greater permutation, where `next_permutation` returns false |
| Lex.Successor | cpp/tps_solver.cpp:69 | swapping the pivot with the last larger element of the non-increasing tail and reversing the tail gives the immediate successor: a greater permutation with none strictly in between |
| Routes.FullPathOf | find_route.py:50 | every path of two or more names is the candidate of its first name, interior and last name |
| StdAlgorithm.Swap | cpp/tps_solver.cpp:69 | exchanges two cells and only those; the contents stay a permutation |
| StdAlgorithm.SortRange | cpp/tps_solver.cpp:46 | the range ends sorted and a permutation of what it held; cells outside it are unchanged |
| StdAlgorithm.ReverseRange | cpp/tps_solver.cpp:69 | the range ends as the reverse of what it held; cells outside it are unchanged |
| StdAlgorithm.NextPermutation | cpp/tps_solver.cpp:69 | returns true and leaves the immediate lexicographic successor, or returns false exactly when the range was the last permutation and leaves it reversed into sorted order; cells outside it are unchanged |
| StdAlgorithm.AdvanceAt | cpp/tps_solver.cpp:69 | the pivot branch of `next_permutation` leaves the successor of the range |
| StdAlgorithm.FindCeiling | cpp/tps_solver.cpp:69 | finds the last position after the pivot whose name is greater than the pivot's |
| StdAlgorithm.AdvancedIsSuccessor | cpp/tps_solver.cpp:69 | the swap followed by the reversal of the tail yields the successor and touches nothing outside the range |
| Enumeration.AdvanceStep | cpp/tps_solver.cpp:48-69 | after a true step, everything visited stays increasing, every permutation below the new one has been visited, and the set of permutations still ahead shrinks (termination) |
| Enumeration.FinalStep | cpp/tps_solver.cpp:48-69 | after the false step, every permutation of the stops has been visited |
| Enumeration.ProgressStep | cpp/tps_solver.cpp:48-69 | one turn of the do/while keeps the loop invariant in both outcomes of `next_permutation` |
| Enumeration.FirstProgress | cpp/tps_solver.cpp:42-48 | before the first turn the sorted stops have nothing below them |
| Enumeration.ExactlyOnce | cpp/tps_solver.cpp:46-69 | a complete run visits each distinct permutation exactly once: no repeats, exactly the permutations, as many as there are distinct ones |
| Enumeration.NoStops | cpp/tps_solver.cpp:48-69 | with no stops the loop runs exactly once, on the empty interior |
| TpsSolver.CostIsWeightedSum | cpp/tps_solver.cpp:25-27 | the summed per-edge costs equal `calculate_cost` of the summed distance and duration |
| TpsSolver.WalkPathMissing | cpp/tps_solver.cpp:52-62 | a walk completes iff every consecutive pair has an edge; otherwise it reports the first pair without one |
| TpsSolver.MissingPropagates | cpp/tps_solver.cpp:58-60 | once a prefix misses an edge, the whole walk fails at that same pair |
| TpsSolver.ScoreStep | cpp/tps_solver.cpp:63-68 | scoring one more candidate with the strict `<` update keeps the best-so-far facts: least cost seen, and strictly cheaper than every earlier one |
| TpsSolver.OptimalUnique | cpp/tps_solver.cpp:63-68 | the strict `<` tie-break determines the answer: two solutions meeting the optimality conditions are equal |
| TpsSolver.OptimalNoStops | cpp/tps_solver.cpp:42-71 | without stops the answer is `[start, end]` along the direct edge, with its distance, duration and cost |
| TpsSolver.MissingRulesOutOptimal | cpp/tps_solver.cpp:58-60 | if any permutation's candidate misses an edge, no solution can be returned |
| TpsSolver.FirstFailureUnique | cpp/tps_solver.cpp:58-60 | the failing permutation and the missing pair reported are determined |
| TpsSolver.ReportMissing | cpp/tps_solver.cpp:58-60 | the rethrow leaves at the first visited permutation that misses an edge; every earlier one walked |
| TpsSolver.Selection | cpp/tps_solver.cpp:63-71 | at loop exit every permutation was scored and the kept candidate is optimal |
| TpsSolver.WalkLocations | cpp/tps_solver.cpp:52-62 | the inner `for` computes the walk of the `locations` vector |
| TpsSolver.Locations | cpp/tps_solver.cpp:42-44 | the vector is the start, the required stops in order, and the end |
| TpsSolver.Score | cpp/tps_solver.cpp:49-68 | one candidate is walked; a missing edge leaves the best unchanged; a complete walk replaces the best exactly when it is strictly cheaper |
| TpsSolver.Advance | cpp/tps_solver.cpp:69 | the `while` condition keeps the first and last cell and advances the loop invariant |
| TpsSolver.SolveTsp | cpp/tps_solver.cpp:29-72 | visits the permutations in sorted increasing order; returns the optimal solution after visiting all, or fails with the first missing directed edge of the first permutation that has one |
| TpsSolver.ExampleRouteWalk | cpp/tps_solver.cpp:52-62 | on directed edges A->B, B->C (1 km, 2 min each) and A->C (5 km, 5 min), costing distance only, the candidate A, B, C walks with cost 2, 2 km, 4 min |
| TpsSolver.ExampleRouteOptimal | cpp/tps_solver.cpp:29-72 | the answer (A, B, C), 2, 2 km, 4 min meets every condition on a returned solution |
| TpsSolver.ExampleRoute | cpp/tps_solver.cpp:29-72 | from A to C through B no permutation fails, and a solution is optimal iff it is (A, B, C), 2, 2 km, 4 min (not the direct edge of cost 5) |
| TpsSolver.ExampleReversed | cpp/tps_solver.cpp:54 | the same table from C to A fails at C->B: lookups are directed |
| FindRoute.VerifyStopsInDistances | find_route.py:29-32 | reports nothing iff every stop is a key of the table; otherwise the first stop that is not |
| FindRoute.CostIsLinear | find_route.py:34-35 | the cost is additive in distance and duration and zero on zero totals |
| FindRoute.BuildGraph | find_route.py:40-46 | the nested loops produce the graph of all `add_edge` calls in table order |
| FindRoute.LastBetweenIsLast | find_route.py:40-46 | no call joining the two locations is left iff no edge exists between them; otherwise the last such call |
| FindRoute.LastBetweenSymmetric | find_route.py:40-46 | the last call joining u and v is the last joining v and u |
| FindRoute.GraphFromLookup | find_route.py:43-46 | a pair has an edge iff some call joined it, and its attributes come from the last such call |
| FindRoute.GraphSymmetric | find_route.py:40-46 | the graph is undirected: (u, v) and (v, u) are both present or both absent, with equal attributes from the last joining call |
| FindRoute.GraphFromWeightsAgree | find_route.py:43-46 | every stored `weight` equals `calculate_cost` of the stored distance and duration |
| FindRoute.MissingPropagates | find_route.py:60-61 | once a prefix misses an edge, the whole walk fails at that same pair |
| FindRoute.WalkPathMissing | find_route.py:60-61 | a walk completes iff every consecutive pair is an edge of `G`; otherwise it reports the first pair for which `G.edges` raises `KeyError` |
| FindRoute.WalkCandidate | find_route.py:57-64 | the inner loop computes the walk of a candidate, or the first pair `G.edges` lacks |
| FindRoute.WalkCost | find_route.py:57-64 | the accumulated `weight`s equal `calculate_cost` of the accumulated distance and duration |
| FindRoute.CandidateShape | find_route.py:48-50 | candidate k is the start, permutation k of the stops and the end |
| FindRoute.ScoreStep | find_route.py:65-69 | the strict `<` update keeps the least cost seen and stays strictly cheaper than every earlier candidate |
| FindRoute.SolveTsp | find_route.py:37-71 | fails with the first unknown location iff one exists; otherwise fails with the first missing edge of the first failing candidate, or returns the first cheapest candidate with its totals |
| FindRoute.SolutionShape | find_route.py:50 | the returned path runs from the start through a permutation of the stops to the end |
| FindRoute.SolutionIsOptimal | find_route.py:56-69 | every candidate walks and none costs less than the returned one |
| FindRoute.SolutionTotals | find_route.py:56-71 | the returned totals are those of the returned path, and the returned cost is `calculate_cost` of the totals |
| FindRoute.TieBreak | find_route.py:65 | the strict `<` tie-break determines the returned position and solution |
| FindRoute.SingleCandidate | find_route.py:52-71 | with a single candidate that walks, no candidate fails and the selection is exactly that candidate with its totals |
| FindRoute.NoStops | find_route.py:48-71 | without stops the only candidate is `(start, end)` and the answer is the direct edge |
| FindRoute.ExampleKeys | find_route.py:29-32 | in the example table the stop and both ends are keys |
| FindRoute.ExampleRecords | find_route.py:41-42 | the nested loops make the three `add_edge` calls in table order |
| FindRoute.ExampleGraph | find_route.py:40-46 | the example graph holds A-B and B-C with their attributes |
| FindRoute.ExampleGraphReversed | find_route.py:40-46 | it holds them the other way round too |
| FindRoute.ExamplePermutations | find_route.py:48 | one stop has one permutation |
| FindRoute.ExampleCandidates | find_route.py:50 | between any two ends through B the only candidate is (start, B, end) |
| FindRoute.ExampleRouteWalk | find_route.py:57-64 | costing distance only, the walk A-B-C costs 2 with 2 km and 4 min |
| FindRoute.ExampleReversedWalk | find_route.py:57-64 | the walk C-B-A uses the same undirected edges, with the same totals |
| FindRoute.ExampleRoute | find_route.py:37-71 | from A to C through B no candidate fails, and the selection is exactly position 0 with (A, B, C), 2, 2 km, 4 min (not the direct edge of cost 5) |
| FindRoute.ExampleReversed | find_route.py:37-71 | from C to A through B no candidate fails, and the selection is exactly (C, B, A) with the same totals, because the graph is undirected |

## Left out

- Reading the YAML distance table and configuration (`read_distances`, `read_config`, find_route.py:18-27) is file I/O. The model takes the parsed values as parameters.
- The command-line driver (find_route.py:74-130) is left out: argument parsing, timing with the clock, choosing the backend, writing the YAML result and printing. For the same reason the model leaves out the conversion of the table into the C++ map (find_route.py:89-96). A `TpsSolver.Graph` stands for its result: every row present, every destination under its row.
- The import of the compiled module and the fallback to Python (find_route.py:9-14) and the pybind11 bindings (cpp/tps_solver.cpp:76-86) are foreign-code plumbing.
- The `std::cerr` message printed before the rethrow (cpp/tps_solver.cpp:59) is output. The model keeps the pair it names in `MissingEdge`.
- The model uses reals, not IEEE doubles: no rounding, overflow, infinities or NaN among the inputs. A NaN or infinite cost, which would never pass the `<` test, is not modelled.
- The `inf` sentinel and the zero initial totals are modelled as `None`. With at least one candidate, which `permutations` always yields, they are never returned.
- Metrics missing `distance_km` or `duration_min`, and non-numeric metrics, are not modelled: the `Metrics` datatype always has both fields. Python would raise `KeyError` or `TypeError` while building the graph.
- networkx keeps a node list and node attributes. The model keeps only the edge attributes that `solve_tsp` reads.
- Running time is not modelled: both solvers enumerate k! candidates without any bound or pruning.
- The model does not claim that the two backends agree. They differ on direction and on which cheapest route a tie returns. With repeated stops Python scores k! candidates and C++ scores only the distinct ones (`Enumeration.ExactlyOnce`).
- No input validation beyond the key check exists in the code: an empty name, or a start equal to the end, is accepted and handled like any other. The model does the same.
