/** One TSP experiment: the distance matrix of the chosen points, the
    nearest-neighbour bound that seeds the incumbent, then the exact search. */
module Experiment {
  import opened Common
  import opened Distances
  import opened Tours
  import opened NearestNeighbour
  import opened BranchAndBound

  /** The metrics an experiment reports: the search's snapshot plus the cost
      of the heuristic tour that seeded it. */
  datatype TspResult = TspResult(cost: ExtReal, path: seq<nat>, nodes: nat, pruned: nat, heuristicCost: real)

  /** What a finished experiment guarantees about its result over the matrix `d`. */
  ghost predicate Solved(d: seq<seq<real>>, r: TspResult)
    requires IsSquare(d) && |d| >= 1
  {
    // the reported route is a closed tour from position 0 costing exactly the reported cost
    && r.cost.Finite? && IsTour(|d|, r.path) && r.cost.value == PathCost(d, r.path)
    // it is the nearest-neighbour tour itself, or strictly cheaper than it
    && (exists h :: IsNearestNeighbourTour(d, h) && PathCost(d, h) == r.heuristicCost
          && (r.path == h || r.cost.value < r.heuristicCost))
    // at least the root is expanded, and no more than the nodes of the search tree
    && 1 <= r.nodes <= Fan(|d|, |d| - 1)
    // every expansion prunes at most the n - 1 successors other than position 0
    && r.pruned <= r.nodes * (|d| - 1)
  }

  /** Runs one experiment on `nodesData`, with great-circle distance supplied as
      `haversine`. Fewer than two points is refused with `None`. */
  method RunTspExperiment(nodesData: seq<Poi>, haversine: (Poi, Poi) -> real)
    returns (result: Option<TspResult>)
    ensures result.None? <==> |nodesData| < 2
    ensures result.Some? ==> Solved(DistanceMatrix(nodesData, haversine), result.value)
    ensures result.Some? && NonNegative(DistanceMatrix(nodesData, haversine)) ==>
      forall c :: IsTour(|nodesData|, c) ==>
        result.value.cost.value <= PathCost(DistanceMatrix(nodesData, haversine), c)
  {
    if |nodesData| < 2 {
      return None;
    }
    var m := CalculateDistanceMatrix(nodesData, haversine);
    var distMatrix := Rows(m);
    var r := SolveOnMatrix(distMatrix);
    result := Some(r);
  }

  /** The experiment once the matrix is built: seed the incumbent with the
      nearest-neighbour tour, run the exact search from fresh counters, and
      report its results with the heuristic cost. */
  method SolveOnMatrix(distMatrix: seq<seq<real>>) returns (r: TspResult)
    requires IsSquare(distMatrix) && |distMatrix| >= 1
    ensures Solved(distMatrix, r)
    ensures NonNegative(distMatrix) ==>
      forall c :: IsTour(|distMatrix|, c) ==> r.cost.value <= PathCost(distMatrix, c)
  {
    var stats := new BnBStats();
    var heuristicCost, heuristicPath := HeuristicUpperBound(distMatrix);
    stats.upperBound := Finite(heuristicCost);
    stats.bestPath := heuristicPath;
    ghost var nodes0, pruned0 := stats.nodesExpanded, stats.pruningCount;
    SolveBranchAndBound(distMatrix, stats);
    FromZero(stats.pruningCount, pruned0, stats.nodesExpanded, nodes0, |distMatrix| - 1);
    var results := stats.GetResults();
    r := TspResult(results.cost, results.path, results.nodes, results.pruned, heuristicCost);
    ReportSolved(distMatrix, r, heuristicPath);
  }

  /** Growth bounded by `f` per step, counted from zero, is bounded by `f` per step overall. */
  lemma FromZero(p: int, p0: int, e: int, e0: int, f: int)
    requires p0 == 0 && e0 == 0 && p - p0 <= (e - e0) * f
    ensures p <= e * f
  {
  }

  /** The search's guarantees, started from the heuristic tour with fresh
      counters, make up a solved experiment. */
  lemma ReportSolved(d: seq<seq<real>>, r: TspResult, h: seq<nat>)
    requires IsSquare(d) && |d| >= 1
    requires IsNearestNeighbourTour(d, h) && r.heuristicCost == PathCost(d, h)
    requires Incumbent(d, r.cost, r.path)
    requires (r.cost == Finite(r.heuristicCost) && r.path == h) || Less(r.cost, Finite(r.heuristicCost))
    requires 1 <= r.nodes <= Fan(|d|, |d| - 1) && r.pruned <= r.nodes * (|d| - 1)
    ensures Solved(d, r)
  {
  }
}
