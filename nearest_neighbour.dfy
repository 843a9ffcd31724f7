/** The nearest-neighbour tour that seeds the exact solver's upper bound. */
module NearestNeighbour {
  import opened Common
  import opened Tours

  /** `j` is the position the nearest-neighbour rule picks after `last` when
      `visited` is already taken: unvisited, no unvisited position strictly
      closer, and every lower unvisited position strictly farther. */
  predicate IsNearest(d: seq<seq<real>>, last: nat, visited: set<nat>, j: nat)
    requires IsSquare(d) && last < |d|
  {
    && j < |d| && j !in visited
    && (forall m: nat :: m < |d| && m !in visited ==> d[last][j] <= d[last][m])
    && (forall m: nat :: m < j && m !in visited ==> d[last][j] < d[last][m])
  }

  /** A closed tour in which every step follows the nearest-neighbour rule. */
  predicate IsNearestNeighbourTour(d: seq<seq<real>>, c: seq<nat>)
    requires IsSquare(d)
  {
    IsTour(|d|, c) && GreedySteps(d, c, |d|)
  }

  /** Every step from position 1 up to `upTo` follows the nearest-neighbour rule. */
  predicate GreedySteps(d: seq<seq<real>>, path: seq<nat>, upTo: nat)
    requires IsSquare(d) && InRange(|d|, path) && upTo <= |path|
  {
    forall k {:trigger IsNearest(d, path[k - 1], Elems(path[..k]), path[k])} ::
      1 <= k < upTo ==> IsNearest(d, path[k - 1], Elems(path[..k]), path[k])
  }

  /** Appending the nearest unvisited position keeps the path repetition-free and greedy. */
  lemma GreedyStepsExtend(d: seq<seq<real>>, path: seq<nat>, x: nat)
    requires IsSquare(d) && InRange(|d|, path) && |path| >= 1 && Distinct(path)
    requires GreedySteps(d, path, |path|)
    requires IsNearest(d, path[|path| - 1], Elems(path), x)
    ensures InRange(|d|, path + [x]) && Distinct(path + [x])
    ensures GreedySteps(d, path + [x], |path| + 1)
    ensures Elems(path + [x]) == Elems(path) + {x}
  {
    var q := path + [x];
    assert q[..|path|] == path;
    forall k | 1 <= k < |q|
      ensures IsNearest(d, q[k - 1], Elems(q[..k]), q[k])
    {
      if k < |path| {
        assert q[..k] == path[..k];
      }
    }
  }

  /** Closing the path back to 0 leaves its greedy steps untouched. */
  lemma GreedyStepsClose(d: seq<seq<real>>, path: seq<nat>)
    requires IsSquare(d) && InRange(|d|, path) && |path| == |d| && |d| >= 1
    requires GreedySteps(d, path, |path|)
    ensures InRange(|d|, path + [0]) && GreedySteps(d, path + [0], |d|)
  {
    var q := path + [0];
    forall k | 1 <= k < |d|
      ensures IsNearest(d, q[k - 1], Elems(q[..k]), q[k])
    {
      assert q[..k] == path[..k];
    }
  }

  /** Scans positions in ascending order and keeps the first strictly closer
      unvisited one; -1 and an infinite minimum when every position is visited. */
  method NearestUnvisited(d: seq<seq<real>>, last: nat, visited: set<nat>)
    returns (nearest: int, minDist: ExtReal)
    requires IsSquare(d) && last < |d|
    ensures nearest == -1 <==> forall j: nat :: j < |d| ==> j in visited
    ensures nearest == -1 ==> minDist == Infinity
    ensures nearest != -1 ==>
      0 <= nearest && IsNearest(d, last, visited, nearest) && minDist == Finite(d[last][nearest])
  {
    var n := |d|;
    nearest := -1;
    minDist := Infinity;
    for neighbor := 0 to n
      invariant nearest == -1 <==> forall j: nat :: j < neighbor ==> j in visited
      invariant nearest == -1 ==> minDist == Infinity
      invariant nearest != -1 ==>
        && 0 <= nearest < neighbor && nearest !in visited
        && minDist == Finite(d[last][nearest])
        && (forall m: nat :: m < neighbor && m !in visited ==> d[last][nearest] <= d[last][m])
        && (forall m: nat :: m < nearest && m !in visited ==> d[last][nearest] < d[last][m])
    {
      if neighbor !in visited {
        if Less(Finite(d[last][neighbor]), minDist) {
          minDist := Finite(d[last][neighbor]);
          nearest := neighbor;
        }
      }
    }
  }

  /** What the greedy loop keeps: a repetition-free path from 0, greedy at
      every step, whose running cost is `cost`. */
  ghost predicate GreedyPath(d: seq<seq<real>>, path: seq<nat>, cost: real)
    requires IsSquare(d)
  {
    && 1 <= |path| <= |d| && path[0] == 0 && InRange(|d|, path) && Distinct(path)
    && cost == PathCost(d, path) && GreedySteps(d, path, |path|)
  }

  /** Moving to the nearest unvisited position keeps the loop's invariant. */
  lemma GreedyPathStep(d: seq<seq<real>>, path: seq<nat>, cost: real, visited: set<nat>, x: nat)
    requires IsSquare(d) && GreedyPath(d, path, cost)
    requires visited == Elems(path) && |visited| == |path|
    requires IsNearest(d, path[|path| - 1], visited, x)
    ensures GreedyPath(d, path + [x], cost + d[path[|path| - 1]][x])
    ensures visited + {x} == Elems(path + [x]) && |visited + {x}| == |path| + 1
  {
    PathCostAppend(d, path, x);
    GreedyStepsExtend(d, path, x);
    DistinctBound(|d|, path + [x]);
  }

  /** When no unvisited position is left, the path holds every position. */
  lemma GreedyPathFull(d: seq<seq<real>>, path: seq<nat>, cost: real, visited: set<nat>)
    requires IsSquare(d) && GreedyPath(d, path, cost) && visited == Elems(path)
    requires forall j: nat :: j < |d| ==> j in visited
    ensures |path| == |d|
  {
    forall j: nat | j < |d|
      ensures j in path
    {
      assert j in visited;
    }
    PathCoversAll(|d|, path);
  }

  /** Returning to 0 from a full greedy path completes a nearest-neighbour tour. */
  lemma GreedyPathClose(d: seq<seq<real>>, path: seq<nat>, cost: real)
    requires IsSquare(d) && GreedyPath(d, path, cost) && |path| == |d|
    ensures IsNearestNeighbourTour(d, path + [0])
    ensures cost + d[path[|path| - 1]][0] == PathCost(d, path + [0])
  {
    PathCostAppend(d, path, 0);
    GreedyStepsClose(d, path);
    assert (path + [0])[..|d|] == path;
  }

  /** The final step of the heuristic: add the return leg to 0 to the full path and its cost. */
  method CloseGreedyTour(d: seq<seq<real>>, path: seq<nat>, cost: real) returns (totalCost: real, tour: seq<nat>)
    requires IsSquare(d) && GreedyPath(d, path, cost) && |path| == |d|
    ensures IsNearestNeighbourTour(d, tour)
    ensures totalCost == PathCost(d, tour)
  {
    GreedyPathClose(d, path, cost);
    totalCost := cost + d[path[|path| - 1]][0];
    tour := path + [0];
  }

  /** Greedy tour from position 0: repeatedly move to the nearest unvisited
      position, then close the tour back to 0. Returns its cost and the tour. */
  method HeuristicUpperBound(d: seq<seq<real>>) returns (totalCost: real, path: seq<nat>)
    requires IsSquare(d) && |d| >= 1
    ensures IsNearestNeighbourTour(d, path)
    ensures totalCost == PathCost(d, path)
  {
    var n := |d|;
    var currentNode := 0;
    path := [currentNode];
    var visited: set<nat> := {currentNode};
    totalCost := 0.0;
    while |visited| < n
      invariant GreedyPath(d, path, totalCost)
      invariant visited == Elems(path) && |visited| == |path|
      decreases n - |visited|
    {
      var lastNode := path[|path| - 1];
      var nearest, minDist := NearestUnvisited(d, lastNode, visited);
      if nearest != -1 {
        GreedyPathStep(d, path, totalCost, visited, nearest);
        totalCost := totalCost + minDist.value;
        path := path + [nearest];
        visited := visited + {nearest};
      } else {
        GreedyPathFull(d, path, totalCost, visited);
        break;
      }
    }
    assert |path| == n;
    totalCost, path := CloseGreedyTour(d, path, totalCost);
  }
}
