/** The greedy budget-constrained route builder: an open route grown from a
    fixed start point, one best-scoring affordable point at a time. */
module BudgetRoute {
  import opened Common
  import opened Distances

  /** The two budgets: total minutes and total entry cost. */
  datatype Limits = Limits(maxTime: real, maxCost: real)

  /** The figures reported for a non-empty route, with the budgets it was built under. */
  datatype Summary = Summary(popularityScore: real, timeSpent: real, costSpent: real, maxTime: real, maxCost: real)

  /** The identifier-to-position index built when the points are loaded: every
      point's identifier maps to its own position, and nothing else is indexed. */
  predicate WellIndexed(nodes: seq<Poi>, idx: map<int, nat>)
  {
    && (forall i :: 0 <= i < |nodes| ==> nodes[i].id in idx && idx[nodes[i].id] == i)
    && (forall id :: id in idx ==> idx[id] < |nodes| && nodes[idx[id]].id == id)
  }

  /** Minutes to travel from position `a` to position `b` at the configured average speed. */
  function TravelMinutes(d: seq<seq<real>>, a: nat, b: nat): real
    requires IsSquare(d) && a < |d| && b < |d|
  {
    TravelTime(d[a][b], AvgSpeedKmh).value
  }

  /** The divisor of the score, travel plus visit minutes plus one, is never zero. */
  predicate ScoreDefined(nodes: seq<Poi>, d: seq<seq<real>>)
    requires IsSquare(d) && |d| == |nodes|
  {
    forall a, b :: 0 <= a < |d| && 0 <= b < |d| ==>
      TravelMinutes(d, a, b) + nodes[b].visitMinutes + 1.0 != 0.0
  }

  /** The inputs the builder works on: a square matrix over the points on which the score is defined. */
  predicate ScorableInput(nodes: seq<Poi>, d: seq<seq<real>>)
  {
    IsSquare(d) && |d| == |nodes| && ScoreDefined(nodes, d)
  }

  /** Non-negative distances and visit durations, as the data source supplies them. */
  predicate NonNegativeData(nodes: seq<Poi>, d: seq<seq<real>>)
    requires IsSquare(d)
  {
    NonNegative(d) && forall i :: 0 <= i < |nodes| ==> 0.0 <= nodes[i].visitMinutes
  }

  /** The score of moving from `a` to `b`: popularity per minute spent, the minute added to the divisor. */
  function Score(nodes: seq<Poi>, d: seq<seq<real>>, a: nat, b: nat): real
    requires ScorableInput(nodes, d) && a < |d| && b < |d|
  {
    nodes[b].popularity / (TravelMinutes(d, a, b) + nodes[b].visitMinutes + 1.0)
  }

  /** Cumulative minutes of the route through positions `o`: every visit, plus the travel between consecutive ones. */
  function RouteTime(nodes: seq<Poi>, d: seq<seq<real>>, o: seq<nat>): real
    requires IsSquare(d) && |d| == |nodes| && InRange(|nodes|, o) && |o| >= 1
    decreases |o|
  {
    if |o| == 1 then nodes[o[0]].visitMinutes
    else RouteTime(nodes, d, o[..|o| - 1]) + (TravelMinutes(d, o[|o| - 2], o[|o| - 1]) + nodes[o[|o| - 1]].visitMinutes)
  }

  /** Cumulative entry cost of the route through positions `o`. */
  function RouteCost(nodes: seq<Poi>, o: seq<nat>): real
    requires InRange(|nodes|, o) && |o| >= 1
    decreases |o|
  {
    if |o| == 1 then nodes[o[0]].entryCost
    else RouteCost(nodes, o[..|o| - 1]) + nodes[o[|o| - 1]].entryCost
  }

  /** Cumulative popularity of the route through positions `o`. */
  function RoutePopularity(nodes: seq<Poi>, o: seq<nat>): real
    requires InRange(|nodes|, o) && |o| >= 1
    decreases |o|
  {
    if |o| == 1 then nodes[o[0]].popularity
    else RoutePopularity(nodes, o[..|o| - 1]) + nodes[o[|o| - 1]].popularity
  }

  /** The points of the route through positions `o`, in visiting order. */
  function RouteOf(nodes: seq<Poi>, o: seq<nat>): seq<Poi>
    requires InRange(|nodes|, o)
  {
    seq(|o|, k requires 0 <= k < |o| => nodes[o[k]])
  }

  /** The identifiers of the points on the route through positions `o`. */
  function Ids(nodes: seq<Poi>, o: seq<nat>): set<int>
    requires InRange(|nodes|, o)
  {
    set k | 0 <= k < |o| :: nodes[o[k]].id
  }

  /** The start point alone is within both budgets. */
  predicate StartFits(nodes: seq<Poi>, lim: Limits, s: nat)
    requires s < |nodes|
  {
    nodes[s].visitMinutes <= lim.maxTime && nodes[s].entryCost <= lim.maxCost
  }

  /** Position `j` is unvisited and appending it keeps both cumulative totals within budget. */
  predicate Fits(nodes: seq<Poi>, d: seq<seq<real>>, lim: Limits, o: seq<nat>, j: nat)
    requires ScorableInput(nodes, d) && InRange(|nodes|, o) && |o| >= 1 && j < |nodes|
  {
    && j !in o
    && RouteTime(nodes, d, o) + TravelMinutes(d, o[|o| - 1], j) + nodes[j].visitMinutes <= lim.maxTime
    && RouteCost(nodes, o) + nodes[j].entryCost <= lim.maxCost
  }

  /** Position `j` fits and beats the initial best score of -1. */
  predicate Qualifies(nodes: seq<Poi>, d: seq<seq<real>>, lim: Limits, o: seq<nat>, j: nat)
    requires ScorableInput(nodes, d) && InRange(|nodes|, o) && |o| >= 1 && j < |nodes|
  {
    Fits(nodes, d, lim, o, j) && Score(nodes, d, o[|o| - 1], j) > -1.0
  }

  /** Position `j` is the choice after route `o`: it qualifies, no qualifying
      position scores more, and every one scoring the same comes later in the list. */
  predicate IsBestCandidate(nodes: seq<Poi>, d: seq<seq<real>>, lim: Limits, o: seq<nat>, j: nat)
    requires ScorableInput(nodes, d) && InRange(|nodes|, o) && |o| >= 1
  {
    && j < |nodes| && Qualifies(nodes, d, lim, o, j)
    && forall i :: 0 <= i < |nodes| && Qualifies(nodes, d, lim, o, i) ==>
         Score(nodes, d, o[|o| - 1], i) < Score(nodes, d, o[|o| - 1], j)
         || (Score(nodes, d, o[|o| - 1], i) == Score(nodes, d, o[|o| - 1], j) && j <= i)
  }

  /** No position qualifies after route `o`. */
  predicate NoCandidate(nodes: seq<Poi>, d: seq<seq<real>>, lim: Limits, o: seq<nat>)
    requires ScorableInput(nodes, d) && InRange(|nodes|, o) && |o| >= 1
  {
    forall i :: 0 <= i < |nodes| ==> !Qualifies(nodes, d, lim, o, i)
  }

  /** `o` is a route the builder passes through: the affordable start, then each
      step the best candidate after the steps before it. */
  predicate GreedyPrefix(nodes: seq<Poi>, d: seq<seq<real>>, lim: Limits, s: nat, o: seq<nat>)
    requires ScorableInput(nodes, d) && InRange(|nodes|, o) && |o| >= 1
    decreases |o|
  {
    if |o| == 1 then o[0] == s && s < |nodes| && StartFits(nodes, lim, s)
    else GreedyPrefix(nodes, d, lim, s, o[..|o| - 1]) && IsBestCandidate(nodes, d, lim, o[..|o| - 1], o[|o| - 1])
  }

  /** `o` is the route the builder returns: a greedy prefix after which nothing qualifies. */
  predicate IsGreedyRoute(nodes: seq<Poi>, d: seq<seq<real>>, lim: Limits, s: nat, o: seq<nat>)
    requires ScorableInput(nodes, d) && InRange(|nodes|, o) && |o| >= 1
  {
    GreedyPrefix(nodes, d, lim, s, o) && NoCandidate(nodes, d, lim, o)
  }

  /** A greedy prefix starts at the start point, never repeats a position and is within both budgets. */
  lemma {:induction false} GreedyPrefixFacts(nodes: seq<Poi>, d: seq<seq<real>>, lim: Limits, s: nat, o: seq<nat>)
    requires ScorableInput(nodes, d) && InRange(|nodes|, o) && |o| >= 1
    requires GreedyPrefix(nodes, d, lim, s, o)
    ensures o[0] == s && Distinct(o)
    ensures RouteTime(nodes, d, o) <= lim.maxTime && RouteCost(nodes, o) <= lim.maxCost
    decreases |o|
  {
    if |o| > 1 {
      var p := o[..|o| - 1];
      GreedyPrefixFacts(nodes, d, lim, s, p);
      assert Fits(nodes, d, lim, p, o[|o| - 1]);
      assert forall k :: 0 <= k < |p| ==> o[k] == p[k];
    }
  }

  /** Every non-empty prefix of a greedy prefix is itself one. */
  lemma {:induction false} GreedyPrefixClosed(nodes: seq<Poi>, d: seq<seq<real>>, lim: Limits, s: nat, o: seq<nat>, k: nat)
    requires ScorableInput(nodes, d) && InRange(|nodes|, o) && 1 <= k <= |o|
    requires GreedyPrefix(nodes, d, lim, s, o)
    ensures InRange(|nodes|, o[..k]) && GreedyPrefix(nodes, d, lim, s, o[..k])
    decreases |o|
  {
    if k < |o| {
      var p := o[..|o| - 1];
      GreedyPrefixClosed(nodes, d, lim, s, p, k);
      assert p[..k] == o[..k];
    } else {
      assert o[..k] == o;
    }
  }

  /** Budget feasibility holds after every append, not only at the end. */
  lemma EveryPrefixWithinBudget(nodes: seq<Poi>, d: seq<seq<real>>, lim: Limits, s: nat, o: seq<nat>)
    requires ScorableInput(nodes, d) && InRange(|nodes|, o) && |o| >= 1
    requires GreedyPrefix(nodes, d, lim, s, o)
    ensures forall k :: 1 <= k <= |o| ==>
      InRange(|nodes|, o[..k])
      && RouteTime(nodes, d, o[..k]) <= lim.maxTime && RouteCost(nodes, o[..k]) <= lim.maxCost
  {
    forall k | 1 <= k <= |o|
      ensures InRange(|nodes|, o[..k])
      ensures RouteTime(nodes, d, o[..k]) <= lim.maxTime && RouteCost(nodes, o[..k]) <= lim.maxCost
    {
      GreedyPrefixClosed(nodes, d, lim, s, o, k);
      GreedyPrefixFacts(nodes, d, lim, s, o[..k]);
    }
  }

  /** With a well-formed index, a greedy route never repeats an identifier. */
  lemma RouteNeverRepeatsId(nodes: seq<Poi>, d: seq<seq<real>>, lim: Limits, s: nat, idx: map<int, nat>, o: seq<nat>)
    requires ScorableInput(nodes, d) && WellIndexed(nodes, idx) && InRange(|nodes|, o) && |o| >= 1
    requires GreedyPrefix(nodes, d, lim, s, o)
    ensures forall a, b :: 0 <= a < b < |o| ==> nodes[o[a]].id != nodes[o[b]].id
  {
    GreedyPrefixFacts(nodes, d, lim, s, o);
  }

  /** The choice after a route is unique: the tie-break leaves no two best candidates. */
  lemma BestCandidateUnique(nodes: seq<Poi>, d: seq<seq<real>>, lim: Limits, o: seq<nat>, j1: nat, j2: nat)
    requires ScorableInput(nodes, d) && InRange(|nodes|, o) && |o| >= 1
    requires IsBestCandidate(nodes, d, lim, o, j1) && IsBestCandidate(nodes, d, lim, o, j2)
    ensures j1 == j2
  {
    assert Qualifies(nodes, d, lim, o, j1) && Qualifies(nodes, d, lim, o, j2);
  }

  /** Each step of a greedy prefix is the best candidate after the steps before it. */
  lemma GreedyPrefixStep(nodes: seq<Poi>, d: seq<seq<real>>, lim: Limits, s: nat, o: seq<nat>, k: nat)
    requires ScorableInput(nodes, d) && InRange(|nodes|, o) && 1 <= k < |o|
    requires GreedyPrefix(nodes, d, lim, s, o)
    ensures InRange(|nodes|, o[..k]) && IsBestCandidate(nodes, d, lim, o[..k], o[k])
  {
    GreedyPrefixClosed(nodes, d, lim, s, o, k + 1);
    var q := o[..k + 1];
    assert q[..k] == o[..k];
  }

  /** Two greedy prefixes agree on their first `k` steps. */
  lemma {:induction false} GreedyPrefixesAgree(nodes: seq<Poi>, d: seq<seq<real>>, lim: Limits, s: nat, o1: seq<nat>, o2: seq<nat>, k: nat)
    requires ScorableInput(nodes, d) && InRange(|nodes|, o1) && InRange(|nodes|, o2)
    requires 1 <= k <= |o1| && k <= |o2|
    requires GreedyPrefix(nodes, d, lim, s, o1) && GreedyPrefix(nodes, d, lim, s, o2)
    ensures o1[..k] == o2[..k]
    decreases k
  {
    if k == 1 {
      GreedyPrefixFacts(nodes, d, lim, s, o1);
      GreedyPrefixFacts(nodes, d, lim, s, o2);
    } else {
      GreedyPrefixesAgree(nodes, d, lim, s, o1, o2, k - 1);
      SameChoiceExtends(nodes, d, lim, s, o1, o2, k);
    }
  }

  /** Greedy prefixes agreeing on `k - 1` steps agree on `k`: both continue with the same best candidate. */
  lemma SameChoiceExtends(nodes: seq<Poi>, d: seq<seq<real>>, lim: Limits, s: nat, o1: seq<nat>, o2: seq<nat>, k: nat)
    requires ScorableInput(nodes, d) && InRange(|nodes|, o1) && InRange(|nodes|, o2)
    requires 2 <= k <= |o1| && k <= |o2| && o1[..k - 1] == o2[..k - 1]
    requires GreedyPrefix(nodes, d, lim, s, o1) && GreedyPrefix(nodes, d, lim, s, o2)
    ensures o1[..k] == o2[..k]
  {
    SameNextChoice(nodes, d, lim, s, o1, o2, k - 1);
    PrefixSnoc(o1, k);
    PrefixSnoc(o2, k);
  }

  lemma SameNextChoice(nodes: seq<Poi>, d: seq<seq<real>>, lim: Limits, s: nat, o1: seq<nat>, o2: seq<nat>, k: nat)
    requires ScorableInput(nodes, d) && InRange(|nodes|, o1) && InRange(|nodes|, o2)
    requires 1 <= k < |o1| && k < |o2| && o1[..k] == o2[..k]
    requires GreedyPrefix(nodes, d, lim, s, o1) && GreedyPrefix(nodes, d, lim, s, o2)
    ensures o1[k] == o2[k]
  {
    GreedyPrefixStep(nodes, d, lim, s, o1, k);
    GreedyPrefixStep(nodes, d, lim, s, o2, k);
    BestCandidateUnique(nodes, d, lim, o1[..k], o1[k], o2[k]);
  }

  lemma PrefixSnoc(o: seq<nat>, k: nat)
    requires 1 <= k <= |o|
    ensures o[..k] == o[..k - 1] + [o[k - 1]]
  {
  }

  /** A greedy prefix strictly shorter than another still has a qualifying candidate. */
  lemma ShorterPrefixHasCandidate(nodes: seq<Poi>, d: seq<seq<real>>, lim: Limits, s: nat, o1: seq<nat>, o2: seq<nat>)
    requires ScorableInput(nodes, d) && InRange(|nodes|, o1) && InRange(|nodes|, o2) && 1 <= |o1| < |o2|
    requires GreedyPrefix(nodes, d, lim, s, o1) && GreedyPrefix(nodes, d, lim, s, o2)
    ensures !NoCandidate(nodes, d, lim, o1)
  {
    var k := |o1|;
    GreedyPrefixesAgree(nodes, d, lim, s, o1, o2, k);
    GreedyPrefixStep(nodes, d, lim, s, o2, k);
    assert o1 == o1[..k] == o2[..k];
    assert Qualifies(nodes, d, lim, o1, o2[k]);
  }

  /** The greedy route is determined by its inputs: two routes satisfying its
      definition are the same route. */
  lemma GreedyRouteUnique(nodes: seq<Poi>, d: seq<seq<real>>, lim: Limits, s: nat, o1: seq<nat>, o2: seq<nat>)
    requires ScorableInput(nodes, d) && InRange(|nodes|, o1) && InRange(|nodes|, o2) && |o1| >= 1 && |o2| >= 1
    requires IsGreedyRoute(nodes, d, lim, s, o1) && IsGreedyRoute(nodes, d, lim, s, o2)
    ensures o1 == o2
  {
    if |o1| < |o2| {
      ShorterPrefixHasCandidate(nodes, d, lim, s, o1, o2);
    } else if |o2| < |o1| {
      ShorterPrefixHasCandidate(nodes, d, lim, s, o2, o1);
    } else {
      GreedyPrefixesAgree(nodes, d, lim, s, o1, o2, |o1|);
      assert o1 == o1[..|o1|] && o2 == o2[..|o2|];
    }
  }

  /** With non-negative data and popularity, the builder stops only when no
      unvisited point fits the remaining budget. */
  lemma StopsOnlyWhenNothingFits(nodes: seq<Poi>, d: seq<seq<real>>, lim: Limits, s: nat, o: seq<nat>)
    requires ScorableInput(nodes, d) && NonNegativeData(nodes, d) && InRange(|nodes|, o) && |o| >= 1
    requires forall i :: 0 <= i < |nodes| ==> 0.0 <= nodes[i].popularity
    requires IsGreedyRoute(nodes, d, lim, s, o)
    ensures forall j :: 0 <= j < |nodes| && j !in o ==> !Fits(nodes, d, lim, o, j)
  {
    var last := o[|o| - 1];
    forall j | 0 <= j < |nodes| && j !in o
      ensures !Fits(nodes, d, lim, o, j)
    {
      assert !Qualifies(nodes, d, lim, o, j);
      assert 0.0 <= d[last][j];
      assert 0.0 <= TravelMinutes(d, last, j);
      var den := TravelMinutes(d, last, j) + nodes[j].visitMinutes + 1.0;
      assert 1.0 <= den;
      DivNonNegative(nodes[j].popularity, den);
      assert 0.0 <= Score(nodes, d, last, j);
    }
  }

  lemma DivNonNegative(a: real, b: real)
    requires 0.0 <= a && 0.0 < b
    ensures 0.0 <= a / b
  {
  }

  /** Non-negative data always has a defined score. */
  lemma NonNegativeScoreDefined(nodes: seq<Poi>, d: seq<seq<real>>)
    requires IsSquare(d) && |d| == |nodes| && NonNegativeData(nodes, d)
    ensures ScoreDefined(nodes, d)
  {
    forall a, b | 0 <= a < |d| && 0 <= b < |d|
      ensures TravelMinutes(d, a, b) + nodes[b].visitMinutes + 1.0 != 0.0
    {
      assert 0.0 <= TravelMinutes(d, a, b);
    }
  }

  /** Appending position `j` adds its travel and visit minutes, its entry cost and its popularity. */
  lemma RouteAppend(nodes: seq<Poi>, d: seq<seq<real>>, o: seq<nat>, j: nat)
    requires IsSquare(d) && |d| == |nodes| && InRange(|nodes|, o) && |o| >= 1 && j < |nodes|
    ensures InRange(|nodes|, o + [j])
    ensures RouteTime(nodes, d, o + [j]) == RouteTime(nodes, d, o) + (TravelMinutes(d, o[|o| - 1], j) + nodes[j].visitMinutes)
    ensures RouteCost(nodes, o + [j]) == RouteCost(nodes, o) + nodes[j].entryCost
    ensures RoutePopularity(nodes, o + [j]) == RoutePopularity(nodes, o) + nodes[j].popularity
  {
    var q := o + [j];
    assert q[..|q| - 1] == o;
    assert q[|q| - 2] == o[|o| - 1] && q[|q| - 1] == j;
    RouteTimeAppend(nodes, d, o, q);
    RouteSumsAppend(nodes, o, q);
  }

  lemma RouteTimeAppend(nodes: seq<Poi>, d: seq<seq<real>>, o: seq<nat>, q: seq<nat>)
    requires IsSquare(d) && |d| == |nodes| && InRange(|nodes|, q) && |q| >= 2 && o == q[..|q| - 1]
    ensures RouteTime(nodes, d, q) == RouteTime(nodes, d, o) + (TravelMinutes(d, o[|o| - 1], q[|q| - 1]) + nodes[q[|q| - 1]].visitMinutes)
  {
    assert q[|q| - 2] == o[|o| - 1];
  }

  lemma RouteSumsAppend(nodes: seq<Poi>, o: seq<nat>, q: seq<nat>)
    requires InRange(|nodes|, q) && |q| >= 2 && o == q[..|q| - 1]
    ensures RouteCost(nodes, q) == RouteCost(nodes, o) + nodes[q[|q| - 1]].entryCost
    ensures RoutePopularity(nodes, q) == RoutePopularity(nodes, o) + nodes[q[|q| - 1]].popularity
  {
  }

  /** Appending position `j` appends its point to the route and its identifier to the visited set. */
  lemma RoutePointsAppend(nodes: seq<Poi>, o: seq<nat>, j: nat)
    requires InRange(|nodes|, o) && j < |nodes|
    ensures InRange(|nodes|, o + [j])
    ensures RouteOf(nodes, o + [j]) == RouteOf(nodes, o) + [nodes[j]]
    ensures Ids(nodes, o + [j]) == Ids(nodes, o) + {nodes[j].id}
  {
    var q := o + [j];
    assert RouteOf(nodes, q) == RouteOf(nodes, o) + [nodes[j]];
    forall x | x in Ids(nodes, q)
      ensures x in Ids(nodes, o) + {nodes[j].id}
    {
      var k :| 0 <= k < |q| && nodes[q[k]].id == x;
      if k < |o| {
        assert nodes[o[k]].id == x;
      }
    }
    forall x | x in Ids(nodes, o) + {nodes[j].id}
      ensures x in Ids(nodes, q)
    {
      if x in Ids(nodes, o) {
        var k :| 0 <= k < |o| && nodes[o[k]].id == x;
        assert nodes[q[k]].id == x;
      } else {
        assert nodes[q[|o|]].id == x;
      }
    }
  }

  /** With a well-formed index, a point is visited by identifier exactly when it is visited by position. */
  lemma IdVisited(nodes: seq<Poi>, idx: map<int, nat>, o: seq<nat>, i: nat)
    requires WellIndexed(nodes, idx) && InRange(|nodes|, o) && i < |nodes|
    ensures nodes[i].id in Ids(nodes, o) <==> i in o
  {
    if nodes[i].id in Ids(nodes, o) {
      var k :| 0 <= k < |o| && nodes[o[k]].id == nodes[i].id;
      assert idx[nodes[o[k]].id] == o[k];
    }
    if i in o {
      var k :| 0 <= k < |o| && o[k] == i;
      assert nodes[o[k]].id in Ids(nodes, o);
    }
  }

  /** The candidate scan: over every point in list order, the unvisited ones
      that fit both budgets are scored, and a score replaces the best so far
      (initially -1, no candidate) only when strictly greater. */
  method SelectCandidate(
    allNodes: seq<Poi>, distMatrixFull: seq<seq<real>>, idToIndex: map<int, nat>, lim: Limits,
    visitedIds: set<int>, lastNodeIdx: nat, routeTime: real, routeCost: real, ghost o: seq<nat>)
    returns (bestCandidate: Option<nat>)
    requires ScorableInput(allNodes, distMatrixFull) && WellIndexed(allNodes, idToIndex)
    requires InRange(|allNodes|, o) && |o| >= 1 && lastNodeIdx == o[|o| - 1]
    requires visitedIds == Ids(allNodes, o)
    requires routeTime == RouteTime(allNodes, distMatrixFull, o) && routeCost == RouteCost(allNodes, o)
    ensures bestCandidate.None? ==> NoCandidate(allNodes, distMatrixFull, lim, o)
    ensures bestCandidate.Some? ==> IsBestCandidate(allNodes, distMatrixFull, lim, o, bestCandidate.value)
  {
    var bestScore: real := -1.0;
    bestCandidate := None;
    for i := 0 to |allNodes|
      invariant bestCandidate.None? ==>
        bestScore == -1.0 && forall k :: 0 <= k < i ==> !Qualifies(allNodes, distMatrixFull, lim, o, k)
      invariant bestCandidate.Some? ==>
        && bestCandidate.value < i && Qualifies(allNodes, distMatrixFull, lim, o, bestCandidate.value)
        && bestScore == Score(allNodes, distMatrixFull, lastNodeIdx, bestCandidate.value)
        && forall k :: 0 <= k < i && Qualifies(allNodes, distMatrixFull, lim, o, k) ==>
             Score(allNodes, distMatrixFull, lastNodeIdx, k) < bestScore
             || (Score(allNodes, distMatrixFull, lastNodeIdx, k) == bestScore && bestCandidate.value <= k)
    {
      var candidateNode := allNodes[i];
      IdVisited(allNodes, idToIndex, o, i);
      if candidateNode.id !in visitedIds {
        var candidateIdx := idToIndex[candidateNode.id];
        var travelDist := distMatrixFull[lastNodeIdx][candidateIdx];
        var travelTime := TravelTime(travelDist, AvgSpeedKmh).value;
        var visitTime := candidateNode.visitMinutes;
        var visitCost := candidateNode.entryCost;
        var timeIfAdded := routeTime + travelTime + visitTime;
        var costIfAdded := routeCost + visitCost;
        if timeIfAdded <= lim.maxTime && costIfAdded <= lim.maxCost {
          var timeCost := travelTime + visitTime + 1.0;
          var score := candidateNode.popularity / timeCost;
          assert score == Score(allNodes, distMatrixFull, lastNodeIdx, i);
          if score > bestScore {
            bestScore := score;
            bestCandidate := Some(i);
          }
        }
      }
    }
  }

  /** The builder's loop state describes the greedy prefix `o`: its points,
      their identifiers and its three running totals. */
  ghost predicate Tracks(
    nodes: seq<Poi>, d: seq<seq<real>>, lim: Limits, s: nat, o: seq<nat>,
    route: seq<Poi>, visitedIds: set<int>, time: real, cost: real, popularity: real)
    requires ScorableInput(nodes, d)
  {
    && InRange(|nodes|, o) && 1 <= |o| <= |nodes|
    && GreedyPrefix(nodes, d, lim, s, o)
    && route == RouteOf(nodes, o) && visitedIds == Ids(nodes, o)
    && time == RouteTime(nodes, d, o) && cost == RouteCost(nodes, o) && popularity == RoutePopularity(nodes, o)
  }

  /** Appending the best candidate `j` and adding its totals keeps the state in step with the longer prefix. */
  lemma TracksStep(
    nodes: seq<Poi>, d: seq<seq<real>>, lim: Limits, s: nat, o: seq<nat>,
    route: seq<Poi>, visitedIds: set<int>, time: real, cost: real, popularity: real, j: nat)
    requires ScorableInput(nodes, d) && Tracks(nodes, d, lim, s, o, route, visitedIds, time, cost, popularity)
    requires IsBestCandidate(nodes, d, lim, o, j)
    ensures Tracks(nodes, d, lim, s, o + [j], route + [nodes[j]], visitedIds + {nodes[j].id},
                   time + (TravelMinutes(d, o[|o| - 1], j) + nodes[j].visitMinutes),
                   cost + nodes[j].entryCost, popularity + nodes[j].popularity)
  {
    var q := o + [j];
    RouteAppend(nodes, d, o, j);
    RoutePointsAppend(nodes, o, j);
    assert q[..|o|] == o;
    GreedyPrefixFacts(nodes, d, lim, s, q);
    DistinctBound(|nodes|, q);
  }

  /** Builds the route from `startNodeId`: an unknown start or a start beyond
      either budget gives an empty route and no summary; otherwise the start is
      taken and the best candidate appended until none qualifies. */
  method SolveBudgetRoute(
    allNodes: seq<Poi>, distMatrixFull: seq<seq<real>>, idToIndex: map<int, nat>,
    maxTimeMin: real, maxCost: real, startNodeId: int)
    returns (route: seq<Poi>, summary: Option<Summary>)
    requires ScorableInput(allNodes, distMatrixFull) && WellIndexed(allNodes, idToIndex)
    ensures startNodeId !in idToIndex ==> route == [] && summary.None?
    ensures startNodeId in idToIndex && !StartFits(allNodes, Limits(maxTimeMin, maxCost), idToIndex[startNodeId]) ==>
      route == [] && summary.None?
    ensures startNodeId in idToIndex && StartFits(allNodes, Limits(maxTimeMin, maxCost), idToIndex[startNodeId]) ==>
      exists o ::
        && InRange(|allNodes|, o) && |o| >= 1
        && IsGreedyRoute(allNodes, distMatrixFull, Limits(maxTimeMin, maxCost), idToIndex[startNodeId], o)
        && route == RouteOf(allNodes, o)
        && summary == Some(Summary(RoutePopularity(allNodes, o), RouteTime(allNodes, distMatrixFull, o),
                                   RouteCost(allNodes, o), maxTimeMin, maxCost))
  {
    var lim := Limits(maxTimeMin, maxCost);
    if startNodeId !in idToIndex {
      return [], None;
    }
    var currentNodeIdx := idToIndex[startNodeId];
    var startNodeData := allNodes[currentNodeIdx];
    if !(startNodeData.visitMinutes <= maxTimeMin && startNodeData.entryCost <= maxCost) {
      return [], None;
    }
    route := [startNodeData];
    var routeCost := startNodeData.entryCost;
    var routeTime := startNodeData.visitMinutes;
    var routePopularity := startNodeData.popularity;
    var visitedIds := {startNodeId};
    ghost var o := [currentNodeIdx];
    assert RouteOf(allNodes, o) == route;
    assert Ids(allNodes, o) == visitedIds by {
      assert allNodes[o[0]].id == startNodeId;
    }

    while true
      invariant Tracks(allNodes, distMatrixFull, lim, currentNodeIdx, o, route, visitedIds, routeTime, routeCost, routePopularity)
      decreases |allNodes| - |o|
    {
      var lastNodeIdx := idToIndex[route[|route| - 1].id];
      assert lastNodeIdx == o[|o| - 1];
      var bestCandidate := SelectCandidate(allNodes, distMatrixFull, idToIndex, lim,
                                           visitedIds, lastNodeIdx, routeTime, routeCost, o);
      if bestCandidate.Some? {
        var best := allNodes[bestCandidate.value];
        var candidateIdx := idToIndex[best.id];
        assert candidateIdx == bestCandidate.value;
        var travelDist := distMatrixFull[lastNodeIdx][candidateIdx];
        var travelTime := TravelTime(travelDist, AvgSpeedKmh).value;
        TracksStep(allNodes, distMatrixFull, lim, currentNodeIdx, o, route, visitedIds,
                   routeTime, routeCost, routePopularity, candidateIdx);
        routeTime := routeTime + (travelTime + best.visitMinutes);
        routeCost := routeCost + best.entryCost;
        routePopularity := routePopularity + best.popularity;
        visitedIds := visitedIds + {best.id};
        route := route + [best];
        o := o + [candidateIdx];
      } else {
        break;
      }
    }
    summary := Some(Summary(routePopularity, routeTime, routeCost, maxTimeMin, maxCost));
  }
}
