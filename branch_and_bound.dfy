/** The exact Branch-and-Bound TSP solver: an iterative depth-first search over
    an explicit LIFO stack of partial paths, pruned against a mutable incumbent. */
module BranchAndBound {
  import opened Common
  import opened Distances
  import opened Tours
  import opened NearestNeighbour

  /** A search state: a partial path from position 0 and its accumulated cost. */
  datatype State = State(path: seq<nat>, cost: real)

  /** The snapshot of the search statistics read once the search is over. */
  datatype SearchResults = SearchResults(cost: ExtReal, path: seq<nat>, nodes: nat, pruned: nat)

  /** Counters and incumbent that the search updates in place. */
  class BnBStats {
    var upperBound: ExtReal
    var bestPath: seq<nat>
    var nodesExpanded: nat
    var pruningCount: nat

    constructor ()
      ensures upperBound == Infinity && bestPath == []
      ensures nodesExpanded == 0 && pruningCount == 0
    {
      upperBound := Infinity;
      bestPath := [];
      nodesExpanded := 0;
      pruningCount := 0;
    }

    method Reset()
      modifies this
      ensures upperBound == Infinity && bestPath == []
      ensures nodesExpanded == 0 && pruningCount == 0
    {
      upperBound := Infinity;
      bestPath := [];
      nodesExpanded := 0;
      pruningCount := 0;
    }

    /** The metrics of a finished search: the bound as the tour cost, the
        incumbent path and both counters. */
    function GetResults(): (r: SearchResults)
      reads this
      ensures r.cost == upperBound && r.path == bestPath
      ensures r.nodes == nodesExpanded && r.pruned == pruningCount
    {
      SearchResults(upperBound, bestPath, nodesExpanded, pruningCount)
    }
  }

  /** A well-formed search state: a repetition-free path from 0 whose recorded
      cost is the sum of its edges. */
  ghost predicate ValidState(d: seq<seq<real>>, s: State)
    requires IsSquare(d)
  {
    && 1 <= |s.path| <= |d| && s.path[0] == 0
    && InRange(|d|, s.path) && Distinct(s.path)
    && s.cost == PathCost(d, s.path)
  }

  /** Every state on the stack is well-formed. */
  ghost predicate ValidStack(d: seq<seq<real>>, stack: seq<State>)
    requires IsSquare(d)
  {
    stack == [] || (ValidStack(d, stack[..|stack| - 1]) && ValidState(d, stack[|stack| - 1]))
  }

  lemma ValidStackPush(d: seq<seq<real>>, stack: seq<State>, s: State)
    requires IsSquare(d)
    ensures ValidStack(d, stack + [s]) <==> ValidStack(d, stack) && ValidState(d, s)
  {
    assert (stack + [s])[..|stack|] == stack;
  }

  /** The incumbent: no bound yet, or a closed tour costing exactly the bound. */
  ghost predicate Incumbent(d: seq<seq<real>>, ub: ExtReal, best: seq<nat>)
    requires IsSquare(d)
  {
    ub.Infinity? || (IsTour(|d|, best) && ub.value == PathCost(d, best))
  }

  /** The Hamiltonian order `t` is accounted for: its closed tour is no cheaper
      than the bound, or some state on the stack is a prefix of it. */
  ghost predicate Covered(d: seq<seq<real>>, stack: seq<State>, ub: ExtReal, t: seq<nat>)
    requires IsSquare(d) && IsHamiltonianOrder(|d|, t)
  {
    assert InRange(|d|, t + [0]);
    || AtMost(ub, Finite(PathCost(d, t + [0])))
    || exists i :: 0 <= i < |stack| && stack[i].path <= t
  }

  ghost predicate AllCovered(d: seq<seq<real>>, stack: seq<State>, ub: ExtReal)
    requires IsSquare(d)
  {
    forall t :: IsHamiltonianOrder(|d|, t) ==> Covered(d, stack, ub, t)
  }

  /** Covered, or extends `p` (the state just popped). */
  ghost predicate AllCoveredOr(d: seq<seq<real>>, stack: seq<State>, ub: ExtReal, p: seq<nat>)
    requires IsSquare(d)
  {
    forall t :: IsHamiltonianOrder(|d|, t) ==> Covered(d, stack, ub, t) || p <= t
  }

  /** Covered, or extends `p` through a successor not yet examined (>= next). */
  ghost predicate AllCoveredBut(d: seq<seq<real>>, stack: seq<State>, ub: ExtReal, p: seq<nat>, next: nat)
    requires IsSquare(d)
  {
    forall t :: IsHamiltonianOrder(|d|, t) ==>
      Covered(d, stack, ub, t) || (p <= t && |p| < |t| && t[|p|] >= next)
  }

  lemma RootCoversAll(d: seq<seq<real>>, ub: ExtReal)
    requires IsSquare(d)
    ensures AllCovered(d, [State([0], 0.0)], ub)
  {
    forall t | IsHamiltonianOrder(|d|, t)
      ensures Covered(d, [State([0], 0.0)], ub, t)
    {
      assert [State([0], 0.0)][0].path <= t;
    }
  }

  lemma PopState(d: seq<seq<real>>, rest: seq<State>, s: State, ub: ExtReal)
    requires IsSquare(d) && AllCovered(d, rest + [s], ub)
    ensures AllCoveredOr(d, rest, ub, s.path)
  {
    forall t | IsHamiltonianOrder(|d|, t)
      ensures Covered(d, rest, ub, t) || s.path <= t
    {
      assert Covered(d, rest + [s], ub, t);
      if !AtMost(ub, Finite(PathCost(d, t + [0]))) {
        var i :| 0 <= i < |rest + [s]| && (rest + [s])[i].path <= t;
        if i < |rest| {
          assert rest[i].path <= t;
        }
      }
    }
  }

  /** Closing a full-length state: the bound moves to its closed cost only when
      that is strictly smaller, and afterwards the state's tour is accounted for. */
  lemma CloseState(d: seq<seq<real>>, rest: seq<State>, s: State, ub: ExtReal, ub': ExtReal)
    requires IsSquare(d) && ValidState(d, s) && |s.path| == |d|
    requires AllCoveredOr(d, rest, ub, s.path)
    requires var last := s.path[|s.path| - 1];
      ub' == (if Less(Finite(s.cost + d[last][0]), ub) then Finite(s.cost + d[last][0]) else ub)
    ensures AllCovered(d, rest, ub')
  {
    var last := s.path[|s.path| - 1];
    PathCostAppend(d, s.path, 0);
    forall t | IsHamiltonianOrder(|d|, t)
      ensures Covered(d, rest, ub', t)
    {
      if s.path <= t {
        assert s.path == t;
      }
    }
  }

  lemma BeginChildren(d: seq<seq<real>>, rest: seq<State>, ub: ExtReal, p: seq<nat>)
    requires IsSquare(d) && |p| < |d| && AllCoveredOr(d, rest, ub, p)
    ensures AllCoveredBut(d, rest, ub, p, 0)
  {
  }

  lemma ChildPushed(d: seq<seq<real>>, stack: seq<State>, ub: ExtReal, p: seq<nat>, next: nat, c: real)
    requires IsSquare(d) && AllCoveredBut(d, stack, ub, p, next)
    ensures AllCoveredBut(d, stack + [State(p + [next], c)], ub, p, next + 1)
  {
    var stack' := stack + [State(p + [next], c)];
    forall t | IsHamiltonianOrder(|d|, t)
      ensures Covered(d, stack', ub, t) || (p <= t && |p| < |t| && t[|p|] >= next + 1)
    {
      if Covered(d, stack, ub, t) {
        if !AtMost(ub, Finite(PathCost(d, t + [0]))) {
          var i :| 0 <= i < |stack| && stack[i].path <= t;
          assert stack'[i] == stack[i];
        }
      } else if t[|p|] == next {
        assert p + [next] == t[..|p| + 1];
        assert stack'[|stack|].path <= t;
      }
    }
  }

  lemma ChildPruned(d: seq<seq<real>>, stack: seq<State>, ub: ExtReal, p: seq<nat>, next: nat)
    requires IsSquare(d) && NonNegative(d) && AllCoveredBut(d, stack, ub, p, next)
    requires InRange(|d|, p) && |p| >= 1 && next < |d|
    requires !Less(Finite(PathCost(d, p + [next])), ub)
    ensures AllCoveredBut(d, stack, ub, p, next + 1)
  {
    forall t | IsHamiltonianOrder(|d|, t)
      ensures Covered(d, stack, ub, t) || (p <= t && |p| < |t| && t[|p|] >= next + 1)
    {
      if p <= t && |p| < |t| && t[|p|] == next {
        assert p + [next] == (t + [0])[..|p| + 1];
        PathCostPrefix(d, p + [next], t + [0]);
        assert AtMost(ub, Finite(PathCost(d, t + [0])));
      }
    }
  }

  lemma ChildSkipped(d: seq<seq<real>>, stack: seq<State>, ub: ExtReal, p: seq<nat>, next: nat)
    requires IsSquare(d) && AllCoveredBut(d, stack, ub, p, next) && next in p
    ensures AllCoveredBut(d, stack, ub, p, next + 1)
  {
    forall t | IsHamiltonianOrder(|d|, t) && p <= t && |p| < |t|
      ensures t[|p|] != next
    {
      var j :| 0 <= j < |p| && p[j] == next;
      assert t[j] == next;
    }
  }

  lemma EndChildren(d: seq<seq<real>>, stack: seq<State>, ub: ExtReal, p: seq<nat>)
    requires IsSquare(d) && AllCoveredBut(d, stack, ub, p, |d|)
    ensures AllCovered(d, stack, ub)
  {
  }

  /** Once the stack is empty every closed tour costs at least the bound. */
  lemma {:induction false} EmptyStackOptimal(d: seq<seq<real>>, ub: ExtReal)
    requires IsSquare(d) && AllCovered(d, [], ub)
    ensures forall c :: IsTour(|d|, c) ==> AtMost(ub, Finite(PathCost(d, c)))
  {
    forall c | IsTour(|d|, c)
      ensures AtMost(ub, Finite(PathCost(d, c)))
    {
      OrderOfTour(|d|, c);
      assert Covered(d, [], ub, c[..|d|]);
    }
  }

  /** Size of a search subtree with `k` levels left below it when every node has
      at most `n` children: an upper bound on the pops that the subtree costs. */
  function Fan(n: nat, k: nat): (r: nat)
    ensures r >= 1
  {
    if k == 0 then 1 else 1 + n * Fan(n, k - 1)
  }

  /** Levels left below a state before its path is full-length. */
  function Depth(n: nat, s: State): nat
  {
    if |s.path| < n then n - |s.path| else 0
  }

  /** Sum of the subtree sizes of the states on the stack: the termination measure. */
  ghost function Weight(n: nat, stack: seq<State>): nat
  {
    if stack == [] then 0
    else Weight(n, stack[..|stack| - 1]) + Fan(n, Depth(n, stack[|stack| - 1]))
  }

  lemma WeightPush(n: nat, stack: seq<State>, s: State)
    ensures Weight(n, stack + [s]) == Weight(n, stack) + Fan(n, Depth(n, s))
  {
    assert (stack + [s])[..|stack|] == stack;
  }

  /** A non-empty stack is its prefix with the top pushed back on. */
  lemma SplitTop(stack: seq<State>)
    requires stack != []
    ensures stack == stack[..|stack| - 1] + [stack[|stack| - 1]]
  {
  }

  lemma ChildValid(d: seq<seq<real>>, s: State, next: nat)
    requires IsSquare(d) && ValidState(d, s) && |s.path| < |d| && next < |d| && next !in s.path
    ensures ValidState(d, Child(d, s, next))
    ensures Child(d, s, next).path[..|s.path|] == s.path
  {
    PathCostAppend(d, s.path, next);
    assert (s.path + [next])[..|s.path|] == s.path;
  }

  lemma ClosedTour(d: seq<seq<real>>, s: State)
    requires IsSquare(d) && ValidState(d, s) && |s.path| == |d|
    ensures IsTour(|d|, s.path + [0])
    ensures PathCost(d, s.path + [0]) == s.cost + d[s.path[|s.path| - 1]][0]
  {
    PathCostAppend(d, s.path, 0);
    assert (s.path + [0])[..|d|] == s.path;
  }

  /** The successor of `s` through position `j`: one more edge on path and cost. */
  function Child(d: seq<seq<real>>, s: State, j: nat): State
    requires IsSquare(d) && InRange(|d|, s.path) && |s.path| >= 1 && j < |d|
  {
    State(s.path + [j], s.cost + d[s.path[|s.path| - 1]][j])
  }

  /** Successor `j` is pushed: not yet on the path and strictly below the bound. */
  predicate IsPushed(d: seq<seq<real>>, s: State, ub: ExtReal, j: nat)
    requires IsSquare(d) && InRange(|d|, s.path) && |s.path| >= 1 && j < |d|
  {
    j !in s.path && Less(Finite(Child(d, s, j).cost), ub)
  }

  /** Successor `j` is pruned: not yet on the path but not below the bound. */
  predicate IsPruned(d: seq<seq<real>>, s: State, ub: ExtReal, j: nat)
    requires IsSquare(d) && InRange(|d|, s.path) && |s.path| >= 1 && j < |d|
  {
    j !in s.path && !Less(Finite(Child(d, s, j).cost), ub)
  }

  /** The states pushed while examining successors 0 .. k-1, in push order. */
  function Children(d: seq<seq<real>>, s: State, ub: ExtReal, k: nat): seq<State>
    requires IsSquare(d) && InRange(|d|, s.path) && |s.path| >= 1 && k <= |d|
  {
    if k == 0 then []
    else Children(d, s, ub, k - 1) + (if IsPushed(d, s, ub, k - 1) then [Child(d, s, k - 1)] else [])
  }

  /** The number of successors among 0 .. k-1 that are pruned. */
  function Prunes(d: seq<seq<real>>, s: State, ub: ExtReal, k: nat): nat
    requires IsSquare(d) && InRange(|d|, s.path) && |s.path| >= 1 && k <= |d|
  {
    if k == 0 then 0
    else Prunes(d, s, ub, k - 1) + (if IsPruned(d, s, ub, k - 1) then 1 else 0)
  }

  /** `c` is a well-formed one-step extension of `s` through a position below
      `k`, strictly below the bound. */
  ghost predicate IsChildBelow(d: seq<seq<real>>, s: State, ub: ExtReal, c: State, k: nat)
    requires IsSquare(d)
  {
    && ValidState(d, c) && Less(Finite(c.cost), ub)
    && |c.path| == |s.path| + 1 && c.path[..|s.path|] == s.path
    && c.path[|s.path|] < k
  }

  /** Every pushed child is a well-formed extension of `s` strictly below the bound. */
  lemma {:induction false} ChildrenWellFormed(d: seq<seq<real>>, s: State, ub: ExtReal, k: nat)
    requires IsSquare(d) && ValidState(d, s) && |s.path| < |d| && k <= |d|
    ensures forall i :: 0 <= i < |Children(d, s, ub, k)| ==> IsChildBelow(d, s, ub, Children(d, s, ub, k)[i], k)
  {
    if k > 0 {
      ChildrenWellFormed(d, s, ub, k - 1);
      var prev := Children(d, s, ub, k - 1);
      var cs := Children(d, s, ub, k);
      if IsPushed(d, s, ub, k - 1) {
        PushedChildBelow(d, s, ub, k - 1);
      }
      forall i | 0 <= i < |cs|
        ensures IsChildBelow(d, s, ub, cs[i], k)
      {
        if i < |prev| {
          assert cs[i] == prev[i] && IsChildBelow(d, s, ub, prev[i], k - 1);
        }
      }
    }
  }

  /** A pushed successor is a well-formed extension of `s` strictly below the bound. */
  lemma PushedChildBelow(d: seq<seq<real>>, s: State, ub: ExtReal, j: nat)
    requires IsSquare(d) && ValidState(d, s) && |s.path| < |d| && j < |d|
    requires IsPushed(d, s, ub, j)
    ensures IsChildBelow(d, s, ub, Child(d, s, j), j + 1)
  {
    ChildValid(d, s, j);
  }

  /** The states of `cs` all extend beyond position `m` and the positions they hold at `m` increase. */
  ghost predicate Ascending(m: nat, cs: seq<State>)
  {
    forall i, j :: 0 <= i < j < |cs| ==>
      m < |cs[i].path| && m < |cs[j].path| && cs[i].path[m] < cs[j].path[m]
  }

  /** Children are pushed in ascending order of the position they add. */
  lemma {:induction false} ChildrenAscending(d: seq<seq<real>>, s: State, ub: ExtReal, k: nat)
    requires IsSquare(d) && ValidState(d, s) && |s.path| < |d| && k <= |d|
    ensures Ascending(|s.path|, Children(d, s, ub, k))
  {
    if k > 0 {
      ChildrenAscending(d, s, ub, k - 1);
      var prev := Children(d, s, ub, k - 1);
      if IsPushed(d, s, ub, k - 1) {
        var c := Child(d, s, k - 1);
        assert Children(d, s, ub, k) == prev + [c];
        assert c.path[|s.path|] == k - 1;
        ChildrenPositions(d, s, ub, k - 1);
        AscendingAppend(|s.path|, prev, c);
      } else {
        assert Children(d, s, ub, k) == prev;
      }
    }
  }

  /** Every child examined before `k` adds one position, and that position is below `k`. */
  lemma {:induction false} ChildrenPositions(d: seq<seq<real>>, s: State, ub: ExtReal, k: nat)
    requires IsSquare(d) && InRange(|d|, s.path) && |s.path| >= 1 && k <= |d|
    ensures forall i :: 0 <= i < |Children(d, s, ub, k)| ==>
      |s.path| < |Children(d, s, ub, k)[i].path| && Children(d, s, ub, k)[i].path[|s.path|] < k
  {
    if k > 0 {
      ChildrenPositions(d, s, ub, k - 1);
      var prev, cs := Children(d, s, ub, k - 1), Children(d, s, ub, k);
      forall i | 0 <= i < |cs|
        ensures |s.path| < |cs[i].path| && cs[i].path[|s.path|] < k
      {
        if i < |prev| {
          assert cs[i] == prev[i];
        }
      }
    }
  }

  /** Appending a state whose position at `m` exceeds every earlier one keeps the order ascending. */
  lemma AscendingAppend(m: nat, cs: seq<State>, c: State)
    requires Ascending(m, cs) && m < |c.path|
    requires forall i :: 0 <= i < |cs| ==> m < |cs[i].path| && cs[i].path[m] < c.path[m]
    ensures Ascending(m, cs + [c])
  {
    var q := cs + [c];
    forall i, j | 0 <= i < j < |q|
      ensures m < |q[i].path| && m < |q[j].path| && q[i].path[m] < q[j].path[m]
    {
      assert q[i] == cs[i];
    }
  }

  /** Every successor not on the path is either pushed or counted as a prune. */
  lemma {:induction false} ChildrenPartition(d: seq<seq<real>>, s: State, ub: ExtReal, k: nat)
    requires IsSquare(d) && InRange(|d|, s.path) && |s.path| >= 1 && k <= |d|
    ensures |Children(d, s, ub, k)| + Prunes(d, s, ub, k) == OffPath(s.path, k)
  {
    if k > 0 {
      ChildrenPartition(d, s, ub, k - 1);
      assert |Children(d, s, ub, k)| == |Children(d, s, ub, k - 1)| + (if IsPushed(d, s, ub, k - 1) then 1 else 0);
    }
  }

  /** Examining all successors of a well-formed state accounts for all n - |path| of them. */
  lemma AllSuccessorsAccounted(d: seq<seq<real>>, s: State, ub: ExtReal)
    requires IsSquare(d) && ValidState(d, s) && |s.path| < |d|
    ensures |Children(d, s, ub, |d|)| + Prunes(d, s, ub, |d|) == |d| - |s.path|
  {
    ChildrenPartition(d, s, ub, |d|);
    OffPathCount(|d|, s.path);
  }

  /** One more summand of size `f` adds one more `f` to the product. */
  lemma MulSucc(w: nat, wi: nat, a: nat, b: nat, f: nat)
    requires wi == w + a * f && b == a + 1
    ensures wi + f == w + b * f
  {
  }

  /** `f` added up `a` times: the product, written so that each step adds one `f`. */
  ghost function Repeated(a: nat, f: nat): nat
  {
    if a == 0 then 0 else Repeated(a - 1, f) + f
  }

  lemma {:induction false} RepeatedIsProduct(a: nat, f: nat)
    ensures Repeated(a, f) == a * f
  {
    if a > 0 {
      RepeatedIsProduct(a - 1, f);
      MulSucc(0, Repeated(a - 1, f), a - 1, a, f);
    }
  }

  lemma MulMonotone(a: nat, b: nat, f: nat)
    requires a <= b
    ensures a * f <= b * f
  {
  }

  /** Pushing children that each stand for a subtree of size `f` adds `f` per child. */
  lemma {:induction false} WeightAppend(n: nat, stack: seq<State>, cs: seq<State>, f: nat)
    requires forall i :: 0 <= i < |cs| ==> Fan(n, Depth(n, cs[i])) == f
    ensures Weight(n, stack + cs) == Weight(n, stack) + |cs| * f
    decreases |cs|
  {
    if cs != [] {
      var init, c := cs[..|cs| - 1], cs[|cs| - 1];
      assert forall i :: 0 <= i < |init| ==> init[i] == cs[i];
      WeightAppend(n, stack, init, f);
      assert cs == init + [c];
      AppendAssoc(stack, init, c);
      WeightPush(n, stack + init, c);
      assert Fan(n, Depth(n, c)) == f;
      MulSucc(Weight(n, stack), Weight(n, stack + init), |init|, |cs|, f);
    } else {
      assert stack + cs == stack;
    }
  }

  /** Every child of a state at depth `k + 1` sits at depth `k`. */
  lemma ChildrenDepth(d: seq<seq<real>>, s: State, ub: ExtReal)
    requires IsSquare(d) && ValidState(d, s) && |s.path| < |d|
    ensures forall i :: 0 <= i < |Children(d, s, ub, |d|)| ==>
      Fan(|d|, Depth(|d|, Children(d, s, ub, |d|)[i])) == Fan(|d|, |d| - |s.path| - 1)
  {
    var cs := Children(d, s, ub, |d|);
    ChildrenWellFormed(d, s, ub, |d|);
    forall i | 0 <= i < |cs|
      ensures Fan(|d|, Depth(|d|, cs[i])) == Fan(|d|, |d| - |s.path| - 1)
    {
      assert IsChildBelow(d, s, ub, cs[i], |d|);
    }
  }

  /** At most `n` children of subtree size `f` weigh less than one subtree of size `1 + n * f`. */
  lemma ExpansionArith(w: nat, wcs: nat, a: nat, n: nat, f: nat, fan: nat)
    requires wcs == w + a * f && a <= n && fan == 1 + n * f
    ensures wcs < w + fan
  {
    MulMonotone(a, n, f);
  }

  /** Expanding a state that is not full-length strictly lowers the termination measure. */
  lemma ExpansionShrinks(d: seq<seq<real>>, s: State, ub: ExtReal, stack: seq<State>)
    requires IsSquare(d) && ValidState(d, s) && |s.path| < |d|
    ensures Weight(|d|, stack + Children(d, s, ub, |d|)) < Weight(|d|, stack) + Fan(|d|, Depth(|d|, s))
  {
    var n := |d|;
    var cs := Children(d, s, ub, n);
    var f := Fan(n, n - |s.path| - 1);
    ChildrenDepth(d, s, ub);
    AllSuccessorsAccounted(d, s, ub);
    WeightAppend(n, stack, cs, f);
    assert Depth(n, s) == (n - |s.path| - 1) + 1;
    ExpansionArith(Weight(n, stack), Weight(n, stack + cs), |cs|, n, f, Fan(n, Depth(n, s)));
  }

  /** The invariant of the loop of `ExpandChildren` once successors 0 .. k-1 of
      `s` are examined: `acc` is the stack plus the children pushed so far, all
      well-formed, and every Hamiltonian order is covered or extends `s` through
      a successor not yet examined. */
  ghost predicate Expanded(d: seq<seq<real>>, s: State, ub: ExtReal, stack: seq<State>, acc: seq<State>, k: nat)
    requires IsSquare(d) && ValidState(d, s) && |s.path| < |d| && k <= |d|
  {
    && acc == stack + Children(d, s, ub, k)
    && ValidStack(d, acc)
    && (NonNegative(d) ==> AllCoveredBut(d, acc, ub, s.path, k))
  }

  /** Once every successor is examined, the stack is valid again, covers every
      order, and weighs less than before the expansion. */
  lemma ExpansionDone(d: seq<seq<real>>, s: State, ub: ExtReal, stack: seq<State>, acc: seq<State>)
    requires IsSquare(d) && ValidState(d, s) && |s.path| < |d|
    requires Expanded(d, s, ub, stack, acc, |d|)
    ensures acc == stack + Children(d, s, ub, |d|) && ValidStack(d, acc)
    ensures NonNegative(d) ==> AllCovered(d, acc, ub)
    ensures Weight(|d|, acc) < Weight(|d|, stack) + Fan(|d|, Depth(|d|, s))
  {
    if NonNegative(d) {
      EndChildren(d, acc, ub, s.path);
    }
    ExpansionShrinks(d, s, ub, stack);
  }

  /** One pushed successor keeps the loop's invariants of `ExpandChildren`. */
  lemma PushStep(d: seq<seq<real>>, s: State, ub: ExtReal, stack: seq<State>, acc: seq<State>, j: nat, c: State)
    requires IsSquare(d) && ValidState(d, s) && |s.path| < |d| && j < |d|
    requires IsPushed(d, s, ub, j) && c == Child(d, s, j)
    requires Expanded(d, s, ub, stack, acc, j)
    ensures Expanded(d, s, ub, stack, acc + [c], j + 1)
    ensures Prunes(d, s, ub, j + 1) == Prunes(d, s, ub, j)
  {
    ChildValid(d, s, j);
    ValidStackPush(d, acc, c);
    var cs := Children(d, s, ub, j);
    assert Children(d, s, ub, j + 1) == cs + [c];
    AppendAssoc(stack, cs, c);
    if NonNegative(d) {
      ChildPushed(d, acc, ub, s.path, j, c.cost);
    }
  }

  /** One pruned successor keeps the loop's invariants of `ExpandChildren`. */
  lemma PruneStep(d: seq<seq<real>>, s: State, ub: ExtReal, stack: seq<State>, acc: seq<State>, j: nat)
    requires IsSquare(d) && ValidState(d, s) && |s.path| < |d| && j < |d|
    requires IsPruned(d, s, ub, j)
    requires Expanded(d, s, ub, stack, acc, j)
    ensures Expanded(d, s, ub, stack, acc, j + 1)
    ensures Prunes(d, s, ub, j + 1) == Prunes(d, s, ub, j) + 1
  {
    ChildValid(d, s, j);
    if NonNegative(d) {
      ChildPruned(d, acc, ub, s.path, j);
    }
  }

  /** A successor already on the path keeps the loop's invariants of `ExpandChildren`. */
  lemma SkipStep(d: seq<seq<real>>, s: State, ub: ExtReal, stack: seq<State>, acc: seq<State>, j: nat)
    requires IsSquare(d) && ValidState(d, s) && |s.path| < |d| && j < |d|
    requires j in s.path
    requires Expanded(d, s, ub, stack, acc, j)
    ensures Expanded(d, s, ub, stack, acc, j + 1)
    ensures Prunes(d, s, ub, j + 1) == Prunes(d, s, ub, j)
  {
    if NonNegative(d) {
      ChildSkipped(d, acc, ub, s.path, j);
    }
  }

  /** One pass of the `for` loop of an expansion: a successor not yet on the
      path becomes a child state, pushed when its cost is strictly below the
      bound and counted as a prune otherwise. */
  method ExamineSuccessor(d: seq<seq<real>>, stats: BnBStats, current: State, ghost stack: seq<State>,
                          acc: seq<State>, nextNode: nat)
    returns (acc': seq<State>)
    requires IsSquare(d) && ValidState(d, current) && |current.path| < |d| && nextNode < |d|
    requires Expanded(d, current, stats.upperBound, stack, acc, nextNode)
    modifies stats
    ensures stats.upperBound == old(stats.upperBound) && stats.bestPath == old(stats.bestPath)
    ensures stats.nodesExpanded == old(stats.nodesExpanded)
    ensures Expanded(d, current, stats.upperBound, stack, acc', nextNode + 1)
    ensures stats.pruningCount + Prunes(d, current, stats.upperBound, nextNode)
         == old(stats.pruningCount) + Prunes(d, current, stats.upperBound, nextNode + 1)
  {
    acc' := acc;
    var ub := stats.upperBound;
    if nextNode !in current.path {
      var lastNode := current.path[|current.path| - 1];
      var newPath := current.path + [nextNode];
      var newCost := current.cost + d[lastNode][nextNode];
      var lowerBound := newCost;
      assert State(newPath, newCost) == Child(d, current, nextNode);
      if Less(Finite(lowerBound), stats.upperBound) {
        PushStep(d, current, ub, stack, acc, nextNode, State(newPath, newCost));
        acc' := acc + [State(newPath, newCost)];
      } else {
        PruneStep(d, current, ub, stack, acc, nextNode);
        stats.pruningCount := stats.pruningCount + 1;
      }
    } else {
      SkipStep(d, current, ub, stack, acc, nextNode);
    }
  }

  /** The `for` loop of one expansion: every position, in ascending order, is
      examined as a successor of the popped state. */
  method ExpandChildren(d: seq<seq<real>>, stats: BnBStats, current: State, stack: seq<State>)
    returns (stack': seq<State>)
    requires IsSquare(d) && ValidState(d, current) && |current.path| < |d|
    requires ValidStack(d, stack)
    requires NonNegative(d) ==> AllCoveredOr(d, stack, stats.upperBound, current.path)
    modifies stats
    ensures stats.upperBound == old(stats.upperBound) && stats.bestPath == old(stats.bestPath)
    ensures stats.nodesExpanded == old(stats.nodesExpanded)
    ensures stack' == stack + Children(d, current, stats.upperBound, |d|)
    ensures stats.pruningCount == old(stats.pruningCount) + Prunes(d, current, stats.upperBound, |d|)
    ensures ValidStack(d, stack')
    ensures NonNegative(d) ==> AllCovered(d, stack', stats.upperBound)
    ensures Weight(|d|, stack') < Weight(|d|, stack) + Fan(|d|, Depth(|d|, current))
  {
    var n := |d|;
    ghost var ub := stats.upperBound;
    ghost var pruned0 := stats.pruningCount;
    stack' := stack;
    if NonNegative(d) {
      BeginChildren(d, stack, ub, current.path);
    }
    for nextNode := 0 to n
      invariant stats.upperBound == ub && stats.bestPath == old(stats.bestPath)
      invariant stats.nodesExpanded == old(stats.nodesExpanded)
      invariant Expanded(d, current, ub, stack, stack', nextNode)
      invariant stats.pruningCount == pruned0 + Prunes(d, current, ub, nextNode)
    {
      stack' := ExamineSuccessor(d, stats, current, stack, stack', nextNode);
    }
    ExpansionDone(d, current, ub, stack, stack');
  }

  /** A full-length state: its closed cost replaces the incumbent only when
      strictly smaller than the bound. */
  method CloseTour(d: seq<seq<real>>, stats: BnBStats, current: State, ghost stack: seq<State>)
    requires IsSquare(d) && ValidState(d, current) && |current.path| == |d|
    requires Incumbent(d, stats.upperBound, stats.bestPath)
    requires NonNegative(d) ==> AllCoveredOr(d, stack, stats.upperBound, current.path)
    modifies stats
    ensures Incumbent(d, stats.upperBound, stats.bestPath)
    ensures var finalCost := PathCost(d, current.path + [0]);
      if Less(Finite(finalCost), old(stats.upperBound))
      then stats.upperBound == Finite(finalCost) && stats.bestPath == current.path + [0]
      else stats.upperBound == old(stats.upperBound) && stats.bestPath == old(stats.bestPath)
    ensures stats.nodesExpanded == old(stats.nodesExpanded) && stats.pruningCount == old(stats.pruningCount)
    ensures NonNegative(d) ==> AllCovered(d, stack, stats.upperBound)
  {
    var costToComplete := d[current.path[|current.path| - 1]][0];
    var finalCost := current.cost + costToComplete;
    ClosedTour(d, current);
    if Less(Finite(finalCost), stats.upperBound) {
      stats.upperBound := Finite(finalCost);
      stats.bestPath := current.path + [0];
    }
    if NonNegative(d) {
      CloseState(d, stack, current, old(stats.upperBound), stats.upperBound);
    }
  }

  /** Popping the top state of a valid, covering stack: what the rest of the
      loop body may assume about the popped state and the remaining stack. */
  lemma PopTop(d: seq<seq<real>>, stack: seq<State>, ub: ExtReal)
    requires IsSquare(d) && ValidStack(d, stack) && stack != []
    requires NonNegative(d) ==> AllCovered(d, stack, ub)
    ensures ValidStack(d, stack[..|stack| - 1]) && ValidState(d, stack[|stack| - 1])
    ensures Weight(|d|, stack) == Weight(|d|, stack[..|stack| - 1]) + Fan(|d|, Depth(|d|, stack[|stack| - 1]))
    ensures NonNegative(d) ==> AllCoveredOr(d, stack[..|stack| - 1], ub, stack[|stack| - 1].path)
  {
    var rest, top := stack[..|stack| - 1], stack[|stack| - 1];
    SplitTop(stack);
    WeightPush(|d|, rest, top);
    ValidStackPush(d, rest, top);
    if NonNegative(d) {
      PopState(d, rest, top, ub);
    }
  }

  /** One popped state: closed into a tour when full-length, otherwise expanded.
      At most n - 1 successors are pruned, and the termination measure drops. */
  method ProcessState(d: seq<seq<real>>, stats: BnBStats, current: State, stack: seq<State>)
    returns (stack': seq<State>)
    requires IsSquare(d) && ValidState(d, current) && ValidStack(d, stack)
    requires Incumbent(d, stats.upperBound, stats.bestPath)
    requires NonNegative(d) ==> AllCoveredOr(d, stack, stats.upperBound, current.path)
    modifies stats
    ensures ValidStack(d, stack') && Incumbent(d, stats.upperBound, stats.bestPath)
    ensures || (stats.upperBound == old(stats.upperBound) && stats.bestPath == old(stats.bestPath))
            || Less(stats.upperBound, old(stats.upperBound))
    ensures NonNegative(d) ==> AllCovered(d, stack', stats.upperBound)
    ensures stats.nodesExpanded == old(stats.nodesExpanded)
    ensures old(stats.pruningCount) <= stats.pruningCount <= old(stats.pruningCount) + (|d| - 1)
    ensures Weight(|d|, stack') < Weight(|d|, stack) + Fan(|d|, Depth(|d|, current))
  {
    if |current.path| == |d| {
      CloseTour(d, stats, current, stack);
      stack' := stack;
    } else {
      AllSuccessorsAccounted(d, current, stats.upperBound);
      stack' := ExpandChildren(d, stats, current, stack);
    }
  }

  /** The invariant of the search loop, over the snapshot `r` of the statistics,
      the snapshot `r0` taken before the search and the number of pops so far. */
  ghost predicate Searching(d: seq<seq<real>>, stack: seq<State>, r: SearchResults, r0: SearchResults, pops: nat)
    requires IsSquare(d) && |d| >= 1
  {
    && ValidStack(d, stack) && Incumbent(d, r.cost, r.path)
    && ((r.cost == r0.cost && r.path == r0.path) || Less(r.cost, r0.cost))
    && (NonNegative(d) ==> AllCovered(d, stack, r.cost))
    && r.nodes == r0.nodes + pops
    && pops + Weight(|d|, stack) <= Fan(|d|, |d| - 1)
    && (stack == [] ==> pops >= 1)
    && r0.pruned <= r.pruned <= r0.pruned + Repeated(pops, |d| - 1)
  }

  /** One iteration of the search loop keeps its invariant: one more pop, at
      most n - 1 more prunes, a bound that stays or strictly drops. */
  lemma SearchStep(d: seq<seq<real>>, stack: seq<State>, r: SearchResults,
                   stack': seq<State>, r': SearchResults, r0: SearchResults, pops: nat)
    requires IsSquare(d) && |d| >= 1 && Searching(d, stack, r, r0, pops)
    requires ValidStack(d, stack') && Incumbent(d, r'.cost, r'.path)
    requires (r'.cost == r.cost && r'.path == r.path) || Less(r'.cost, r.cost)
    requires NonNegative(d) ==> AllCovered(d, stack', r'.cost)
    requires r'.nodes == r.nodes + 1
    requires r.pruned <= r'.pruned <= r.pruned + (|d| - 1)
    requires Weight(|d|, stack') < Weight(|d|, stack)
    ensures Searching(d, stack', r', r0, pops + 1)
  {
  }

  /** One pass of the `while stack` loop: pop, count an expansion, then close
      or expand the popped state. */
  method SearchIteration(d: seq<seq<real>>, stats: BnBStats, stack: seq<State>,
                         ghost r0: SearchResults, ghost pops: nat)
    returns (stack': seq<State>)
    requires IsSquare(d) && |d| >= 1 && stack != []
    requires Searching(d, stack, stats.GetResults(), r0, pops)
    modifies stats
    ensures Searching(d, stack', stats.GetResults(), r0, pops + 1)
    ensures Weight(|d|, stack') < Weight(|d|, stack)
  {
    ghost var r := stats.GetResults();
    PopTop(d, stack, stats.upperBound);
    var current := stack[|stack| - 1];
    stack' := stack[..|stack| - 1];
    stats.nodesExpanded := stats.nodesExpanded + 1;
    stack' := ProcessState(d, stats, current, stack');
    SearchStep(d, stack, r, stack', stats.GetResults(), r0, pops);
  }

  /** Once the stack is empty the loop invariant gives the solver's guarantees. */
  lemma SearchDone(d: seq<seq<real>>, r: SearchResults, r0: SearchResults, pops: nat)
    requires IsSquare(d) && |d| >= 1 && Searching(d, [], r, r0, pops)
    ensures Incumbent(d, r.cost, r.path)
    ensures (r.cost == r0.cost && r.path == r0.path) || Less(r.cost, r0.cost)
    ensures NonNegative(d) ==> forall c :: IsTour(|d|, c) ==> AtMost(r.cost, Finite(PathCost(d, c)))
    ensures r0.nodes < r.nodes <= r0.nodes + Fan(|d|, |d| - 1)
    ensures r0.pruned <= r.pruned
    ensures r.pruned - r0.pruned <= (r.nodes - r0.nodes) * (|d| - 1)
  {
    if NonNegative(d) {
      EmptyStackOptimal(d, r.cost);
    }
    RepeatedIsProduct(pops, |d| - 1);
  }

  /** Depth-first Branch-and-Bound from the root state ([0], 0): every pop counts
      one expansion; a full-length path replaces the incumbent only when its
      closed cost is strictly smaller; every other state pushes, in ascending
      order, each unvisited successor whose cost is strictly below the bound and
      counts a prune for each that is not. */
  method SolveBranchAndBound(d: seq<seq<real>>, stats: BnBStats)
    requires IsSquare(d) && |d| >= 1
    requires Incumbent(d, stats.upperBound, stats.bestPath)
    modifies stats
    ensures Incumbent(d, stats.upperBound, stats.bestPath)
    ensures || (stats.upperBound == old(stats.upperBound) && stats.bestPath == old(stats.bestPath))
            || Less(stats.upperBound, old(stats.upperBound))
    ensures NonNegative(d) ==>
      forall c :: IsTour(|d|, c) ==> AtMost(stats.upperBound, Finite(PathCost(d, c)))
    ensures old(stats.nodesExpanded) < stats.nodesExpanded <= old(stats.nodesExpanded) + Fan(|d|, |d| - 1)
    ensures old(stats.pruningCount) <= stats.pruningCount
    ensures stats.pruningCount - old(stats.pruningCount)
         <= (stats.nodesExpanded - old(stats.nodesExpanded)) * (|d| - 1)
  {
    var n := |d|;
    var stack := [State([0], 0.0)];
    ghost var pops: nat := 0;
    ghost var r0 := SearchResults(stats.upperBound, stats.bestPath, stats.nodesExpanded, stats.pruningCount);
    RootCoversAll(d, stats.upperBound);
    WeightPush(n, [], State([0], 0.0));
    ValidStackPush(d, [], State([0], 0.0));
    while stack != []
      invariant Searching(d, stack, stats.GetResults(), r0, pops)
      decreases Weight(n, stack)
    {
      stack := SearchIteration(d, stats, stack, r0, pops);
      pops := pops + 1;
    }
    SearchDone(d, stats.GetResults(), r0, pops);
  }
}
