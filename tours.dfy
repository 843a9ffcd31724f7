/** Paths and closed tours over the positions of a distance matrix, and their cost. */
module Tours {
  import opened Common

  /** Sum of the matrix entries along consecutive positions of `p`. */
  function PathCost(d: seq<seq<real>>, p: seq<nat>): real
    requires IsSquare(d) && InRange(|d|, p)
    decreases |p|
  {
    if |p| < 2 then 0.0
    else PathCost(d, p[..|p| - 1]) + d[p[|p| - 2]][p[|p| - 1]]
  }

  /** An open Hamiltonian order: starts at position 0 and lists every
      position below `n` once (length n, no repetition). */
  predicate IsHamiltonianOrder(n: nat, t: seq<nat>)
  {
    n >= 1 && |t| == n && t[0] == 0 && InRange(n, t) && Distinct(t)
  }

  /** A closed tour: a Hamiltonian order followed by the return to position 0. */
  predicate IsTour(n: nat, c: seq<nat>)
  {
    n >= 1 && |c| == n + 1 && c[0] == 0 && c[n] == 0 && InRange(n, c) && Distinct(c[..n])
  }

  lemma OrderOfTour(n: nat, c: seq<nat>)
    requires IsTour(n, c)
    ensures IsHamiltonianOrder(n, c[..n]) && c == c[..n] + [0]
  {
  }

  /** Extending a path by one position adds exactly the new edge. */
  lemma PathCostAppend(d: seq<seq<real>>, p: seq<nat>, x: nat)
    requires IsSquare(d) && InRange(|d|, p) && |p| >= 1 && x < |d|
    ensures InRange(|d|, p + [x])
    ensures PathCost(d, p + [x]) == PathCost(d, p) + d[p[|p| - 1]][x]
  {
    assert (p + [x])[..|p|] == p;
  }

  /** With non-negative distances a path never costs more than any path it is a prefix of. */
  lemma {:induction false} PathCostPrefix(d: seq<seq<real>>, p: seq<nat>, t: seq<nat>)
    requires IsSquare(d) && NonNegative(d) && InRange(|d|, t) && p <= t
    ensures InRange(|d|, p) && PathCost(d, p) <= PathCost(d, t)
    decreases |t|
  {
    if |p| < |t| {
      var u := t[..|t| - 1];
      assert p <= u;
      PathCostPrefix(d, p, u);
      if |t| >= 2 {
        assert PathCost(d, t) == PathCost(d, u) + d[t[|t| - 2]][t[|t| - 1]];
      }
    } else {
      assert p == t;
    }
  }

  /** A tour visits every position below n: the repetition-free n entries
      before the return are exactly the positions 0 .. n-1. */
  lemma TourVisitsAll(n: nat, c: seq<nat>)
    requires IsTour(n, c)
    ensures forall j: nat :: j < n ==> j in c[..n]
  {
    AllPositionsPresent(n, c[..n]);
  }
}
