/** Values shared by every part of the optimisation engine. */
module Common {

  datatype Option<T> = None | Some(value: T)

  /** A real number, or the positive infinity that the engine uses as a
      "no value yet" sentinel for bounds, minima and unreachable travel times. */
  datatype ExtReal = Finite(value: real) | Infinity

  /** Strict order `a < b` on extended reals (nothing is below itself, infinity is below nothing). */
  predicate Less(a: ExtReal, b: ExtReal)
  {
    a.Finite? && (b.Infinity? || a.value < b.value)
  }

  /** Non-strict order `a <= b` on extended reals. */
  predicate AtMost(a: ExtReal, b: ExtReal)
  {
    b.Infinity? || (a.Finite? && a.value <= b.value)
  }

  /** A point of interest as the engine sees it: its stable identifier, its
      position, and the three numbers the budget heuristic trades off. */
  datatype Poi = Poi(
    id: int,
    latitude: real,
    longitude: real,
    popularity: real,
    entryCost: real,
    visitMinutes: real)

  /** A distance matrix: one row per point, each row as long as the matrix. */
  predicate IsSquare(d: seq<seq<real>>)
  {
    forall i :: 0 <= i < |d| ==> |d[i]| == |d|
  }

  predicate NonNegative(d: seq<seq<real>>)
    requires IsSquare(d)
  {
    forall i, j :: 0 <= i < |d| && 0 <= j < |d| ==> 0.0 <= d[i][j]
  }

  /** Every entry of the index sequence `p` is a position below `n`. */
  predicate InRange(n: nat, p: seq<nat>)
  {
    forall k :: 0 <= k < |p| ==> p[k] < n
  }

  /** No position occurs twice in `p`. */
  predicate Distinct(p: seq<nat>)
  {
    forall i, j :: 0 <= i < j < |p| ==> p[i] != p[j]
  }

  /** The set of positions occurring in `p`. */
  function Elems(p: seq<nat>): set<nat>
  {
    set x | x in p
  }

  /** Appending one element after a concatenation appends it to the second part. */
  lemma AppendAssoc<T>(a: seq<T>, b: seq<T>, x: T)
    ensures (a + b) + [x] == a + (b + [x])
  {
  }

  /** The number of positions below `k` that are not in `p`. */
  function OffPath(p: seq<nat>, k: nat): nat
  {
    if k == 0 then 0 else OffPath(p, k - 1) + (if k - 1 in p then 0 else 1)
  }

  lemma {:induction false} OffPathNone(k: nat)
    ensures OffPath([], k) == k
  {
    if k > 0 {
      OffPathNone(k - 1);
    }
  }

  lemma {:induction false} OffPathAppend(p: seq<nat>, x: nat, k: nat)
    requires x !in p
    ensures OffPath(p + [x], k) + (if x < k then 1 else 0) == OffPath(p, k)
  {
    if k > 0 {
      OffPathAppend(p, x, k - 1);
      assert (k - 1 in p + [x]) == (k - 1 in p || k - 1 == x);
    }
  }

  /** A repetition-free sequence of positions below `n` leaves exactly `n - |p|` of them out. */
  lemma {:induction false} OffPathCount(n: nat, p: seq<nat>)
    requires InRange(n, p) && Distinct(p)
    ensures OffPath(p, n) + |p| == n
  {
    if p == [] {
      OffPathNone(n);
    } else {
      var q, x := p[..|p| - 1], p[|p| - 1];
      assert p == q + [x];
      assert InRange(n, q) && Distinct(q);
      OffPathCount(n, q);
      assert x !in q;
      OffPathAppend(q, x, n);
    }
  }

  /** The count is positive exactly when some position below `k` is missing from `p`. */
  lemma {:induction false} OffPathPositive(p: seq<nat>, k: nat)
    ensures OffPath(p, k) > 0 <==> exists j: nat :: j < k && j !in p
  {
    if k > 0 {
      OffPathPositive(p, k - 1);
      if k - 1 !in p {
        assert OffPath(p, k) > 0;
      }
    }
  }

  /** A repetition-free sequence of positions below `n` has at most `n` entries. */
  lemma DistinctBound(n: nat, p: seq<nat>)
    requires InRange(n, p) && Distinct(p)
    ensures |p| <= n
  {
    OffPathCount(n, p);
  }

  /** Pigeonhole: repetition-free positions below `n` that include every one of them number `n`. */
  lemma PathCoversAll(n: nat, p: seq<nat>)
    requires InRange(n, p) && Distinct(p)
    requires forall j: nat :: j < n ==> j in p
    ensures |p| == n
  {
    OffPathCount(n, p);
    OffPathPositive(p, n);
  }

  /** Conversely, exactly `n` repetition-free positions below `n` are all of them. */
  lemma AllPositionsPresent(n: nat, p: seq<nat>)
    requires InRange(n, p) && Distinct(p) && |p| == n
    ensures forall j: nat :: j < n ==> j in p
  {
    OffPathCount(n, p);
    OffPathPositive(p, n);
  }
}
