/** The distance model (pairwise kilometres between points) and the
    conversion of a distance into minutes of travel. */
module Distances {
  import opened Common

  /** Average travel speed assumed in the city, in km/h. */
  const AvgSpeedKmh: real := 25.0

  /** Entry (i, j) of the distance matrix over `points`: zero on the diagonal,
      otherwise the great-circle distance that `haversine` gives for the pair. */
  function Pairwise(points: seq<Poi>, haversine: (Poi, Poi) -> real, i: nat, j: nat): real
    requires i < |points| && j < |points|
  {
    if i == j then 0.0 else haversine(points[i], points[j])
  }

  /** The distance matrix over `points`, as rows: n-by-n with a zero diagonal. */
  function DistanceMatrix(points: seq<Poi>, haversine: (Poi, Poi) -> real): (d: seq<seq<real>>)
    ensures |d| == |points| && IsSquare(d)
    ensures forall i :: 0 <= i < |d| ==> d[i][i] == 0.0
  {
    seq(|points|, i requires 0 <= i < |points| =>
      seq(|points|, j requires 0 <= j < |points| => Pairwise(points, haversine, i, j)))
  }

  /** The matrix is symmetric and non-negative whenever the pairwise distance is. */
  lemma DistanceMatrixShape(points: seq<Poi>, haversine: (Poi, Poi) -> real)
    ensures var d := DistanceMatrix(points, haversine);
      && ((forall p, q :: haversine(p, q) == haversine(q, p)) ==>
            forall i, j :: 0 <= i < |d| && 0 <= j < |d| ==> d[i][j] == d[j][i])
      && ((forall p, q :: 0.0 <= haversine(p, q)) ==> NonNegative(d))
  {
  }

  /** Fills an n-by-n array, row by row, with the pairwise distances. */
  method CalculateDistanceMatrix(points: seq<Poi>, haversine: (Poi, Poi) -> real)
    returns (m: array2<real>)
    ensures fresh(m)
    ensures m.Length0 == |points| && m.Length1 == |points|
    ensures forall i, j :: 0 <= i < |points| && 0 <= j < |points| ==>
      m[i, j] == Pairwise(points, haversine, i, j)
    ensures Rows(m) == DistanceMatrix(points, haversine)
  {
    var n := |points|;
    m := new real[n, n]((i, j) => 0.0);
    for i := 0 to n
      invariant forall r, c :: 0 <= r < i && 0 <= c < n ==> m[r, c] == Pairwise(points, haversine, r, c)
      invariant forall r, c :: i <= r < n && 0 <= c < n ==> m[r, c] == 0.0
    {
      for j := 0 to n
        invariant forall r, c :: 0 <= r < i && 0 <= c < n ==> m[r, c] == Pairwise(points, haversine, r, c)
        invariant forall c :: 0 <= c < j ==> m[i, c] == Pairwise(points, haversine, i, c)
        invariant forall r, c :: (i < r < n && 0 <= c < n) || (r == i && j <= c < n) ==> m[r, c] == 0.0
      {
        if i != j {
          m[i, j] := haversine(points[i], points[j]);
        }
      }
    }
    var d, e := Rows(m), DistanceMatrix(points, haversine);
    forall i | 0 <= i < n
      ensures d[i] == e[i]
    {
      assert forall j :: 0 <= j < n ==> d[i][j] == e[i][j];
    }
  }

  /** The rows of a two-dimensional array. */
  function Rows(m: array2<real>): (d: seq<seq<real>>)
    reads m
    ensures |d| == m.Length0
    ensures forall i :: 0 <= i < |d| ==> |d[i]| == m.Length1
    ensures forall i, j :: 0 <= i < m.Length0 && 0 <= j < m.Length1 ==> d[i][j] == m[i, j]
  {
    seq(m.Length0, i requires 0 <= i < m.Length0 reads m =>
      seq(m.Length1, j requires 0 <= j < m.Length1 reads m => m[i, j]))
  }

  /** Minutes needed to cover `distKm` at `avgSpeedKmh`; infinite when the speed is not positive. */
  function TravelTime(distKm: real, avgSpeedKmh: real): (t: ExtReal)
    ensures t.Infinity? <==> avgSpeedKmh <= 0.0
    ensures t.Finite? ==> t.value * avgSpeedKmh == distKm * 60.0
    ensures t.Finite? && 0.0 <= distKm ==> 0.0 <= t.value
  {
    if avgSpeedKmh <= 0.0 then Infinity else Finite((distKm / avgSpeedKmh) * 60.0)
  }

  /** Travel time grows with distance at any fixed positive speed. */
  lemma TravelTimeMonotone(d1: real, d2: real, avgSpeedKmh: real)
    requires d1 <= d2 && 0.0 < avgSpeedKmh
    ensures TravelTime(d1, avgSpeedKmh).value <= TravelTime(d2, avgSpeedKmh).value
  {
  }
}
