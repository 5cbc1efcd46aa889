/** GeometryUtils: the even-odd ray-casting containment test and the
    axis-aligned bounding box of a boundary ring of (lat, lon) vertices. */
module Geometry {
  import opened Wrappers
  import opened Values

  /** A boundary vertex, stored (lat, lon) as the source's tuples are. */
  datatype Coord = Coord(lat: real, lon: real)

  /** The `1e-12` added to every edge's denominator. */
  const Epsilon: real := 1.0 / 1000000000000.0

  datatype EdgeOutcome = Crosses | Misses | DividesByZero

  /** The test of one edge from vertex `vi` to vertex `vj` against the ray
      cast from (x = lon, y = lat) toward increasing longitude. Python's
      `and` evaluates the division only when the edge straddles the ray's
      latitude; when `yj - yi + 1e-12` is then zero the division raises. */
  function EdgeTest(lat: real, lon: real, vi: Coord, vj: Coord): (r: EdgeOutcome)
    ensures vi.lat == vj.lat ==> r == Misses
    ensures r != Misses ==> ((vi.lat > lat) != (vj.lat > lat))
    ensures r == DividesByZero <==>
      ((vi.lat > lat) != (vj.lat > lat) && vi.lat - vj.lat == Epsilon)
  {
    var x, y := lon, lat;
    var xi, yi, xj, yj := vi.lon, vi.lat, vj.lon, vj.lat;
    if (yi > y) == (yj > y) then Misses
    else if yj - yi + Epsilon == 0.0 then DividesByZero
    else if x < (xj - xi) * (y - yi) / (yj - yi + Epsilon) + xi then Crosses
    else Misses
  }

  /** The index of the vertex before `k` on the ring (the source's `j`). */
  function Prev(k: nat, n: nat): (j: nat)
    requires k < n
    ensures j < n
  {
    if k == 0 then n - 1 else k - 1
  }

  /** Edge `k` of the ring runs from `poly[k]` back to `poly[k - 1 mod n]`. */
  function EdgeAt(lat: real, lon: real, poly: seq<Coord>, k: nat): EdgeOutcome
    requires k < |poly|
  {
    EdgeTest(lat, lon, poly[k], poly[Prev(k, |poly|)])
  }

  /** How many of the first `k` edges the ray crosses. */
  function CrossingCount(lat: real, lon: real, poly: seq<Coord>, k: nat): (c: nat)
    requires k <= |poly|
    ensures c <= k
  {
    if k == 0 then 0
    else CrossingCount(lat, lon, poly, k - 1) + (if EdgeAt(lat, lon, poly, k - 1) == Crosses then 1 else 0)
  }

  /** Some edge's division would raise ZeroDivisionError. */
  predicate DividesByZeroSomewhere(lat: real, lon: real, poly: seq<Coord>)
  {
    exists k :: 0 <= k < |poly| && EdgeAt(lat, lon, poly, k) == DividesByZero
  }

  /** The even-odd rule: inside exactly when the ray crosses an odd number of
      edges; the division by zero, if some edge meets it, escapes. */
  function RayCast(lat: real, lon: real, poly: seq<Coord>): (r: Result<bool, Exception>)
    ensures |poly| == 0 ==> r == Ok(false)
    ensures r.Err? ==> r.error == ZeroDivisionError
    ensures (forall k :: 0 <= k < |poly| ==> poly[k].lat > lat) ==> r == Ok(false)
    ensures (forall k :: 0 <= k < |poly| ==> poly[k].lat <= lat) ==> r == Ok(false)
  {
    var r := if DividesByZeroSomewhere(lat, lon, poly) then Err(ZeroDivisionError)
      else Ok(CrossingCount(lat, lon, poly, |poly|) % 2 == 1);
    if (forall k :: 0 <= k < |poly| ==> poly[k].lat > lat) || (forall k :: 0 <= k < |poly| ==> poly[k].lat <= lat) then
      NoStraddleNoCrossing(lat, lon, poly, |poly|);
      r
    else r
  }

  /** A ray whose latitude no edge straddles crosses nothing and divides by
      nothing. */
  lemma {:induction false} NoStraddleNoCrossing(lat: real, lon: real, poly: seq<Coord>, k: nat)
    requires k <= |poly|
    requires (forall i :: 0 <= i < |poly| ==> poly[i].lat > lat) || (forall i :: 0 <= i < |poly| ==> poly[i].lat <= lat)
    ensures CrossingCount(lat, lon, poly, k) == 0
    ensures forall i :: 0 <= i < k ==> EdgeAt(lat, lon, poly, i) == Misses
  {
    if k > 0 {
      NoStraddleNoCrossing(lat, lon, poly, k - 1);
      assert EdgeAt(lat, lon, poly, k - 1) == Misses;
    }
  }

  /** None of the first `k` edges divides by zero. */
  predicate DividesNowhereBefore(lat: real, lon: real, poly: seq<Coord>, k: nat)
    requires k <= |poly|
  {
    k == 0 || (DividesNowhereBefore(lat, lon, poly, k - 1) && EdgeAt(lat, lon, poly, k - 1) != DividesByZero)
  }

  lemma {:induction false} DividesNowhereBeforeAll(lat: real, lon: real, poly: seq<Coord>, k: nat)
    requires k <= |poly|
    ensures DividesNowhereBefore(lat, lon, poly, k) <==>
      forall i :: 0 <= i < k ==> EdgeAt(lat, lon, poly, i) != DividesByZero
  {
    if k > 0 {
      DividesNowhereBeforeAll(lat, lon, poly, k - 1);
    }
  }

  /** Whether the first `k` edges flip `inside` an odd number of times. */
  predicate OddAfter(lat: real, lon: real, poly: seq<Coord>, k: nat)
    requires k <= |poly|
  {
    if k == 0 then false
    else OddAfter(lat, lon, poly, k - 1) != (EdgeAt(lat, lon, poly, k - 1) == Crosses)
  }

  lemma {:induction false} OddAfterCount(lat: real, lon: real, poly: seq<Coord>, k: nat)
    requires k <= |poly|
    ensures OddAfter(lat, lon, poly, k) <==> CrossingCount(lat, lon, poly, k) % 2 == 1
  {
    if k > 0 {
      OddAfterCount(lat, lon, poly, k - 1);
      var c := CrossingCount(lat, lon, poly, k - 1);
      if EdgeAt(lat, lon, poly, k - 1) == Crosses {
        assert CrossingCount(lat, lon, poly, k) == c + 1;
        SuccessorParity(c);
      } else {
        assert CrossingCount(lat, lon, poly, k) == c;
      }
    }
  }

  lemma SuccessorParity(c: nat)
    ensures (c + 1) % 2 == 1 <==> c % 2 != 1
  {
  }

  /** `point_in_polygon`: toggles `inside` edge by edge, as the source does. */
  method PointInPolygon(lat: real, lon: real, poly: seq<Coord>) returns (r: Result<bool, Exception>)
    ensures |poly| == 0 ==> r == Ok(false)
    ensures r.Err? <==> DividesByZeroSomewhere(lat, lon, poly)
    ensures r.Err? ==> r.error == ZeroDivisionError
    ensures r.Ok? ==> (r.value <==> CrossingCount(lat, lon, poly, |poly|) % 2 == 1)
    ensures r == RayCast(lat, lon, poly)
  {
    var inside := false;
    var n := |poly|;
    if n == 0 {
      return Ok(false);
    }
    var j := n - 1;
    for i := 0 to n
      invariant i > 0 ==> j == i - 1
      invariant i == 0 ==> j == n - 1
      invariant inside == OddAfter(lat, lon, poly, i)
      invariant DividesNowhereBefore(lat, lon, poly, i)
    {
      // xi, yi from poly[i] and xj, yj from poly[j], with the short-circuit
      // `and` of the source: EdgeTest evaluates the division only on a
      // straddling edge
      var edge := EdgeTest(lat, lon, poly[i], poly[j]);
      assert edge == EdgeAt(lat, lon, poly, i);
      if edge == DividesByZero {
        DividesNowhereBeforeAll(lat, lon, poly, i + 1);
        return Err(ZeroDivisionError);
      }
      if edge == Crosses {
        inside := !inside;
      }
      j := i;
    }
    DividesNowhereBeforeAll(lat, lon, poly, n);
    OddAfterCount(lat, lon, poly, n);
    return Ok(inside);
  }

  /** With fewer than two vertices nothing is ever inside: the only edge of a
      one-vertex ring is horizontal. */
  lemma SingleVertexNeverInside(lat: real, lon: real, v: Coord)
    ensures RayCast(lat, lon, [v]) == Ok(false)
  {
    assert EdgeAt(lat, lon, [v], 0) == Misses;
  }

  /** The epsilon in the denominator is not free: on a two-vertex ring the two
      edges are the same segment, which exact arithmetic crosses an even
      number of times, yet a point just beside it is reported inside. */
  lemma TwoVertexRingCanContainAPoint()
    ensures RayCast(1.0 / 2.0, 1.0 / 2.0 - Epsilon / 2.0, [Coord(0.0, 0.0), Coord(1.0, 1.0)]) == Ok(true)
  {
    var poly := [Coord(0.0, 0.0), Coord(1.0, 1.0)];
    var lat, lon := 1.0 / 2.0, 1.0 / 2.0 - Epsilon / 2.0;
    assert EdgeAt(lat, lon, poly, 0) == Crosses;
    assert EdgeAt(lat, lon, poly, 1) == Misses;
    assert CrossingCount(lat, lon, poly, 2) == 1;
  }

  /** `[[min_lat, min_lon], [max_lat, max_lon]]`. */
  datatype Box = Box(lo: Coord, hi: Coord)

  function Lats(poly: seq<Coord>): (r: seq<real>)
    ensures |r| == |poly| && forall k :: 0 <= k < |poly| ==> r[k] == poly[k].lat
  {
    seq(|poly|, k requires 0 <= k < |poly| => poly[k].lat)
  }

  function Lons(poly: seq<Coord>): (r: seq<real>)
    ensures |r| == |poly| && forall k :: 0 <= k < |poly| ==> r[k] == poly[k].lon
  {
    seq(|poly|, k requires 0 <= k < |poly| => poly[k].lon)
  }

  /** Python's `min` over a non-empty list. */
  function Min(xs: seq<real>): (m: real)
    requires |xs| > 0
    ensures forall k :: 0 <= k < |xs| ==> m <= xs[k]
    ensures m in xs
  {
    if |xs| == 1 then xs[0]
    else
      var rest := Min(xs[1..]);
      assert forall k :: 1 <= k < |xs| ==> xs[k] == xs[1..][k - 1];
      if rest < xs[0] then rest else xs[0]
  }

  /** Python's `max` over a non-empty list. */
  function Max(xs: seq<real>): (m: real)
    requires |xs| > 0
    ensures forall k :: 0 <= k < |xs| ==> xs[k] <= m
    ensures m in xs
  {
    if |xs| == 1 then xs[0]
    else
      var rest := Max(xs[1..]);
      assert forall k :: 1 <= k < |xs| ==> xs[k] == xs[1..][k - 1];
      if rest > xs[0] then rest else xs[0]
  }

  /** `calculate_bounding_box`: the smallest axis-aligned box holding every
      vertex, each bound attained by a vertex; `[[0,0],[0,0]]` when empty. */
  function BoundingBox(poly: seq<Coord>): (b: Box)
    ensures poly == [] ==> b == Box(Coord(0.0, 0.0), Coord(0.0, 0.0))
    ensures forall v :: v in poly ==>
      b.lo.lat <= v.lat <= b.hi.lat && b.lo.lon <= v.lon <= b.hi.lon
    ensures poly != [] ==>
      (exists v :: v in poly && v.lat == b.lo.lat) &&
      (exists v :: v in poly && v.lat == b.hi.lat) &&
      (exists v :: v in poly && v.lon == b.lo.lon) &&
      (exists v :: v in poly && v.lon == b.hi.lon)
  {
    if poly == [] then Box(Coord(0.0, 0.0), Coord(0.0, 0.0))
    else
      var lats, lons := Lats(poly), Lons(poly);
      var b := Box(Coord(Min(lats), Min(lons)), Coord(Max(lats), Max(lons)));
      assert forall v :: v in poly ==> v.lat in lats && v.lon in lons;
      b
  }
}
