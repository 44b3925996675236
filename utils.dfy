/** Geometry and coordinate conversion (src/utils.rs). Coordinates are `f64` in the
    source and `real` here; a point is an `(x, y)` pair. The physical width, a
    process-wide value, is passed in as `w`. */
module Utils {

  type Point = (real, real)

  /** The bias subtracted from the crossing abscissa, `1e-10`. */
  const Epsilon: real := 0.0000000001

  /** `Convert::from_viewport`: scale both axes by the width, with no clamping. */
  function FromViewport(w: real, p: Point): (r: Point)
    ensures w != 0.0 ==> r.0 / w == p.0 && r.1 / w == p.1
  {
    (p.0 * w, p.1 * w)
  }

  /** The clamp `to_viewport` applies to each axis. */
  function Clamp(v: real): (r: real)
    ensures 0.0 <= r <= 1.0
    ensures 0.0 <= v <= 1.0 ==> r == v
    ensures v < 0.0 ==> r == 0.0
    ensures v > 1.0 ==> r == 1.0
  {
    if v < 0.0 then 0.0 else if v > 1.0 then 1.0 else v
  }

  /** The value `to_viewport` computes. */
  function Viewport(w: real, p: Point): Point
    requires w > 0.0
  {
    (Clamp(p.0 / w), Clamp(p.1 / w))
  }

  /** `Convert::to_viewport`: divide by the width, then clamp each axis into [0, 1]
      by reassigning it, as the source does. */
  method ToViewport(w: real, x: real, y: real) returns (vx: real, vy: real)
    requires w > 0.0
    ensures 0.0 <= vx <= 1.0 && 0.0 <= vy <= 1.0
    ensures (vx, vy) == Viewport(w, (x, y))
  {
    vx := x / w;
    if vx < 0.0 {
      vx := 0.0;
    }
    if vx > 1.0 {
      vx := 1.0;
    }

    vy := y / w;
    if vy < 0.0 {
      vy := 0.0;
    }
    if vy > 1.0 {
      vy := 1.0;
    }
  }

  /** Coordinates already in the unit square survive the trip to physical space and back. */
  lemma ViewportRoundTrip(w: real, p: Point)
    requires w > 0.0
    requires 0.0 <= p.0 <= 1.0 && 0.0 <= p.1 <= 1.0
    ensures Viewport(w, FromViewport(w, p)) == p
  {
    var q := FromViewport(w, p);
    assert q.0 / w == p.0 && q.1 / w == p.1;
  }

  /** Whether the horizontal ray from `p` crosses edge `i` (from vertex `i` to vertex
      `i + 1` modulo the vertex count). The division is guarded by the first conjunct:
      it is only evaluated when the edge's end points lie on opposite sides of the ray,
      so their ordinates differ. */
  predicate EdgeCrosses(polygon: seq<Point>, i: nat, p: Point)
    requires i < |polygon|
    ensures EdgeCrosses(polygon, i, p) ==> polygon[i].1 != polygon[(i + 1) % |polygon|].1
  {
    var j := (i + 1) % |polygon|;
    Crosses(polygon[i].0, polygon[i].1, polygon[j].0, polygon[j].1, p.0, p.1)
  }

  /** The crossing test for the edge from `(xi, yi)` to `(xj, yj)` and the point `(px, py)`:
      the edge straddles the ray and the point lies left of the biased crossing abscissa. */
  predicate Crosses(xi: real, yi: real, xj: real, yj: real, px: real, py: real)
  {
    ((yi > py) != (yj > py)) && (px < CrossingX(xi, yi, xj, yj, py) - Epsilon)
  }

  /** Where the line through `(xi, yi)` and `(xj, yj)` meets the horizontal line at `py`;
      the division needs distinct ordinates. */
  function CrossingX(xi: real, yi: real, xj: real, yj: real, py: real): real
    requires yi != yj
  {
    (xj - xi) * (py - yi) / (yj - yi) + xi
  }

  /** How many of the first `k` edges the ray from `p` crosses. */
  function Crossings(polygon: seq<Point>, p: Point, k: nat): nat
    requires k <= |polygon|
  {
    if k == 0 then 0
    else Crossings(polygon, p, k - 1) + (if EdgeCrosses(polygon, k - 1, p) then 1 else 0)
  }

  /** The ray-casting rule: inside exactly when an odd number of edges is crossed. */
  predicate InPolygon(polygon: seq<Point>, p: Point)
  {
    Crossings(polygon, p, |polygon|) % 2 == 1
  }

  /** `is_point_in_polygon`: a loop over the edges that flips `inside` at each crossing. */
  method IsPointInPolygon(polygon: seq<Point>, point: Point) returns (inside: bool)
    ensures inside == InPolygon(polygon, point)
    ensures polygon == [] ==> !inside
  {
    inside := false;
    var n := |polygon|;
    var epsilon := Epsilon;

    for i := 0 to n
      invariant inside == (Crossings(polygon, point, i) % 2 == 1)
    {
      var j := (i + 1) % n;
      var xi := polygon[i].0;
      var yi := polygon[i].1;
      var xj := polygon[j].0;
      var yj := polygon[j].1;

      var pointX := point.0;
      var pointY := point.1;

      var intersect := ((yi > pointY) != (yj > pointY))
        && (pointX < CrossingX(xi, yi, xj, yj, pointY) - epsilon);
      assert intersect == EdgeCrosses(polygon, i, point);
      if intersect {
        inside := !inside;
      }
    }
  }

  /** A polygon whose vertices all share one ordinate is crossed nowhere. */
  lemma {:induction false} FlatPolygonNoCrossings(polygon: seq<Point>, p: Point, k: nat)
    requires k <= |polygon|
    requires forall i :: 0 <= i < |polygon| ==> polygon[i].1 == polygon[0].1
    ensures Crossings(polygon, p, k) == 0
  {
    if k > 0 {
      FlatPolygonNoCrossings(polygon, p, k - 1);
      var j := k % |polygon|;
      assert polygon[k - 1].1 == polygon[j].1;
    }
  }

  /** Hence such a polygon contains no point. */
  lemma FlatPolygonOutside(polygon: seq<Point>, p: Point)
    requires forall i :: 0 <= i < |polygon| ==> polygon[i].1 == polygon[0].1
    ensures !InPolygon(polygon, p)
  {
    FlatPolygonNoCrossings(polygon, p, |polygon|);
  }

  /** The unit square contains its centre and not a point to its right. */
  lemma UnitSquareExamples()
    ensures var square := [(0.0, 0.0), (1.0, 0.0), (1.0, 1.0), (0.0, 1.0)];
      InPolygon(square, (0.5, 0.5)) && !InPolygon(square, (1.5, 0.5))
  {
    var square := [(0.0, 0.0), (1.0, 0.0), (1.0, 1.0), (0.0, 1.0)];
    assert Crossings(square, (0.5, 0.5), 4) == 1 by {
      assert Crossings(square, (0.5, 0.5), 1) == 0;
      assert Crossings(square, (0.5, 0.5), 2) == 1;
      assert Crossings(square, (0.5, 0.5), 3) == 1;
    }
    assert Crossings(square, (1.5, 0.5), 4) == 0 by {
      assert Crossings(square, (1.5, 0.5), 1) == 0;
      assert Crossings(square, (1.5, 0.5), 2) == 0;
      assert Crossings(square, (1.5, 0.5), 3) == 0;
    }
  }
}
