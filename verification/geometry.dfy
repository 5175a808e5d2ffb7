/**
 * Planar data the pipeline passes around: points, polygons with holes (shapely's
 * `Polygon`) and axis-aligned boxes (shapely's `bounds` tuple). Coordinates are
 * ideal reals; the area is the shoelace formula GEOS uses, shell minus holes.
 */
module Geometry {
  import opened Wrappers

  datatype Point = Point(x: real, y: real)

  /** A ring as shapely reports it in `coords`: closed, first point repeated last. */
  type Ring = seq<Point>

  datatype Polygon = Polygon(exterior: Ring, interiors: seq<Ring>)

  /** `bounds` = (minx, miny, maxx, maxy). */
  datatype Box = Box(minX: real, minY: real, maxX: real, maxY: real)

  const EmptyPolygon: Polygon := Polygon([], [])

  /** A shapely geometry is falsy exactly when it is empty. */
  predicate IsEmpty(p: Polygon) {
    |p.exterior| == 0
  }

  predicate IsClosed(ring: Ring) {
    |ring| > 0 && ring[0] == ring[|ring| - 1]
  }

  /** What `LinearRing` does to its input: repeat the first point at the end unless already there. */
  function CloseRing(pts: seq<Point>): (ring: Ring)
    ensures |ring| == |pts| || |ring| == |pts| + 1
    ensures |pts| > 0 ==> IsClosed(ring)
    ensures ring[..|pts|] == pts
  {
    if |pts| > 0 && pts[0] != pts[|pts| - 1] then pts + [pts[0]] else pts
  }

  /**
   * `Polygon(points)`. A non-empty ring that has fewer than 4 coordinates once closed
   * makes shapely raise; `None` stands for that error.
   */
  function PolygonFromPoints(pts: seq<Point>): (r: Option<Polygon>)
    ensures |pts| == 0 ==> r == Some(EmptyPolygon)
    ensures r.None? <==> 0 < |CloseRing(pts)| < 4
    ensures r.Some? && |pts| > 0 ==> IsClosed(r.value.exterior) && |r.value.exterior| >= 4
    ensures r.Some? ==> |pts| <= |r.value.exterior| && r.value.interiors == []
    ensures r.Some? ==> forall i :: 0 <= i < |pts| ==> r.value.exterior[i] == pts[i]
  {
    if |pts| == 0 then Some(EmptyPolygon)
    else
      var ring := CloseRing(pts);
      assert forall i :: 0 <= i < |pts| ==> ring[i] == ring[..|pts|][i];
      if |ring| < 4 then None else Some(Polygon(ring, []))
  }

  function Abs(r: real): real {
    if r < 0.0 then -r else r
  }

  /** Twice the signed (shoelace) area enclosed by the consecutive edges of a ring. */
  function TwiceSignedArea(ring: Ring): real
  {
    if |ring| < 2 then 0.0
    else ring[0].x * ring[1].y - ring[1].x * ring[0].y + TwiceSignedArea(ring[1..])
  }

  function RingArea(ring: Ring): real {
    Abs(TwiceSignedArea(ring)) / 2.0
  }

  function HolesArea(holes: seq<Ring>): real {
    if |holes| == 0 then 0.0 else RingArea(holes[0]) + HolesArea(holes[1..])
  }

  /** `Polygon.area`: the shell's area less the holes' areas. */
  function Area(p: Polygon): real {
    RingArea(p.exterior) - HolesArea(p.interiors)
  }

  /** `shapely.geometry.box(minx, miny, maxx, maxy)`: a counter-clockwise ring starting at (maxx, miny). */
  function BoxPolygon(minX: real, minY: real, maxX: real, maxY: real): Polygon {
    Polygon([Point(maxX, minY), Point(maxX, maxY), Point(minX, maxY), Point(minX, minY), Point(maxX, minY)], [])
  }

  /** The box spanned from (x, y) by a width and a height has area |width * height|. */
  lemma {:induction false} BoxPolygonArea(x: real, y: real, w: real, h: real)
    ensures Area(BoxPolygon(x, y, x + w, y + h)) == Abs(w * h)
  {
    var ring := BoxPolygon(x, y, x + w, y + h).exterior;
    var a, b, c, d := x, x + w, y, y + h;
    assert ring[4..][1..] == [];
    assert TwiceSignedArea(ring[4..]) == 0.0;
    assert TwiceSignedArea(ring[3..]) == a * c - b * c;
    assert TwiceSignedArea(ring[2..]) == a * c - a * d + a * c - b * c;
    assert TwiceSignedArea(ring[1..]) == b * d - a * d + a * c - a * d + a * c - b * c;
    assert TwiceSignedArea(ring) == b * d - b * c + b * d - a * d + a * c - a * d + a * c - b * c;
    assert TwiceSignedArea(ring) == 2.0 * (w * h);
  }
}
