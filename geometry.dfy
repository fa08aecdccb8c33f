/**
 * The draggable triangle of `components/interactive/InteractiveGeometry.tsx`: its shoelace
 * area, the clamping of a dragged vertex to the drawing area, and the update that moves one
 * vertex. Coordinates are exact reals; where the pointer is comes in as a parameter.
 */
module Geometry {

  datatype Point = Point(x: real, y: real)

  /** The triangle shown before any drag. */
  const InitialPoints: seq<Point> := [Point(80.0, 160.0), Point(200.0, 40.0), Point(320.0, 160.0)]

  function Abs(r: real): real {
    if r < 0.0 then -r else r
  }

  /** The shoelace formula: |x1(y2 - y3) + x2(y3 - y1) + x3(y1 - y2)| / 2. */
  function Area(p1: Point, p2: Point, p3: Point): (area: real)
    ensures area >= 0.0
  {
    Abs((p1.x * (p2.y - p3.y) + p2.x * (p3.y - p1.y) + p3.x * (p1.y - p2.y)) / 2.0)
  }

  /** The z-component of the cross product (b - a) × (c - a): twice the signed area. */
  function Cross(a: Point, b: Point, c: Point): real {
    (b.x - a.x) * (c.y - a.y) - (b.y - a.y) * (c.x - a.x)
  }

  /** The shoelace area is half the magnitude of the cross product of two edges. */
  lemma AreaIsHalfCross(p1: Point, p2: Point, p3: Point)
    ensures Area(p1, p2, p3) == Abs(Cross(p1, p2, p3)) / 2.0
  {
    assert p1.x * (p2.y - p3.y) + p2.x * (p3.y - p1.y) + p3.x * (p1.y - p2.y) == Cross(p1, p2, p3);
  }

  /** The area vanishes exactly when the three vertices are collinear. */
  lemma ZeroAreaIffCollinear(p1: Point, p2: Point, p3: Point)
    ensures Area(p1, p2, p3) == 0.0 <==> Cross(p1, p2, p3) == 0.0
  {
    AreaIsHalfCross(p1, p2, p3);
  }

  /** The area does not depend on the order in which the vertices are listed. */
  lemma AreaIgnoresOrder(p1: Point, p2: Point, p3: Point)
    ensures Area(p1, p2, p3) == Area(p2, p3, p1) == Area(p2, p1, p3)
  {
    var s := p1.x * (p2.y - p3.y) + p2.x * (p3.y - p1.y) + p3.x * (p1.y - p2.y);
    assert p2.x * (p3.y - p1.y) + p3.x * (p1.y - p2.y) + p1.x * (p2.y - p3.y) == s;
    assert p2.x * (p1.y - p3.y) + p1.x * (p3.y - p2.y) + p3.x * (p2.y - p1.y) == -s;
  }

  /** Moving the whole triangle does not change its area. */
  lemma AreaIgnoresTranslation(p1: Point, p2: Point, p3: Point, dx: real, dy: real)
    ensures Area(Point(p1.x + dx, p1.y + dy), Point(p2.x + dx, p2.y + dy), Point(p3.x + dx, p3.y + dy))
            == Area(p1, p2, p3)
  {
    AreaIsHalfCross(p1, p2, p3);
    AreaIsHalfCross(Point(p1.x + dx, p1.y + dy), Point(p2.x + dx, p2.y + dy), Point(p3.x + dx, p3.y + dy));
  }

  /** The initial triangle has base 240 and height 120. */
  lemma InitialArea()
    ensures Area(InitialPoints[0], InitialPoints[1], InitialPoints[2]) == 14400.0
  {
  }

  /** `Math.max(lo, Math.min(hi, v))`. */
  function Clamp(v: real, lo: real, hi: real): (r: real)
    requires lo <= hi
    ensures lo <= r <= hi
    ensures lo <= v <= hi ==> r == v
    ensures v < lo ==> r == lo
    ensures v > hi ==> r == hi
  {
    var m := if hi < v then hi else v;
    if lo > m then lo else m
  }

  /** A pointer position limited to the drawing area: x in [10, 390], y in [10, 210]. */
  function ClampToCanvas(x: real, y: real): (p: Point)
    ensures 10.0 <= p.x <= 390.0 && 10.0 <= p.y <= 210.0
    ensures 10.0 <= x <= 390.0 && 10.0 <= y <= 210.0 ==> p == Point(x, y)
  {
    Point(Clamp(x, 10.0, 390.0), Clamp(y, 10.0, 210.0))
  }

  predicate OnCanvas(p: Point) {
    10.0 <= p.x <= 390.0 && 10.0 <= p.y <= 210.0
  }

  /**
   * The drag update: the vertex at `index` goes to the clamped pointer position; the other
   * vertices stay, and an index naming no vertex changes nothing.
   */
  function MoveVertex(points: seq<Point>, index: int, x: real, y: real): (r: seq<Point>)
    ensures |r| == |points|
    ensures forall i :: 0 <= i < |points| && i != index ==> r[i] == points[i]
    ensures 0 <= index < |points| ==> r[index] == ClampToCanvas(x, y)
    ensures (forall i :: 0 <= i < |points| ==> OnCanvas(points[i])) ==> (forall i :: 0 <= i < |r| ==> OnCanvas(r[i]))
  {
    seq(|points|, i requires 0 <= i < |points| => if i == index then ClampToCanvas(x, y) else points[i])
  }

  /** Every vertex stays on the canvas through any sequence of drags, starting from the initial triangle. */
  lemma {:induction false} DragsStayOnCanvas(moves: seq<(int, real, real)>)
    ensures var ps := Drag(InitialPoints, moves);
      |ps| == 3 && forall i :: 0 <= i < 3 ==> OnCanvas(ps[i])
  {
    DragsKeepCanvas(InitialPoints, moves);
  }

  function Drag(points: seq<Point>, moves: seq<(int, real, real)>): seq<Point>
    decreases |moves|
  {
    if moves == [] then points
    else Drag(MoveVertex(points, moves[0].0, moves[0].1, moves[0].2), moves[1..])
  }

  lemma {:induction false} DragsKeepCanvas(points: seq<Point>, moves: seq<(int, real, real)>)
    requires forall i :: 0 <= i < |points| ==> OnCanvas(points[i])
    ensures var ps := Drag(points, moves);
      |ps| == |points| && forall i :: 0 <= i < |ps| ==> OnCanvas(ps[i])
    decreases |moves|
  {
    if moves != [] {
      DragsKeepCanvas(MoveVertex(points, moves[0].0, moves[0].1, moves[0].2), moves[1..]);
    }
  }
}
