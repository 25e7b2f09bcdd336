/** Line-segment intersection by a sweep line (sweepline/linesegmentintersection.go).
    Coordinates are `real`. Points and segments carry an `id` standing for the
    object the source compares by pointer. The event queue, a binary search
    tree ordered by comparePoints as the source writes it
    (ComparePointsAsWritten), is held as its in-order sequence. The line
    status tree is held as the set of segments that have a node in it. */
module SweepLine {
  import opened Results
  import opened Util

  /** A 2-vector with identity; two values with the same id are the same object. */
  datatype Point = Point(id: nat, x: real, y: real)

  /** The slope of a LineSegment; the source stores +Inf as gradient and
      intercept of a vertical segment. */
  datatype Slope = Sloped(gradient: real, yIntercept: real) | Vertical

  /** LineSegment: start lies left of end (or level with it). */
  datatype Segment = Segment(id: nat, start: Point, end: Point, slope: Slope)

  /** The sweep's right-hand limit: +Inf until SetMaxSweeplineX. */
  datatype Bound = Unbounded | AtMost(x: real)

  /** The elements of a sequence. */
  function Elems<T>(s: seq<T>): set<T>
  {
    set x | x in s
  }

  /** p lies on the infinite line described by slope. */
  predicate OnLine(slope: Slope, p: Point)
  {
    slope.Sloped? && p.y == slope.gradient * p.x + slope.yIntercept
  }

  /** NewLineSegment: orders the end points by x and computes the slope. */
  function NewLineSegment(id: nat, startPoint: Point, endPoint: Point): (ls: Segment)
    ensures ls.id == id && ls.start.x <= ls.end.x
    ensures (ls.start == startPoint && ls.end == endPoint) ||
            (ls.start == endPoint && ls.end == startPoint)
    ensures startPoint.x < endPoint.x ==> ls.start == startPoint
    ensures ls.slope.Vertical? <==> startPoint.x == endPoint.x
  {
    var cx := if endPoint.x == startPoint.x then 0.0 else endPoint.x - startPoint.x;
    var cy := if startPoint.y == endPoint.y then 0.0 else endPoint.y - startPoint.y;
    var slope :=
      if cx != 0.0 then
        var g := cy / cx;
        Sloped(g, if g == 0.0 then startPoint.y else startPoint.y - g * startPoint.x)
      else Vertical;
    if startPoint.x < endPoint.x then Segment(id, startPoint, endPoint, slope)
    else Segment(id, endPoint, startPoint, slope)
  }

  /** The line a non-vertical segment's gradient and intercept describe runs
      through both of its end points. */
  lemma NewLineSegmentOnLine(id: nat, startPoint: Point, endPoint: Point)
    requires startPoint.x != endPoint.x
    ensures OnLine(NewLineSegment(id, startPoint, endPoint).slope, startPoint)
    ensures OnLine(NewLineSegment(id, startPoint, endPoint).slope, endPoint)
  {
    var cx := endPoint.x - startPoint.x;
    var cy := endPoint.y - startPoint.y;
    var g := cy / cx;
    assert g * cx == cy;
    var slope := NewLineSegment(id, startPoint, endPoint).slope;
    assert slope.gradient == g;
    if g == 0.0 {
      assert cy == 0.0;
    } else {
      assert slope.yIntercept == startPoint.y - g * startPoint.x;
      calc {
        g * endPoint.x + slope.yIntercept;
        g * (endPoint.x - startPoint.x) + startPoint.y;
        cy + startPoint.y;
      }
    }
  }

  /** direction: the cross product of p2 - p0 with p1 - p0; zero exactly
      when the three points are collinear. */
  function Direction(p0: Point, p1: Point, p2: Point): real
  {
    Cross2(p2.x - p0.x, p2.y - p0.y, p1.x - p0.x, p1.y - p0.y)
  }

  /** Swapping the two far points turns the direction round; a segment's own
      end points are collinear with it. */
  lemma DirectionProperties(p0: Point, p1: Point, p2: Point)
    ensures Direction(p0, p1, p2) == -Direction(p0, p2, p1)
    ensures Direction(p0, p1, p0) == 0.0 && Direction(p0, p1, p1) == 0.0
  {
  }

  function Min(a: real, b: real): real
  {
    if a <= b then a else b
  }

  function Max(a: real, b: real): real
  {
    if a <= b then b else a
  }

  /** c lies between a and b, in either order. */
  predicate Between(a: real, b: real, c: real)
  {
    (a <= c <= b) || (b <= c <= a)
  }

  /** onSegment: p2 lies in the closed bounding box of p0 and p1. */
  function OnSegment(p0: Point, p1: Point, p2: Point): (r: bool)
    ensures r <==> Between(p0.x, p1.x, p2.x) && Between(p0.y, p1.y, p2.y)
  {
    Min(p0.x, p1.x) <= p2.x <= Max(p0.x, p1.x) &&
    Min(p0.y, p1.y) <= p2.y <= Max(p0.y, p1.y)
  }

  /** The box does not depend on the order of its corners and holds them. */
  lemma OnSegmentProperties(p0: Point, p1: Point, p2: Point)
    ensures OnSegment(p0, p1, p2) == OnSegment(p1, p0, p2)
    ensures OnSegment(p0, p1, p0) && OnSegment(p0, p1, p1)
  {
  }

  /** insideSegment: p2 is in the box of p0 and p1 without being either
      object. */
  function InsideSegment(p0: Point, p1: Point, p2: Point): (r: bool)
    ensures r ==> OnSegment(p0, p1, p2)
    ensures p2.id == p0.id || p2.id == p1.id ==> !r
    ensures p2.id != p0.id && p2.id != p1.id && OnSegment(p0, p1, p2) ==> r
  {
    if p2.id == p0.id || p2.id == p1.id then false else OnSegment(p0, p1, p2)
  }

  /** a and b have strictly opposite signs. */
  predicate Opposite(a: real, b: real)
  {
    (a > 0.0 && b < 0.0) || (a < 0.0 && b > 0.0)
  }

  /** An end point of l lies on l1's line within l1's box. */
  predicate Touches(l: Segment, l1: Segment)
  {
    (Direction(l1.start, l1.end, l.start) == 0.0 && OnSegment(l1.start, l1.end, l.start)) ||
    (Direction(l1.start, l1.end, l.end) == 0.0 && OnSegment(l1.start, l1.end, l.end))
  }

  /** Intersects: the segments straddle each other's lines, or an end point
      of one lies on the other. */
  function Intersects(l: Segment, l1: Segment): (r: bool)
    ensures r <==>
      (Opposite(Direction(l1.start, l1.end, l.start), Direction(l1.start, l1.end, l.end)) &&
       Opposite(Direction(l.start, l.end, l1.start), Direction(l.start, l.end, l1.end))) ||
      Touches(l, l1) || Touches(l1, l)
  {
    var d1 := Direction(l1.start, l1.end, l.start);
    var d2 := Direction(l1.start, l1.end, l.end);
    var d3 := Direction(l.start, l.end, l1.start);
    var d4 := Direction(l.start, l.end, l1.end);
    if ((d1 > 0.0 && d2 < 0.0) || (d1 < 0.0 && d2 > 0.0)) &&
       ((d3 > 0.0 && d4 < 0.0) || (d3 < 0.0 && d4 > 0.0)) then true
    else if d1 == 0.0 && OnSegment(l1.start, l1.end, l.start) then true
    else if d2 == 0.0 && OnSegment(l1.start, l1.end, l.end) then true
    else if d3 == 0.0 && OnSegment(l.start, l.end, l1.start) then true
    else if d4 == 0.0 && OnSegment(l.start, l.end, l1.end) then true
    else false
  }

  /** Intersection does not depend on the order of the segments; a segment
      meets itself and every segment sharing an end point with it. */
  lemma IntersectsProperties(l: Segment, l1: Segment)
    ensures Intersects(l, l1) == Intersects(l1, l)
    ensures Intersects(l, l)
    ensures l.end.x == l1.start.x && l.end.y == l1.start.y ==> Intersects(l, l1)
  {
    DirectionProperties(l.start, l.end, l.start);
    DirectionProperties(l.start, l.end, l.end);
    OnSegmentProperties(l.start, l.end, l.start);
  }

  /** The differences IntersectionPoint solves its two equations with:
      l0's extent (x0, y0), l1's extent (x1, y1), start offset (xi, yi),
      and t = tTop / tBottom. */
  function TTop(l0: Segment, l1: Segment): real
  {
    (l1.start.y - l0.start.y) * (l0.end.x - l0.start.x) -
    (l0.end.y - l0.start.y) * (l1.start.x - l0.start.x)
  }

  function TBottom(l0: Segment, l1: Segment): real
  {
    (l1.end.x - l1.start.x) * (l0.end.y - l0.start.y) -
    (l1.end.y - l1.start.y) * (l0.end.x - l0.start.x)
  }

  /** The point p + f * (q - p), a new vector `id`. */
  function Along(p: Point, q: Point, f: real, id: nat): Point
  {
    Point(id, p.x + (q.x - p.x) * f, p.y + (q.y - p.y) * f)
  }

  /** t = tTop / tBottom: where the crossing lies along l1. */
  function T(l0: Segment, l1: Segment): real
    requires TBottom(l0, l1) != 0.0
  {
    TTop(l0, l1) / TBottom(l0, l1)
  }

  /** s = (t * y1 + yi) / y0: where the crossing lies along l0, from the y
      equation. */
  function S(l0: Segment, l1: Segment): real
    requires TBottom(l0, l1) != 0.0 && l0.end.y - l0.start.y != 0.0
  {
    (T(l0, l1) * (l1.end.y - l1.start.y) + (l1.start.y - l0.start.y)) / (l0.end.y - l0.start.y)
  }

  /** IntersectionPoint as written: l0.start + s * (x0, y0), with s from the
      y equation, which divides by l0's height y0. None where the source
      divides by zero (its point would be infinite or NaN), or where the
      segments do not intersect (nil). */
  function IntersectionPointAsWritten(l0: Segment, l1: Segment, id: nat): (r: Option<Point>)
    ensures r.Some? ==> Intersects(l0, l1) && r.value.id == id
    ensures r.Some? ==> l0.end.y != l0.start.y
  {
    if !Intersects(l0, l1) then None
    else if TBottom(l0, l1) == 0.0 || l0.end.y - l0.start.y == 0.0 then None
    else Some(Along(l0.start, l0.end, S(l0, l1), id))
  }

  /** IntersectionPoint, corrected: l1.start + t * (x1, y1), which needs no
      division by y0. None where the segments do not intersect or are
      parallel (no single point). */
  function IntersectionPoint(l0: Segment, l1: Segment, id: nat): (r: Option<Point>)
    ensures r.Some? <==> Intersects(l0, l1) && TBottom(l0, l1) != 0.0
    ensures r.Some? ==> r.value.id == id
  {
    if !Intersects(l0, l1) || TBottom(l0, l1) == 0.0 then None
    else Some(Along(l1.start, l1.end, T(l0, l1), id))
  }

  /** The corrected point lies on the lines of both segments. */
  lemma IntersectionPointOnBoth(l0: Segment, l1: Segment, id: nat)
    requires IntersectionPoint(l0, l1, id).Some?
    ensures Direction(l0.start, l0.end, IntersectionPoint(l0, l1, id).value) == 0.0
    ensures Direction(l1.start, l1.end, IntersectionPoint(l0, l1, id).value) == 0.0
  {
    var p := IntersectionPoint(l0, l1, id).value;
    var x0, y0 := l0.end.x - l0.start.x, l0.end.y - l0.start.y;
    var x1, y1 := l1.end.x - l1.start.x, l1.end.y - l1.start.y;
    var xi, yi := l1.start.x - l0.start.x, l1.start.y - l0.start.y;
    var t := T(l0, l1);
    DivMul(TTop(l0, l1), TBottom(l0, l1));
    CrossingOnBoth(xi, yi, x0, y0, x1, y1, t);
    assert p.x - l0.start.x == xi + x1 * t && p.y - l0.start.y == yi + y1 * t;
    assert p.x - l1.start.x == x1 * t && p.y - l1.start.y == y1 * t;
  }

  /** With t solving the crossing equation t * (x1 * y0 - y1 * x0) ==
      yi * x0 - y0 * xi, the point at t along (x1, y1) from (xi, yi) lies on
      the line through the origin along (x0, y0); and any point along
      (x1, y1) lies on that direction's own line. */
  lemma CrossingOnBoth(xi: real, yi: real, x0: real, y0: real, x1: real, y1: real, t: real)
    requires t * (x1 * y0 - y1 * x0) == yi * x0 - y0 * xi
    ensures Cross2(xi + x1 * t, yi + y1 * t, x0, y0) == 0.0
    ensures Cross2(x1 * t, y1 * t, x1, y1) == 0.0
  {
    assert Cross2(xi + x1 * t, yi + y1 * t, x0, y0) == (xi * y0 - yi * x0) + t * (x1 * y0 - y1 * x0);
  }

  /** The step from the y equation to the x equation: with t solving both
      equations, s from the y equation also satisfies the x equation. */
  lemma SolvedX(x0: real, y0: real, x1: real, y1: real, xi: real, yi: real, t: real, s: real)
    requires y0 != 0.0
    requires t * (x1 * y0 - y1 * x0) == yi * x0 - y0 * xi
    requires s * y0 == t * y1 + yi
    ensures x0 * s == xi + t * x1
  {
    assert x0 * (t * y1 + yi) - y0 * (xi + t * x1) == -(t * (x1 * y0 - y1 * x0)) + (yi * x0 - y0 * xi);
    assert (x0 * s) * y0 == x0 * (s * y0);
    assert (x0 * s) * y0 == (xi + t * x1) * y0;
  }

  /** Both ways of writing the point give the same coordinates: from l0's
      start along s, and from l1's start along t. */
  lemma PointsAgree(s0x: real, s0y: real, s1x: real, s1y: real,
                    x0: real, y0: real, x1: real, y1: real, t: real, s: real)
    requires y0 != 0.0
    requires t * (x1 * y0 - y1 * x0) == (s1y - s0y) * x0 - y0 * (s1x - s0x)
    requires s * y0 == t * y1 + (s1y - s0y)
    ensures s0x + x0 * s == s1x + x1 * t
    ensures s0y + y0 * s == s1y + y1 * t
  {
    SolvedX(x0, y0, x1, y1, s1x - s0x, s1y - s0y, t, s);
  }

  /** Division undone. */
  lemma DivMul(a: real, b: real)
    requires b != 0.0
    ensures (a / b) * b == a
  {
  }

  /** Where the source's division by y0 is defined, its arithmetic lands on
      the same point as the crossing along l1. */
  lemma AlongAgrees(l0: Segment, l1: Segment, id: nat)
    requires TBottom(l0, l1) != 0.0 && l0.end.y - l0.start.y != 0.0
    ensures Along(l0.start, l0.end, S(l0, l1), id) == Along(l1.start, l1.end, T(l0, l1), id)
  {
    var x0, y0 := l0.end.x - l0.start.x, l0.end.y - l0.start.y;
    var x1, y1 := l1.end.x - l1.start.x, l1.end.y - l1.start.y;
    var yi := l1.start.y - l0.start.y;
    var t, s := T(l0, l1), S(l0, l1);
    DivMul(TTop(l0, l1), TBottom(l0, l1));
    DivMul(t * y1 + yi, y0);
    PointsAgree(l0.start.x, l0.start.y, l1.start.x, l1.start.y, x0, y0, x1, y1, t, s);
  }

  /** Where the source's division by y0 is defined, it computes the same
      point as the corrected definition. */
  lemma IntersectionPointAgrees(l0: Segment, l1: Segment, id: nat)
    requires IntersectionPointAsWritten(l0, l1, id).Some?
    ensures IntersectionPointAsWritten(l0, l1, id) == IntersectionPoint(l0, l1, id)
  {
    AlongAgrees(l0, l1, id);
  }

  /** A horizontal first segment crossed by a vertical one: the source
      divides 0 by 0, while the intersection is (1, 0). */
  lemma IntersectionPointHorizontal()
    ensures Intersects(Segment(0, Point(0, 0.0, 0.0), Point(1, 2.0, 0.0), Sloped(0.0, 0.0)),
                       Segment(1, Point(2, 1.0, -1.0), Point(3, 1.0, 1.0), Vertical))
    ensures IntersectionPointAsWritten(
              Segment(0, Point(0, 0.0, 0.0), Point(1, 2.0, 0.0), Sloped(0.0, 0.0)),
              Segment(1, Point(2, 1.0, -1.0), Point(3, 1.0, 1.0), Vertical), 4).None?
    ensures IntersectionPoint(
              Segment(0, Point(0, 0.0, 0.0), Point(1, 2.0, 0.0), Sloped(0.0, 0.0)),
              Segment(1, Point(2, 1.0, -1.0), Point(3, 1.0, 1.0), Vertical), 4)
            == Some(Point(4, 1.0, 0.0))
  {
    var l0 := Segment(0, Point(0, 0.0, 0.0), Point(1, 2.0, 0.0), Sloped(0.0, 0.0));
    var l1 := Segment(1, Point(2, 1.0, -1.0), Point(3, 1.0, 1.0), Vertical);
    assert Direction(l0.start, l0.end, l1.start) == 2.0;
    assert Direction(l0.start, l0.end, l1.end) == -2.0;
    assert Direction(l1.start, l1.end, l0.start) == -2.0;
    assert Direction(l1.start, l1.end, l0.end) == 2.0;
    assert TTop(l0, l1) == -2.0 && TBottom(l0, l1) == -4.0;
  }

  /** Two vectors parallel to a third, non-zero vector are parallel. */
  lemma ParallelTransitive(ux: real, uy: real, vx: real, vy: real, wx: real, wy: real)
    requires Cross2(ux, uy, wx, wy) == 0.0 && Cross2(vx, vy, wx, wy) == 0.0
    requires wx != 0.0 || wy != 0.0
    ensures Cross2(ux, uy, vx, vy) == 0.0
  {
    assert wx * Cross2(ux, uy, vx, vy) == Cross2(ux, uy, wx, wy) * vx - Cross2(vx, vy, wx, wy) * ux;
    assert wy * Cross2(ux, uy, vx, vy) == Cross2(ux, uy, wx, wy) * vy - Cross2(vx, vy, wx, wy) * uy;
  }

  /** Parallel segments that intersect lie on one line: tTop is zero
      whenever tBottom is. */
  lemma ParallelIntersecting(l0: Segment, l1: Segment)
    requires Intersects(l0, l1) && TBottom(l0, l1) == 0.0
    ensures TTop(l0, l1) == 0.0
  {
    ParallelSameSide(l0, l1);
    if Touches(l1, l0) {
      ParallelTouchedBy(l0, l1);
    } else if Touches(l0, l1) {
      ParallelTouching(l0, l1);
    }
  }

  /** Both ends of l0 lie on the same side of a line parallel to it. */
  lemma ParallelSameSide(l0: Segment, l1: Segment)
    requires TBottom(l0, l1) == 0.0
    ensures Direction(l1.start, l1.end, l0.start) == Direction(l1.start, l1.end, l0.end)
  {
    var x0, y0 := l0.end.x - l0.start.x, l0.end.y - l0.start.y;
    var x1, y1 := l1.end.x - l1.start.x, l1.end.y - l1.start.y;
    var xi, yi := l1.start.x - l0.start.x, l1.start.y - l0.start.y;
    assert Direction(l1.start, l1.end, l0.end) == Cross2(x0 - xi, y0 - yi, x1, y1);
    assert Cross2(x0 - xi, y0 - yi, x1, y1) == Cross2(-xi, -yi, x1, y1) + Cross2(x0, y0, x1, y1);
  }

  /** An end of l1 on l0's line, with l1 parallel to l0, puts l1's start
      on that line. */
  lemma ParallelTouchedBy(l0: Segment, l1: Segment)
    requires Touches(l1, l0) && TBottom(l0, l1) == 0.0
    ensures TTop(l0, l1) == 0.0
  {
    var x0, y0 := l0.end.x - l0.start.x, l0.end.y - l0.start.y;
    var x1, y1 := l1.end.x - l1.start.x, l1.end.y - l1.start.y;
    var xi, yi := l1.start.x - l0.start.x, l1.start.y - l0.start.y;
    assert l1.end.x - l0.start.x == xi + x1 && l1.end.y - l0.start.y == yi + y1;
    CrossAdd(xi, yi, x1, y1, x0, y0);
  }

  /** An end of l0 on l1's line, with l0 parallel to l1, puts l1's start
      on l0's line. */
  lemma ParallelTouching(l0: Segment, l1: Segment)
    requires Touches(l0, l1) && TBottom(l0, l1) == 0.0
    ensures TTop(l0, l1) == 0.0
  {
    var x0, y0 := l0.end.x - l0.start.x, l0.end.y - l0.start.y;
    var x1, y1 := l1.end.x - l1.start.x, l1.end.y - l1.start.y;
    var xi, yi := l1.start.x - l0.start.x, l1.start.y - l0.start.y;
    assert l0.start.x - l1.start.x == -xi && l0.start.y - l1.start.y == -yi;
    assert l0.end.x - l1.start.x == x0 - xi && l0.end.y - l1.start.y == y0 - yi;
    if x1 == 0.0 && y1 == 0.0 {
      assert (xi == 0.0 && yi == 0.0) || (xi == x0 && yi == y0);
    } else {
      ParallelTouchingReal(x0, y0, x1, y1, xi, yi);
    }
  }

  /** The arithmetic of ParallelTouching for a segment l1 of non-zero
      length (x1, y1). */
  lemma ParallelTouchingReal(x0: real, y0: real, x1: real, y1: real, xi: real, yi: real)
    requires x1 != 0.0 || y1 != 0.0
    requires Cross2(x1, y1, x0, y0) == 0.0
    requires Cross2(-xi, -yi, x1, y1) == 0.0 || Cross2(x0 - xi, y0 - yi, x1, y1) == 0.0
    ensures Cross2(x0, y0, xi, yi) == 0.0
  {
    CrossAdd(x0, y0, -xi, -yi, x1, y1);
    assert Cross2(-xi, -yi, x1, y1) == -Cross2(xi, yi, x1, y1);
    assert Cross2(x0, y0, x1, y1) == 0.0;
    ParallelTransitive(x0, y0, xi, yi, x1, y1);
  }

  /** The cross product is linear in its first vector. */
  lemma CrossAdd(ux: real, uy: real, vx: real, vy: real, wx: real, wy: real)
    ensures Cross2(ux + vx, uy + vy, wx, wy) == Cross2(ux, uy, wx, wy) + Cross2(vx, vy, wx, wy)
  {
  }

  /** Wherever the source's point is undefined for intersecting segments,
      it divides zero by zero, so both of its coordinates are NaN: either
      tBottom and tTop are zero, or y0 is zero and so is s's numerator. */
  lemma AsWrittenUndefinedIsNaN(l0: Segment, l1: Segment, id: nat)
    requires Intersects(l0, l1) && IntersectionPointAsWritten(l0, l1, id).None?
    ensures TBottom(l0, l1) == 0.0 ==> TTop(l0, l1) == 0.0
    ensures TBottom(l0, l1) != 0.0 ==>
      l0.end.y - l0.start.y == 0.0 &&
      T(l0, l1) * (l1.end.y - l1.start.y) + (l1.start.y - l0.start.y) == 0.0
  {
    if TBottom(l0, l1) == 0.0 {
      ParallelIntersecting(l0, l1);
    } else {
      assert l0.end.y - l0.start.y == 0.0;
      FlatSegments(l0, l1);
    }
  }

  /** With l0 horizontal, the numerator of s vanishes. */
  lemma FlatSegments(l0: Segment, l1: Segment)
    requires l0.end.y - l0.start.y == 0.0 && TBottom(l0, l1) != 0.0
    ensures T(l0, l1) * (l1.end.y - l1.start.y) + (l1.start.y - l0.start.y) == 0.0
  {
    var x0, y0 := l0.end.x - l0.start.x, l0.end.y - l0.start.y;
    var x1, y1 := l1.end.x - l1.start.x, l1.end.y - l1.start.y;
    var xi, yi := l1.start.x - l0.start.x, l1.start.y - l0.start.y;
    assert TTop(l0, l1) == yi * x0 - y0 * xi && TBottom(l0, l1) == x1 * y0 - y1 * x0;
    assert T(l0, l1) == (yi * x0 - y0 * xi) / (x1 * y0 - y1 * x0);
    FlatNumerator(x0, y0, x1, y1, xi, yi);
  }

  /** With y0 zero, t * y1 + yi vanishes, for t = tTop / tBottom. */
  lemma FlatNumerator(x0: real, y0: real, x1: real, y1: real, xi: real, yi: real)
    requires y0 == 0.0 && x1 * y0 - y1 * x0 != 0.0
    ensures ((yi * x0 - y0 * xi) / (x1 * y0 - y1 * x0)) * y1 + yi == 0.0
  {
    var t := (yi * x0 - y0 * xi) / (x1 * y0 - y1 * x0);
    assert yi * x0 - y0 * xi == yi * x0 && x1 * y0 - y1 * x0 == -(y1 * x0);
    DivMul(yi * x0, -(y1 * x0));
    assert x0 * (t * y1 + yi) == 0.0 by {
      assert t * -(y1 * x0) == yi * x0;
    }
  }

  /** compPointFuzz. */
  const CompPointFuzz: real := 0.00001

  function Abs(r: real): real
  {
    if r < 0.0 then -r else r
  }

  /** The two points are within the fuzz of each other on both axes. */
  predicate Near(p0: Point, p1: Point)
  {
    Abs(p1.x - p0.x) < CompPointFuzz && Abs(p1.y - p0.y) < CompPointFuzz
  }

  /** p0 comes before p1: smaller x, or equal x and smaller y. */
  predicate Before(p0: Point, p1: Point)
  {
    p0.x < p1.x || (p0.x == p1.x && p0.y < p1.y)
  }

  /** The two points are within the fuzz of each other on the x axis. */
  predicate NearX(p0: Point, p1: Point)
  {
    Abs(p1.x - p0.x) < CompPointFuzz
  }

  /** comparePoints as written: dy is computed from the x coordinates, so
      points are Equal when their x values are near, whatever their y, and
      otherwise ordered by x alone. */
  function ComparePointsAsWritten(p0: Point, p1: Point): (c: Cmp)
    ensures c == Equal <==> NearX(p0, p1)
    ensures c == Less <==> !NearX(p0, p1) && p0.x < p1.x
    ensures c == Greater <==> !NearX(p0, p1) && p1.x < p0.x
  {
    var dx := Abs(p1.x - p0.x);
    var dy := Abs(p1.x - p0.x);
    if (p0.x == p1.x && p0.y == p1.y) || (dx < CompPointFuzz && dy < CompPointFuzz) then Equal
    else if p0.x < p1.x then Less
    else if p0.x == p1.x then (if p0.y < p1.y then Less else Greater)
    else Greater
  }

  /** comparePoints with dy taken from the y coordinates: Equal for near
      points, otherwise the order of Before. */
  function ComparePoints(p0: Point, p1: Point): (c: Cmp)
    ensures c == Equal <==> Near(p0, p1)
    ensures c == Less <==> !Near(p0, p1) && Before(p0, p1)
    ensures c == Greater <==> !Near(p0, p1) && Before(p1, p0)
  {
    var dx := Abs(p1.x - p0.x);
    var dy := Abs(p1.y - p0.y);
    if (p0.x == p1.x && p0.y == p1.y) || (dx < CompPointFuzz && dy < CompPointFuzz) then Equal
    else if p0.x < p1.x then Less
    else if p0.x == p1.x then (if p0.y < p1.y then Less else Greater)
    else Greater
  }

  /** The as-written comparison calls (1, 0) and (1, 2) Equal; the corrected
      one orders them. */
  lemma ComparePointsIgnoresY()
    ensures ComparePointsAsWritten(Point(0, 1.0, 0.0), Point(1, 1.0, 2.0)) == Equal
    ensures ComparePoints(Point(0, 1.0, 0.0), Point(1, 1.0, 2.0)) == Less
  {
  }

  /** Comparing the other way round flips the result; a point equals itself. */
  lemma ComparePointsAntisymmetric(p0: Point, p1: Point)
    ensures ComparePoints(p1, p0) == Flip(ComparePoints(p0, p1))
    ensures ComparePoints(p0, p0) == Equal
  {
  }

  /** The in-order sequence of the event queue is strictly ordered by x,
      the only coordinate comparePoints as written orders by. */
  predicate Sorted(q: seq<Point>)
  {
    forall i, j :: 0 <= i < j < |q| ==> LeftOf(q[i], q[j])
  }

  /** p0 lies left of p1: what comparePoints as written calls Less between
      points that are not Equal. */
  predicate LeftOf(p0: Point, p1: Point)
  {
    p0.x < p1.x
  }

  /** No two queued points compare Equal: their x values are apart. */
  predicate Apart(q: seq<Point>)
  {
    forall a, b :: a in q && b in q && a != b ==> !NearX(a, b)
  }

  /** BSTNodeSearch finds a queued point comparing Equal to p. */
  predicate Queued(q: seq<Point>, p: Point)
  {
    exists a :: a in q && ComparePointsAsWritten(p, a) == Equal
  }

  /** The binary search tree's Insert, on its in-order sequence: p goes in
      front of the first point it compares Less to. */
  function InsertEvent(q: seq<Point>, p: Point): (r: seq<Point>)
    ensures multiset(r) == multiset(q) + multiset{p}
  {
    if q == [] then [p]
    else if ComparePointsAsWritten(p, q[0]) == Less then [p] + q
    else
      assert q == [q[0]] + q[1..];
      [q[0]] + InsertEvent(q[1..], p)
  }

  /** Inserting a point that is near no queued point keeps the queue sorted. */
  lemma {:induction false} InsertEventSorted(q: seq<Point>, p: Point)
    requires Sorted(q) && forall a :: a in q ==> !NearX(p, a)
    ensures Sorted(InsertEvent(q, p))
  {
    if q != [] && ComparePointsAsWritten(p, q[0]) != Less {
      assert q[0] in q;
      assert LeftOf(q[0], p);
      assert forall a :: a in q[1..] ==> a in q;
      InsertEventSorted(q[1..], p);
      var r := InsertEvent(q[1..], p);
      forall k | 0 <= k < |r|
        ensures LeftOf(q[0], r[k])
      {
        assert r[k] in multiset(r);
        if r[k] != p {
          assert r[k] in multiset(q[1..]);
          var j :| 0 <= j < |q[1..]| && q[1..][j] == r[k];
          assert q[j + 1] == r[k];
        }
      }
    }
  }

  /** addEventPoint on the queue: insert p unless a point Equal to it is
      already queued. */
  function AddEvent(q: seq<Point>, p: Point): seq<Point>
  {
    if Queued(q, p) then q else InsertEvent(q, p)
  }

  /** AddEvent keeps the queue sorted and apart, and afterwards a point Equal
      to p is queued; the queue gains p alone, and only when nothing Equal was
      queued. */
  lemma AddEventValid(q: seq<Point>, p: Point)
    requires Sorted(q) && Apart(q)
    ensures Sorted(AddEvent(q, p)) && Apart(AddEvent(q, p)) && Queued(AddEvent(q, p), p)
    ensures Elems(AddEvent(q, p)) == Elems(q) + (if Queued(q, p) then {} else {p})
  {
    if !Queued(q, p) {
      InsertEventSorted(q, p);
      InsertEventElems(q, p);
      assert ComparePointsAsWritten(p, p) == Equal;
    }
  }

  /** Insertion adds exactly p to the queue's points. */
  lemma InsertEventElems(q: seq<Point>, p: Point)
    ensures forall a :: a in InsertEvent(q, p) <==> a in q || a == p
    ensures Elems(InsertEvent(q, p)) == Elems(q) + {p}
  {
    var r := InsertEvent(q, p);
    assert forall a :: a in r <==> a in multiset(r);
  }

  /** A queued point stays queued when another is added. */
  lemma QueuedKept(q: seq<Point>, p: Point, a: Point)
    requires Queued(q, a)
    ensures Queued(AddEvent(q, p), a)
  {
    var b :| b in q && ComparePointsAsWritten(a, b) == Equal;
    if !Queued(q, p) {
      assert b in multiset(InsertEvent(q, p));
    }
  }

  /** initEventQueue's queue: the start and end of every line, in turn. */
  function InitQueue(lines: seq<Segment>): seq<Point>
  {
    if lines == [] then []
    else
      var l := lines[|lines| - 1];
      AddEvent(AddEvent(InitQueue(lines[..|lines| - 1]), l.start), l.end)
  }

  /** The initial queue is sorted and apart and holds, up to Equal, the end
      points of every line. */
  lemma {:induction false} InitQueueValid(lines: seq<Segment>)
    ensures Sorted(InitQueue(lines)) && Apart(InitQueue(lines))
    ensures forall l :: l in lines ==>
      Queued(InitQueue(lines), l.start) && Queued(InitQueue(lines), l.end)
  {
    if lines != [] {
      var init := lines[..|lines| - 1];
      var l := lines[|lines| - 1];
      var q := InitQueue(init);
      InitQueueValid(init);
      AddEventValid(q, l.start);
      var q1 := AddEvent(q, l.start);
      AddEventValid(q1, l.end);
      QueuedKept(q1, l.end, l.start);
      forall m | m in lines
        ensures Queued(InitQueue(lines), m.start) && Queued(InitQueue(lines), m.end)
      {
        if m != l {
          assert m in init by {
            var k :| 0 <= k < |lines| && lines[k] == m;
            assert k < |lines| - 1;
            assert init[k] == m;
          }
          QueuedKept(q, l.start, m.start);
          QueuedKept(q1, l.end, m.start);
          QueuedKept(q, l.start, m.end);
          QueuedKept(q1, l.end, m.end);
        }
      }
    }
  }

  /** Two horizontal lines starting at the same x, one above the other. */
  const LowLine := Segment(0, Point(1, 0.0, 0.0), Point(2, 2.0, 0.0), Sloped(0.0, 0.0))
  const HighLine := Segment(3, Point(4, 0.0, 1.0), Point(5, 3.0, 1.0), Sloped(0.0, 1.0))

  /** The start of HighLine compares Equal to the start of LowLine, so
      initEventQueue never queues it, although no queued point lies at it. */
  lemma InitQueueDropsStart()
    ensures InitQueue([LowLine, HighLine]) == [LowLine.start, LowLine.end, HighLine.end]
    ensures HighLine.start !in InitQueue([LowLine, HighLine])
  {
    var q := [LowLine.start, LowLine.end];
    assert [LowLine, HighLine][..1] == [LowLine];
    LowLineQueue();
    assert AddEvent(q, HighLine.start) == q by {
      assert ComparePointsAsWritten(HighLine.start, LowLine.start) == Equal;
      assert LowLine.start in q;
    }
    HighLineEnd();
  }

  lemma LowLineQueue()
    ensures InitQueue([LowLine]) == [LowLine.start, LowLine.end]
  {
    var q := [LowLine.start];
    assert [LowLine][..0] == [];
    assert AddEvent([], LowLine.start) == q;
    assert ComparePointsAsWritten(LowLine.end, LowLine.start) == Greater;
    assert !Queued(q, LowLine.end);
    assert InsertEvent(q, LowLine.end) == q + InsertEvent([], LowLine.end);
  }

  lemma HighLineEnd()
    ensures AddEvent([LowLine.start, LowLine.end], HighLine.end) == [LowLine.start, LowLine.end, HighLine.end]
  {
    var q := [LowLine.start, LowLine.end];
    assert ComparePointsAsWritten(HighLine.end, LowLine.start) == Greater;
    assert ComparePointsAsWritten(HighLine.end, LowLine.end) == Greater;
    assert !Queued(q, HighLine.end);
    assert q[1..] == [LowLine.end];
    assert InsertEvent([LowLine.end], HighLine.end) == [LowLine.end] + InsertEvent([], HighLine.end);
    assert InsertEvent(q, HighLine.end) == [LowLine.start] + InsertEvent(q[1..], HighLine.end);
  }

  /** The lines of ls that start at p, in order (startPoints[p]). */
  function StartingAt(ls: seq<Segment>, p: Point): (r: seq<Segment>)
    ensures forall l :: l in r <==> l in ls && l.start == p
  {
    if ls == [] then []
    else
      var l := ls[|ls| - 1];
      StartingAt(ls[..|ls| - 1], p) + (if l.start == p then [l] else [])
  }

  /** The lines of ls that end at p, in order (endPoints[p]). */
  function EndingAt(ls: seq<Segment>, p: Point): (r: seq<Segment>)
    ensures forall l :: l in r <==> l in ls && l.end == p
  {
    if ls == [] then []
    else
      var l := ls[|ls| - 1];
      EndingAt(ls[..|ls| - 1], p) + (if l.end == p then [l] else [])
  }

  /** `m[key] = append(m[key], line)`. */
  function AddLine(m: map<Point, seq<Segment>>, key: Point, line: Segment): (r: map<Point, seq<Segment>>)
    ensures Lookup(r, key) == Lookup(m, key) + [line]
    ensures forall p :: p != key ==> Lookup(r, p) == Lookup(m, p)
  {
    m[key := Lookup(m, key) + [line]]
  }

  /** starts and ends index the lines ls by their start and end points. */
  ghost predicate IndexedBy(starts: map<Point, seq<Segment>>, ends: map<Point, seq<Segment>>, ls: seq<Segment>)
  {
    (forall p {:trigger StartingAt(ls, p)} :: Lookup(starts, p) == StartingAt(ls, p)) &&
    (forall p {:trigger EndingAt(ls, p)} :: Lookup(ends, p) == EndingAt(ls, p))
  }

  /** Appending line i to both indexes extends them to the first i + 1 lines. */
  lemma IndexStep(starts: map<Point, seq<Segment>>, ends: map<Point, seq<Segment>>, ls: seq<Segment>, i: nat)
    requires i < |ls| && IndexedBy(starts, ends, ls[..i])
    ensures IndexedBy(AddLine(starts, ls[i].start, ls[i]), AddLine(ends, ls[i].end, ls[i]), ls[..i + 1])
  {
    var l := ls[i];
    assert ls[..i + 1][..i] == ls[..i];
    assert ls[..i + 1][i] == l;
    forall p
      ensures Lookup(AddLine(starts, l.start, l), p) == StartingAt(ls[..i + 1], p)
      ensures Lookup(AddLine(ends, l.end, l), p) == EndingAt(ls[..i + 1], p)
    {
      assert Lookup(starts, p) == StartingAt(ls[..i], p);
      assert Lookup(ends, p) == EndingAt(ls[..i], p);
      assert StartingAt(ls[..i + 1], p) == StartingAt(ls[..i], p) + (if l.start == p then [l] else []);
      assert EndingAt(ls[..i + 1], p) == EndingAt(ls[..i], p) + (if l.end == p then [l] else []);
    }
  }

  /** The initial queue of the first i + 1 lines. */
  lemma InitQueueStep(ls: seq<Segment>, i: nat)
    requires i < |ls|
    ensures InitQueue(ls[..i + 1]) == AddEvent(AddEvent(InitQueue(ls[..i]), ls[i].start), ls[i].end)
  {
    assert ls[..i + 1][..i] == ls[..i];
  }

  /** No segment is listed twice. */
  predicate Distinct(s: seq<Segment>)
  {
    forall j, k :: 0 <= j < k < |s| ==> s[j] != s[k]
  }

  /** lsiIterate panics at p, given the end and containment indexes and the
      segments with a node in the line status: a segment ending or lying at
      p has no node (lineStatusNodes gives nil), or is listed twice, so that
      its node was deleted before (LSIState.PanicsAt). */
  ghost predicate IteratePanics(ends: map<Point, seq<Segment>>, contained: map<Point, seq<Segment>>,
                                active: set<Segment>, p: Point)
  {
    var leaving := Lookup(ends, p) + Lookup(contained, p);
    !(Distinct(leaving) && Elems(leaving) <= active)
  }

  /** The line status after lsiIterate at p when it does not panic: the
      segments ending or lying at p leave, then those starting or lying at p
      enter. */
  function StepActive(starts: map<Point, seq<Segment>>, ends: map<Point, seq<Segment>>,
                      contained: map<Point, seq<Segment>>, active: set<Segment>, p: Point): set<Segment>
  {
    (active - Elems(Lookup(ends, p) + Lookup(contained, p))) + Elems(Lookup(starts, p) + Lookup(contained, p))
  }

  /** The line status after lsiIterate at each event of q in turn, or None
      when one of them panics. */
  ghost function SweepActive(starts: map<Point, seq<Segment>>, ends: map<Point, seq<Segment>>,
                             contained: map<Point, seq<Segment>>, active: set<Segment>, q: seq<Point>): Option<set<Segment>>
    decreases |q|
  {
    if q == [] then Some(active)
    else if IteratePanics(ends, contained, active, q[0]) then None
    else SweepActive(starts, ends, contained, StepActive(starts, ends, contained, active, q[0]), q[1..])
  }

  /** q panics at its last event and not before. */
  ghost predicate PanicsLast(starts: map<Point, seq<Segment>>, ends: map<Point, seq<Segment>>,
                             contained: map<Point, seq<Segment>>, active: set<Segment>, q: seq<Point>)
  {
    q != [] &&
    var before := SweepActive(starts, ends, contained, active, q[..|q| - 1]);
    before.Some? && IteratePanics(ends, contained, before.value, q[|q| - 1])
  }

  /** A sweep of queue q, from line status active0 after the points visited0
      and with the intersection points ip0, left queue, the points visited,
      the intersection points ip and the line status active, panicking or
      not: it took a front of q, visiting and recording its events in order;
      with a panic the last event taken is the first that panics, and
      without one the line status is SweepActive of the events taken. */
  ghost predicate Took(starts: map<Point, seq<Segment>>, ends: map<Point, seq<Segment>>,
                       contained: map<Point, seq<Segment>>, active0: set<Segment>,
                       visited0: seq<Option<Point>>, ip0: map<Point, seq<Segment>>, q: seq<Point>,
                       queue: seq<Point>, visited: seq<Option<Point>>, ip: map<Point, seq<Segment>>,
                       active: set<Segment>, panicked: bool)
  {
    |queue| <= |q| && queue == q[|q| - |queue|..] &&
    visited == visited0 + Somes(q[..|q| - |queue|]) &&
    ip == Recorded(ip0, starts, ends, contained, q[..|q| - |queue|]) &&
    if panicked then PanicsLast(starts, ends, contained, active0, q[..|q| - |queue|])
    else SweepActive(starts, ends, contained, active0, q[..|q| - |queue|]) == Some(active)
  }

  /** A drain of queue q, from line status active0 after the points visited0
      and with the intersection points ip0, left queue, the points visited,
      the intersection points ip and the line status active, panicking or
      not: it took a front of q as Took says, SweepActive of all of q is
      None when it panicked and active when it did not, and without a panic
      it took all of q. */
  ghost predicate Drained(starts: map<Point, seq<Segment>>, ends: map<Point, seq<Segment>>,
                          contained: map<Point, seq<Segment>>, active0: set<Segment>,
                          visited0: seq<Option<Point>>, ip0: map<Point, seq<Segment>>, q: seq<Point>,
                          queue: seq<Point>, visited: seq<Option<Point>>, ip: map<Point, seq<Segment>>,
                          active: set<Segment>, panicked: bool)
  {
    Took(starts, ends, contained, active0, visited0, ip0, q, queue, visited, ip, active, panicked) &&
    SweepActive(starts, ends, contained, active0, q) == (if panicked then None else Some(active)) &&
    (if panicked then 0 < |q| - |queue| else queue == [])
  }

  /** The intersection points after lsiIterate records p: p maps to the
      segments starting, ending or lying there when there is more than one. */
  function RecordAt(ip: map<Point, seq<Segment>>, starts: map<Point, seq<Segment>>, ends: map<Point, seq<Segment>>,
                    contained: map<Point, seq<Segment>>, p: Point): map<Point, seq<Segment>>
  {
    var segs := Lookup(starts, p) + Lookup(ends, p) + Lookup(contained, p);
    if |segs| > 1 then ip[p := segs] else ip
  }

  /** The intersection points after recording each event of q in turn. */
  ghost function Recorded(ip: map<Point, seq<Segment>>, starts: map<Point, seq<Segment>>, ends: map<Point, seq<Segment>>,
                          contained: map<Point, seq<Segment>>, q: seq<Point>): map<Point, seq<Segment>>
    decreases |q|
  {
    if q == [] then ip
    else RecordAt(Recorded(ip, starts, ends, contained, q[..|q| - 1]), starts, ends, contained, q[|q| - 1])
  }

  /** Every reported point is listed with the segments of lines starting or
      ending there and those lying there, and there are at least two. */
  ghost predicate Reported(ip: map<Point, seq<Segment>>, lines: seq<Segment>, contained: map<Point, seq<Segment>>)
  {
    forall p | p in ip :: ip[p] == StartingAt(lines, p) + EndingAt(lines, p) + Lookup(contained, p) && |ip[p]| > 1
  }

  /** Appending a segment not yet listed keeps a list distinct. */
  lemma DistinctSnoc(s: seq<Segment>, x: Segment)
    requires Distinct(s) && x !in s
    ensures Distinct(s + [x])
  {
  }

  /** A missing key of a PointSegments map reads as the empty slice. */
  function Lookup(m: map<Point, seq<Segment>>, p: Point): seq<Segment>
  {
    if p in m then m[p] else []
  }

  /** No segment object appears twice. */
  predicate DistinctIds(s: seq<Segment>)
  {
    forall i, j :: 0 <= i < j < |s| ==> s[i].id != s[j].id
  }

  /** The slice holds the segment object. */
  predicate HasSegment(s: seq<Segment>, seg: Segment)
  {
    exists i :: 0 <= i < |s| && s[i].id == seg.id
  }

  /** findEvent's update of containedPoints[ip] for one segment: appended
      when ip is inside it and it is not listed yet. */
  function Contained(c: seq<Segment>, seg: Segment, ip: Point): (r: seq<Segment>)
    ensures DistinctIds(c) ==> DistinctIds(r)
    ensures forall s :: s in r ==> s in c || (s == seg && InsideSegment(seg.start, seg.end, ip))
    ensures InsideSegment(seg.start, seg.end, ip) ==> HasSegment(r, seg)
    ensures |c| <= |r| <= |c| + 1 && r[..|c|] == c
  {
    if InsideSegment(seg.start, seg.end, ip) && !HasSegment(c, seg) then
      assert (c + [seg])[|c|] == seg;
      c + [seg]
    else c
  }

  /** The whole containedPoints map after that update: only ip's entry can
      change. */
  function Contain(m: map<Point, seq<Segment>>, seg: Segment, ip: Point): (r: map<Point, seq<Segment>>)
    ensures Lookup(r, ip) == Contained(Lookup(m, ip), seg, ip)
    ensures forall p :: p != ip ==> Lookup(r, p) == Lookup(m, p)
    ensures (forall p | p in m :: DistinctIds(m[p])) ==> (forall p | p in r :: DistinctIds(r[p]))
  {
    var c := Contained(Lookup(m, ip), seg, ip);
    if c == Lookup(m, ip) then m else m[ip := c]
  }

  /** The points met so far, wrapped as the source's possibly-nil vectors. */
  function Somes(q: seq<Point>): (r: seq<Option<Point>>)
    ensures |r| == |q| && forall i :: 0 <= i < |q| ==> r[i] == Some(q[i])
  {
    seq(|q|, i requires 0 <= i < |q| => Some(q[i]))
  }

  /** The sweep has gone past its right-hand limit at p. */
  predicate Beyond(bound: Bound, p: Point)
  {
    bound.AtMost? && p.x > bound.x
  }

  /** Lists a set's elements once each, in some order: the source ranges
      over a Go map, whose order is unspecified. */
  method Enumerate<T>(s: set<T>) returns (r: seq<T>)
    ensures Elems(r) == s && |r| == |s|
  {
    r := [];
    var rest := s;
    while rest != {}
      invariant Elems(r) + rest == s && Elems(r) !! rest && |r| == |Elems(r)|
      decreases |rest|
    {
      var x :| x in rest;
      assert Elems(r + [x]) == Elems(r) + {x};
      r := r + [x];
      rest := rest - {x};
    }
  }

  /** LSIState: the lines, the event queue, the bookkeeping of which segments
      start, end or lie at each point, and the points visited so far. */
  class LSIState {
    var maxSweeplineX: Bound
    var lines: seq<Segment>
    var intersectionPoints: map<Point, seq<Segment>>
    var startPoints: map<Point, seq<Segment>>
    var endPoints: map<Point, seq<Segment>>
    var containedPoints: map<Point, seq<Segment>>
    /** The keys of lineStatusNodes: segments with a node in the line status. */
    var active: set<Segment>
    /** The event queue, in order. */
    var queue: seq<Point>
    var previousPoints: seq<Option<Point>>
    var currentPoint: Option<Point>
    var nextPoint: Option<Point>
    /** The values of futurePoints. */
    var futurePoints: set<Point>
    /** The package-level sweeplineXPoint. */
    var sweepX: real

    /** The queue is ordered, no two of its points are Equal, futurePoints
        are its points, and no segment is listed twice at a point. */
    ghost predicate Valid()
      reads this`queue, this`futurePoints, this`containedPoints
    {
      Sorted(queue) && Apart(queue) && futurePoints == Elems(queue) &&
      forall p | p in containedPoints :: DistinctIds(containedPoints[p])
    }

    /** startPoints and endPoints index the lines by their end points. */
    ghost predicate Indexed()
      reads this`startPoints, this`endPoints, this`lines
    {
      IndexedBy(startPoints, endPoints, lines)
    }

    /** NewLSIState. */
    constructor (lines: seq<Segment>)
      ensures Valid() && Indexed() && this.lines == lines && maxSweeplineX == Unbounded
      ensures queue == InitQueue(lines) && sweepX == 0.0
      ensures intersectionPoints == map[] && containedPoints == map[] && active == {}
      ensures previousPoints == [] && currentPoint == None && nextPoint == None
    {
      this.lines := lines;
      maxSweeplineX := Unbounded;
      sweepX := 0.0;
      new;
      Clear();
    }

    /** Clear: forgets the sweep's progress and refills the event queue. */
    method Clear()
      modifies this`intersectionPoints, this`active, this`containedPoints, this`previousPoints,
        this`currentPoint, this`nextPoint, this`futurePoints, this`queue, this`startPoints, this`endPoints
      ensures Valid() && Indexed() && queue == InitQueue(lines)
      ensures intersectionPoints == map[] && containedPoints == map[] && active == {}
      ensures previousPoints == [] && currentPoint == None && nextPoint == None
    {
      Forget();
      InitEventQueue();
    }

    /** The first half of Clear: no intersection points, no line status,
        nothing contained and no points visited. */
    method Forget()
      modifies this`intersectionPoints, this`active, this`containedPoints, this`previousPoints,
        this`currentPoint, this`nextPoint, this`futurePoints
      ensures intersectionPoints == map[] && containedPoints == map[] && active == {}
      ensures previousPoints == [] && currentPoint == None && nextPoint == None && futurePoints == {}
    {
      intersectionPoints := map[];
      active := {};
      containedPoints := map[];
      previousPoints := [];
      currentPoint := None;
      nextPoint := None;
      futurePoints := {};
    }

    /** initEventQueue: an empty queue, then both end points of each line. */
    method InitEventQueue()
      requires containedPoints == map[]
      modifies this`queue, this`futurePoints, this`startPoints, this`endPoints
      ensures Valid() && Indexed() && queue == InitQueue(lines)
    {
      queue := [];
      futurePoints := {};
      startPoints := map[];
      endPoints := map[];
      var ls := lines;
      assert ls[..0] == [];
      for i := 0 to |ls|
        invariant Valid() && queue == InitQueue(ls[..i])
        invariant IndexedBy(startPoints, endPoints, ls[..i])
      {
        AddLineAt(ls, i);
      }
      assert ls[..|ls|] == ls;
    }

    /** One turn of initEventQueue's loop, as a step from the first i lines
        to the first i + 1. */
    method AddLineAt(ls: seq<Segment>, i: nat)
      requires i < |ls| && Valid() && queue == InitQueue(ls[..i])
      requires IndexedBy(startPoints, endPoints, ls[..i])
      modifies this`queue, this`futurePoints, this`startPoints, this`endPoints
      ensures Valid() && queue == InitQueue(ls[..i + 1])
      ensures IndexedBy(startPoints, endPoints, ls[..i + 1])
    {
      InitQueueStep(ls, i);
      IndexStep(startPoints, endPoints, ls, i);
      AddLineEvents(ls[i]);
    }

    /** One turn of initEventQueue's loop: both end points of the line go
        into the queue and the line into the two indexes. */
    method AddLineEvents(line: Segment)
      requires Valid()
      modifies this`queue, this`futurePoints, this`startPoints, this`endPoints
      ensures Valid() && queue == AddEvent(AddEvent(old(queue), line.start), line.end)
      ensures startPoints == AddLine(old(startPoints), line.start, line)
      ensures endPoints == AddLine(old(endPoints), line.end, line)
    {
      AddEventPoint(line.start);
      startPoints := AddLine(startPoints, line.start, line);
      AddEventPoint(line.end);
      endPoints := AddLine(endPoints, line.end, line);
    }

    /** SetMaxSweeplineX. */
    method SetMaxSweeplineX(x: real)
      modifies this`maxSweeplineX
      ensures maxSweeplineX == AtMost(x)
    {
      maxSweeplineX := AtMost(x);
    }

    /** FuturePoints: the queued points, each once. */
    method FuturePoints() returns (points: seq<Point>)
      requires Valid()
      ensures Elems(points) == Elems(queue) && |points| == |futurePoints|
    {
      points := Enumerate(futurePoints);
    }

    /** ActiveLines: the segments with a node in the line status, each once.
        The source leaves out the two infinity lines, which never have one. */
    method ActiveLines() returns (al: seq<Segment>)
      ensures Elems(al) == active && |al| == |active|
    {
      al := Enumerate(active);
    }

    /** addEventPoint: queue p unless a point Equal to it is queued. */
    method AddEventPoint(p: Point)
      requires Valid()
      modifies this`queue, this`futurePoints
      ensures Valid() && queue == AddEvent(old(queue), p) && Queued(queue, p)
      ensures futurePoints == old(futurePoints) + (if Queued(old(queue), p) then {} else {p})
    {
      AddEventValid(queue, p);
      if !Queued(queue, p) {
        queue := InsertEvent(queue, p);
        futurePoints := futurePoints + {p};
      }
    }

    /** The loop of findEvent: whether seg is among containedPoints[ip]. */
    method AddContained(seg: Segment, ip: Point)
      requires Valid()
      modifies this`containedPoints
      ensures Valid() && containedPoints == Contain(old(containedPoints), seg, ip)
    {
      if InsideSegment(seg.start, seg.end, ip) {
        var segs := Lookup(containedPoints, ip);
        var found := false;
        for i := 0 to |segs|
          invariant found <==> HasSegment(segs[..i], seg)
        {
          if segs[i].id == seg.id {
            found := true;
          }
        }
        assert segs[..|segs|] == segs;
        if !found {
          containedPoints := containedPoints[ip := segs + [seg]];
        }
      }
    }

    /** No point object the state holds, nor an end point of its lines, has
        the identity id: a vector findEvent allocates is new. */
    ghost predicate Unused(id: nat)
      reads this`lines, this`queue, this`containedPoints, this`startPoints, this`endPoints,
        this`intersectionPoints, this`previousPoints, this`currentPoint, this`nextPoint
    {
      (forall l | l in lines :: l.start.id != id && l.end.id != id) &&
      (forall p | p in queue :: p.id != id) &&
      (forall p | p in containedPoints :: p.id != id) &&
      (forall p | p in startPoints :: p.id != id) &&
      (forall p | p in endPoints :: p.id != id) &&
      (forall p | p in intersectionPoints :: p.id != id) &&
      (forall i | 0 <= i < |previousPoints| && previousPoints[i].Some? :: previousPoints[i].value.id != id) &&
      (currentPoint.Some? ==> currentPoint.value.id != id) &&
      (nextPoint.Some? ==> nextPoint.value.id != id)
    }

    /** findEvent: where seg0 and seg1 cross (at a new point object `id`),
        queue the crossing if it lies ahead of point, and list each segment
        that the crossing lies inside of under containedPoints. Where the
        source's IntersectionPoint divides zero by zero (AsWrittenUndefinedIsNaN)
        its point is NaN, every comparison with it is false, and nothing
        changes. */
    method FindEvent(seg0: Segment, seg1: Segment, point: Point, id: nat)
      requires Valid()
      requires id != seg0.start.id && id != seg0.end.id && id != seg1.start.id && id != seg1.end.id
      requires Unused(id)
      modifies this`queue, this`futurePoints, this`containedPoints
      ensures Valid()
      ensures IntersectionPointAsWritten(seg0, seg1, id).None? ==> unchanged(this)
      ensures IntersectionPointAsWritten(seg0, seg1, id).Some? ==>
        var ip := IntersectionPointAsWritten(seg0, seg1, id).value;
        queue == (if Before(point, ip) then AddEvent(old(queue), ip) else old(queue)) &&
        containedPoints == Contain(Contain(old(containedPoints), seg0, ip), seg1, ip)
    {
      if !Intersects(seg0, seg1) {
        return;
      }
      var r := IntersectionPointAsWritten(seg0, seg1, id);
      if r.None? {
        return;
      }
      var ip := r.value;
      if ip.x > point.x || (ip.x == point.x && ip.y > point.y) {
        AddEventPoint(ip);
      }
      AddContained(seg0, ip);
      AddContained(seg1, ip);
    }

    /** The deletions and insertions of lsiIterate on the line status. A
        leaving line without a node (never inserted, or already deleted
        earlier in the same loop) is deleted as a nil node, which panics. */
    method UpdateActive(leaving: seq<Segment>, entering: seq<Segment>) returns (panicked: bool)
      modifies this`active
      ensures panicked <==> !(Distinct(leaving) && Elems(leaving) <= old(active))
      ensures !panicked ==> active == (old(active) - Elems(leaving)) + Elems(entering)
    {
      for i := 0 to |leaving|
        invariant Distinct(leaving[..i]) && Elems(leaving[..i]) <= old(active)
        invariant active == old(active) - Elems(leaving[..i])
      {
        assert Elems(leaving[..i + 1]) == Elems(leaving[..i]) + {leaving[i]};
        if leaving[i] !in active {
          if leaving[i] in old(active) {
            var j :| 0 <= j < i && leaving[..i][j] == leaving[i];
            assert leaving[j] == leaving[i];
          } else {
            assert leaving[i] in Elems(leaving);
          }
          return true;
        }
        assert leaving[..i + 1] == leaving[..i] + [leaving[i]];
        DistinctSnoc(leaving[..i], leaving[i]);
        active := active - {leaving[i]};
      }
      assert leaving[..|leaving|] == leaving;
      panicked := false;
      for i := 0 to |entering|
        invariant active == (old(active) - Elems(leaving)) + Elems(entering[..i])
      {
        assert Elems(entering[..i + 1]) == Elems(entering[..i]) + {entering[i]};
        active := active + {entering[i]};
      }
      assert entering[..|entering|] == entering;
    }

    /** lsiIterate panics at p: a segment ending or lying at p has no node
        in the line status, or is listed twice, so that Delete is handed a
        nil node. */
    ghost predicate PanicsAt(p: Point)
      reads this`endPoints, this`containedPoints, this`active
    {
      IteratePanics(endPoints, containedPoints, active, p)
    }

    /** lsiIterate: take the first event; stop with an error if it lies
        beyond the limit; otherwise make it the current point, record it as
        an intersection when more than one segment starts, ends or lies on
        it, and update the line status, panicking as PanicsAt says. */
    method Iterate() returns (reachedMax: bool, panicked: bool)
      requires Valid() && queue != []
      modifies this`queue, this`futurePoints, this`previousPoints, this`currentPoint, this`nextPoint,
        this`sweepX, this`intersectionPoints, this`active
      ensures Valid() && nextPoint == Some(old(queue[0]))
      ensures reachedMax <==> Beyond(maxSweeplineX, old(queue[0]))
      ensures reachedMax ==> !panicked && unchanged(this`queue, this`futurePoints, this`previousPoints,
        this`currentPoint, this`sweepX, this`intersectionPoints, this`active)
      ensures !reachedMax ==>
        var p := old(queue[0]);
        queue == old(queue[1..]) && futurePoints == old(futurePoints) - {p} &&
        previousPoints == old(previousPoints) + [old(currentPoint)] &&
        currentPoint == Some(p) && sweepX == p.x
      ensures !reachedMax ==>
        var p := old(queue[0]);
        var segs := Lookup(startPoints, p) + Lookup(endPoints, p) + Lookup(containedPoints, p);
        intersectionPoints == (if |segs| > 1 then old(intersectionPoints)[p := segs] else old(intersectionPoints))
      ensures !reachedMax ==> (panicked <==> old(PanicsAt(queue[0])))
      ensures !reachedMax && !panicked ==>
        active == StepActive(startPoints, endPoints, containedPoints, old(active), old(queue[0]))
    {
      var p := queue[0];
      nextPoint := Some(p);
      if maxSweeplineX.AtMost? && p.x > maxSweeplineX.x {
        return true, false;
      }
      PopEvent();
      panicked := Visit(p);
      return false, panicked;
    }

    /** The second half of lsiIterate, at the point p just taken from the
        queue: record it and update the line status, panicking as PanicsAt
        says. */
    method Visit(p: Point) returns (panicked: bool)
      modifies this`intersectionPoints, this`active
      ensures var segs := Lookup(startPoints, p) + Lookup(endPoints, p) + Lookup(containedPoints, p);
        intersectionPoints == (if |segs| > 1 then old(intersectionPoints)[p := segs] else old(intersectionPoints))
      ensures panicked <==> old(PanicsAt(p))
      ensures !panicked ==> active == StepActive(startPoints, endPoints, containedPoints, old(active), p)
    {
      var starts, ends, contained := Lookup(startPoints, p), Lookup(endPoints, p), Lookup(containedPoints, p);
      RecordIntersection(p, starts + ends + contained);
      panicked := UpdateActive(ends + contained, starts + contained);
    }

    /** The segments starting, ending or lying at p make p an intersection
        point when there is more than one of them. */
    method RecordIntersection(p: Point, segs: seq<Segment>)
      modifies this`intersectionPoints
      ensures intersectionPoints == (if |segs| > 1 then old(intersectionPoints)[p := segs] else old(intersectionPoints))
    {
      if |segs| > 1 {
        intersectionPoints := intersectionPoints[p := segs];
      }
    }

    /** The first half of lsiIterate's progress: the first event leaves the
        queue and becomes the current point. */
    method PopEvent()
      requires Valid() && queue != []
      modifies this`queue, this`futurePoints, this`previousPoints, this`currentPoint, this`sweepX
      ensures Valid() && queue == old(queue[1..]) && futurePoints == old(futurePoints) - {old(queue[0])}
      ensures previousPoints == old(previousPoints) + [old(currentPoint)]
      ensures currentPoint == Some(old(queue[0])) && sweepX == old(queue[0]).x
    {
      var p := queue[0];
      assert p !in queue[1..] by {
        forall k | 0 <= k < |queue[1..]|
          ensures queue[1..][k] != p
        {
          assert LeftOf(queue[0], queue[k + 1]);
        }
      }
      assert Elems(queue[1..]) == Elems(queue) - {p} by {
        assert forall a :: a in queue <==> a == p || a in queue[1..];
      }
      queue := queue[1..];
      futurePoints := futurePoints - {p};
      previousPoints := previousPoints + [currentPoint];
      currentPoint := Some(p);
      sweepX := p.x;
    }

    /** Run: iterate until the queue is empty, the next event lies beyond
        the limit, or an event panics, as Ran says. */
    method Run() returns (panicked: bool)
      requires Valid()
      modifies this`queue, this`futurePoints, this`previousPoints, this`currentPoint, this`nextPoint,
        this`sweepX, this`intersectionPoints, this`active
      ensures Valid() && Ran(old(queue), old(active), old(previousPoints) + [old(currentPoint)],
                             old(intersectionPoints), old(nextPoint), panicked)
    {
      ghost var q0, n := queue, 0;
      ghost var visited0, ip0 := previousPoints + [currentPoint], intersectionPoints;
      panicked := false;
      while queue != []
        invariant Valid() && Sweeping(q0, n, old(active), visited0, ip0, old(nextPoint))
        decreases |queue|
      {
        var reachedMax;
        reachedMax, panicked := Step(q0, n, old(active), visited0, ip0);
        if reachedMax {
          assert Ran(q0, old(active), visited0, ip0, old(nextPoint), panicked) by {
            assert n == |q0| - |queue| && queue[0] == q0[n];
          }
          return;
        }
        if panicked {
          assert Ran(q0, old(active), visited0, ip0, old(nextPoint), panicked) by {
            assert n + 1 == |q0| - |queue|;
          }
          return;
        }
        n := n + 1;
      }
      assert n == |q0| - |queue|;
    }

    /** Run from the queue q0, the line status active0, the points visited0
        and the intersection points ip0, with q0's next point next0, stopped
        with the queue empty, its first event beyond the limit, or a panic.
        It took a front of q0 as Took says (none when q0's first event is
        beyond the limit), and the next point is the event lsiIterate
        stopped at, or else the last event taken. */
    ghost predicate Ran(q0: seq<Point>, active0: set<Segment>, visited0: seq<Option<Point>>,
                        ip0: map<Point, seq<Segment>>, next0: Option<Point>, panicked: bool)
      reads this`queue, this`previousPoints, this`currentPoint, this`intersectionPoints, this`nextPoint,
        this`startPoints, this`endPoints, this`containedPoints, this`active, this`maxSweeplineX
    {
      (panicked || queue == [] || Beyond(maxSweeplineX, queue[0])) &&
      Took(startPoints, endPoints, containedPoints, active0, visited0, ip0, q0, queue,
           previousPoints + [currentPoint], intersectionPoints, active, panicked) &&
      (q0 != [] && Beyond(maxSweeplineX, q0[0]) ==> !panicked && queue == q0) &&
      nextPoint == (if !panicked && queue != [] then Some(queue[0])
                    else if |queue| == |q0| then next0 else Some(q0[|q0| - |queue| - 1]))
    }

    /** A run whose first event already lies beyond the limit, which is
        the case when the limit is below every queued x since the queue is
        sorted, took nothing: the intersection points, the line status and
        the points visited are those it started with. */
    lemma RanBeyondUnchanged(q0: seq<Point>, active0: set<Segment>, visited0: seq<Option<Point>>,
                             ip0: map<Point, seq<Segment>>, next0: Option<Point>, panicked: bool)
      requires Ran(q0, active0, visited0, ip0, next0, panicked)
      requires q0 != [] && Beyond(maxSweeplineX, q0[0])
      ensures !panicked && queue == q0 && nextPoint == Some(q0[0])
      ensures intersectionPoints == ip0 && active == active0 && previousPoints + [currentPoint] == visited0
    {
      assert q0[..|q0| - |queue|] == [];
    }

    /** The invariant of Run's loop: n events of q0 swept, the next point
        the last of them (next0 when there is none), and the first not
        beyond the limit when one was taken. */
    ghost predicate Sweeping(q0: seq<Point>, n: nat, active0: set<Segment>, visited0: seq<Option<Point>>,
                             ip0: map<Point, seq<Segment>>, next0: Option<Point>)
      reads this`queue, this`previousPoints, this`currentPoint, this`intersectionPoints, this`nextPoint,
        this`startPoints, this`endPoints, this`containedPoints, this`active, this`maxSweeplineX
    {
      SweptTo(q0, n, active0, visited0, ip0) &&
      nextPoint == (if n == 0 then next0 else Some(q0[n - 1])) &&
      (n > 0 ==> !Beyond(maxSweeplineX, q0[0]))
    }

    /** The loops of Run and Drain, started from the queue q0, have taken
        its first n events: the queue holds the rest, and the events taken
        were visited in order after visited0 and recorded into the
        intersection points ip0. */
    ghost predicate Swept(q0: seq<Point>, n: nat, visited0: seq<Option<Point>>, ip0: map<Point, seq<Segment>>)
      reads this`queue, this`previousPoints, this`currentPoint, this`intersectionPoints,
        this`startPoints, this`endPoints, this`containedPoints
    {
      n <= |q0| && queue == q0[n..] &&
      previousPoints + [currentPoint] == visited0 + Somes(q0[..n]) &&
      intersectionPoints == Recorded(ip0, startPoints, endPoints, containedPoints, q0[..n])
    }

    /** One pass of the loops of Run and Drain, n events into the queue q0
        and with the line status SweepActive of them: event n became the
        next point, and lsiIterate either stopped at the limit, leaving the
        sweep where it was, or took event n, which SweepActive of the longer
        front then describes (or at which it panicked). */
    ghost predicate Stepped(q0: seq<Point>, n: nat, active0: set<Segment>, visited0: seq<Option<Point>>,
                            ip0: map<Point, seq<Segment>>, reachedMax: bool, panicked: bool)
      reads this`queue, this`previousPoints, this`currentPoint, this`intersectionPoints, this`nextPoint,
        this`startPoints, this`endPoints, this`containedPoints, this`active, this`maxSweeplineX
    {
      StepTaken(q0, n, reachedMax) &&
      if reachedMax then !panicked && SweptTo(q0, n, active0, visited0, ip0)
      else
        Swept(q0, n + 1, visited0, ip0) &&
        if panicked then PanicsLast(startPoints, endPoints, containedPoints, active0, q0[..n + 1])
        else SweepActive(startPoints, endPoints, containedPoints, active0, q0[..n + 1]) == Some(active)
    }

    /** Event n of q0 is the next point, and it lies beyond the limit
        exactly when lsiIterate stopped there. */
    ghost predicate StepTaken(q0: seq<Point>, n: nat, reachedMax: bool)
      reads this`nextPoint, this`maxSweeplineX
    {
      n < |q0| && nextPoint == Some(q0[n]) && (reachedMax <==> Beyond(maxSweeplineX, q0[n]))
    }

    /** The first n events of q0 are swept, and the line status is
        SweepActive of them. */
    ghost predicate SweptTo(q0: seq<Point>, n: nat, active0: set<Segment>, visited0: seq<Option<Point>>,
                            ip0: map<Point, seq<Segment>>)
      reads this`queue, this`previousPoints, this`currentPoint, this`intersectionPoints,
        this`startPoints, this`endPoints, this`containedPoints, this`active
    {
      Swept(q0, n, visited0, ip0) && SweepActive(startPoints, endPoints, containedPoints, active0, q0[..n]) == Some(active)
    }

    /** One pass of the loops of Run and Drain: lsiIterate at event n of
        q0, as Stepped says. */
    method Step(ghost q0: seq<Point>, ghost n: nat, ghost active0: set<Segment>, ghost visited0: seq<Option<Point>>,
                ghost ip0: map<Point, seq<Segment>>)
      returns (reachedMax: bool, panicked: bool)
      requires Valid() && queue != [] && SweptTo(q0, n, active0, visited0, ip0)
      modifies this`queue, this`futurePoints, this`previousPoints, this`currentPoint, this`nextPoint,
        this`sweepX, this`intersectionPoints, this`active
      ensures Valid() && Stepped(q0, n, active0, visited0, ip0, reachedMax, panicked)
    {
      ghost var before := active;
      assert n < |q0| && q0[n..][1..] == q0[n + 1..];
      reachedMax, panicked := Iterate();
      if !reachedMax {
        SteppedOn(q0, n, active0, visited0, ip0, before, panicked);
      }
    }

    /** lsiIterate took event n of q0, from the line status before that
        SweepActive gave for the first n events: Stepped holds. */
    lemma SteppedOn(q0: seq<Point>, n: nat, active0: set<Segment>, visited0: seq<Option<Point>>,
                    ip0: map<Point, seq<Segment>>, before: set<Segment>, panicked: bool)
      requires n < |q0| && queue == q0[n + 1..] && nextPoint == Some(q0[n]) && !Beyond(maxSweeplineX, q0[n])
      requires previousPoints + [currentPoint] == visited0 + Somes(q0[..n]) + [Some(q0[n])]
      requires intersectionPoints == RecordAt(Recorded(ip0, startPoints, endPoints, containedPoints, q0[..n]),
                                              startPoints, endPoints, containedPoints, q0[n])
      requires SweepActive(startPoints, endPoints, containedPoints, active0, q0[..n]) == Some(before)
      requires panicked <==> IteratePanics(endPoints, containedPoints, before, q0[n])
      requires !panicked ==> active == StepActive(startPoints, endPoints, containedPoints, before, q0[n])
      ensures Stepped(q0, n, active0, visited0, ip0, false, panicked)
    {
      SomesStep(q0, n);
      SweepStep(startPoints, endPoints, containedPoints, active0, before, q0, n);
      RecordedStep(ip0, startPoints, endPoints, containedPoints, q0, n);
    }

    /** The loop of LineSegmentIntersection: lsiIterate until the queue is
        empty or an event panics (an unbounded sweep never stops for the
        limit), as Emptied says, then reset the sweep x, which a panic
        skips. */
    method Drain() returns (panicked: bool)
      requires Valid() && maxSweeplineX == Unbounded
      modifies this`queue, this`futurePoints, this`previousPoints, this`currentPoint, this`nextPoint,
        this`sweepX, this`intersectionPoints, this`active
      ensures Valid() && (panicked || sweepX == 0.0)
      ensures Emptied(old(queue), old(active), old(previousPoints) + [old(currentPoint)],
                      old(intersectionPoints), old(nextPoint), panicked)
    {
      ghost var q0, n := queue, 0;
      ghost var visited0, ip0 := previousPoints + [currentPoint], intersectionPoints;
      panicked := false;
      while queue != []
        invariant Valid() && Sweeping(q0, n, old(active), visited0, ip0, old(nextPoint))
        decreases |queue|
      {
        var reachedMax;
        reachedMax, panicked := Step(q0, n, old(active), visited0, ip0);
        assert !reachedMax by {
          assert StepTaken(q0, n, reachedMax);
        }
        if panicked {
          EmptiedAtPanic(q0, n, old(active), visited0, ip0, old(nextPoint));
          return;
        }
        SweepingStep(q0, n, old(active), visited0, ip0, old(nextPoint));
        n := n + 1;
      }
      sweepX := 0.0;
      EmptiedAtEnd(q0, n, old(active), visited0, ip0, old(nextPoint));
    }

    /** Event n of q0 taken without a limit stop or a panic: n + 1 events
        are swept. */
    lemma SweepingStep(q0: seq<Point>, n: nat, active0: set<Segment>, visited0: seq<Option<Point>>,
                       ip0: map<Point, seq<Segment>>, next0: Option<Point>)
      requires Stepped(q0, n, active0, visited0, ip0, false, false)
      requires n > 0 ==> !Beyond(maxSweeplineX, q0[0])
      ensures Sweeping(q0, n + 1, active0, visited0, ip0, next0)
    {
    }

    /** A drain that panicked at event n of q0 ended as Emptied says. */
    lemma EmptiedAtPanic(q0: seq<Point>, n: nat, active0: set<Segment>, visited0: seq<Option<Point>>,
                         ip0: map<Point, seq<Segment>>, next0: Option<Point>)
      requires Stepped(q0, n, active0, visited0, ip0, false, true)
      ensures Emptied(q0, active0, visited0, ip0, next0, true)
    {
      assert n + 1 == |q0| - |queue|;
      SweepEnd(startPoints, endPoints, containedPoints, active0, q0, n + 1, active, true);
    }

    /** A drain that emptied the queue without a panic ended as Emptied
        says. */
    lemma EmptiedAtEnd(q0: seq<Point>, n: nat, active0: set<Segment>, visited0: seq<Option<Point>>,
                       ip0: map<Point, seq<Segment>>, next0: Option<Point>)
      requires Sweeping(q0, n, active0, visited0, ip0, next0) && queue == []
      ensures Emptied(q0, active0, visited0, ip0, next0, false)
    {
      assert n == |q0| && q0[..n] == q0;
      assert q0[..|q0| - |queue|] == q0;
    }

    /** A drain of the queue q0, from the line status active0, the points
        visited0 and the intersection points ip0, with q0's next point
        next0, ended as Drained says, and the next point is the last event
        taken (next0 when there is none). */
    ghost predicate Emptied(q0: seq<Point>, active0: set<Segment>, visited0: seq<Option<Point>>,
                            ip0: map<Point, seq<Segment>>, next0: Option<Point>, panicked: bool)
      reads this`queue, this`previousPoints, this`currentPoint, this`intersectionPoints, this`nextPoint,
        this`startPoints, this`endPoints, this`containedPoints, this`active
    {
      Drained(startPoints, endPoints, containedPoints, active0, visited0, ip0, q0, queue,
              previousPoints + [currentPoint], intersectionPoints, active, panicked) &&
      nextPoint == (if |queue| == |q0| then next0 else Some(q0[|q0| - |queue| - 1]))
    }
    /** A drain that ended as Emptied says, from intersection points ip0
        reported for the lines, leaves them reported. */
    lemma EmptiedReported(q0: seq<Point>, active0: set<Segment>, visited0: seq<Option<Point>>,
                          ip0: map<Point, seq<Segment>>, next0: Option<Point>, panicked: bool)
      requires Indexed() && Reported(ip0, lines, containedPoints)
      requires Emptied(q0, active0, visited0, ip0, next0, panicked)
      ensures Reported(intersectionPoints, lines, containedPoints)
    {
      RecordedReported(ip0, startPoints, endPoints, containedPoints, lines, q0[..|q0| - |queue|]);
    }
  }

  /** LineSegmentIntersection: sweep the lines until the queue is empty. It
      panics exactly when SweepActive, from an empty line status, reaches a
      panicking event; the events taken are the front of the initial queue
      and, when it does not panic, all of it. */
  method LineSegmentIntersection(lines: seq<Segment>) returns (lsi: LSIState, panicked: bool)
    ensures fresh(lsi) && lsi.Valid() && lsi.Indexed() && lsi.lines == lines && lsi.containedPoints == map[]
    ensures !panicked ==> lsi.sweepX == 0.0
    ensures lsi.Emptied(InitQueue(lines), {}, [None], map[], None, panicked)
    ensures Reported(lsi.intersectionPoints, lines, map[])
  {
    lsi := new LSIState(lines);
    ghost var q, active0, visited0, ip0 := lsi.queue, lsi.active, lsi.previousPoints + [lsi.currentPoint], lsi.intersectionPoints;
    assert q == InitQueue(lines) && active0 == {} && visited0 == [None] && ip0 == map[];
    panicked := lsi.Drain();
    lsi.EmptiedReported(q, active0, visited0, ip0, None, panicked);

  }

  /** One more event of q0 visited: the rest loses its head, and the visited
      front gains it. */
  lemma SomesStep(q0: seq<Point>, n: nat)
    requires n < |q0|
    ensures q0[n..][1..] == q0[n + 1..]
    ensures Somes(q0[..n + 1]) == Somes(q0[..n]) + [Some(q0[n])]
  {
    assert q0[..n + 1] == q0[..n] + [q0[n]];
  }

  /** One more event of q0 recorded: Recorded of the longer front is
      RecordAt of the shorter one's map at that event. */
  lemma RecordedStep(ip: map<Point, seq<Segment>>, starts: map<Point, seq<Segment>>, ends: map<Point, seq<Segment>>,
                     contained: map<Point, seq<Segment>>, q0: seq<Point>, n: nat)
    requires n < |q0|
    ensures Recorded(ip, starts, ends, contained, q0[..n + 1]) ==
            RecordAt(Recorded(ip, starts, ends, contained, q0[..n]), starts, ends, contained, q0[n])
  {
    assert q0[..n + 1][..n] == q0[..n];
  }

  /** Recording one event p keeps the reported points well listed, adds at
      most p, drops none, and adds p when at least two segments meet it. */
  lemma RecordAtReported(ip: map<Point, seq<Segment>>, starts: map<Point, seq<Segment>>,
                         ends: map<Point, seq<Segment>>, contained: map<Point, seq<Segment>>,
                         lines: seq<Segment>, p: Point)
    requires IndexedBy(starts, ends, lines) && Reported(ip, lines, contained)
    ensures var r := RecordAt(ip, starts, ends, contained, p);
      Reported(r, lines, contained) && ip.Keys <= r.Keys && r.Keys <= ip.Keys + {p} &&
      (|StartingAt(lines, p) + EndingAt(lines, p) + Lookup(contained, p)| > 1 ==> p in r)
  {
    assert Lookup(starts, p) == StartingAt(lines, p);
    assert Lookup(ends, p) == EndingAt(lines, p);
  }

  /** With the start and end indexes of the lines, recording the events of q
      keeps every reported point listed with exactly the lines starting or
      ending there and the segments lying there, at least two of them; the
      points reported are those reported before and events of q. */
  lemma {:induction false} RecordedReported(ip: map<Point, seq<Segment>>, starts: map<Point, seq<Segment>>,
                                            ends: map<Point, seq<Segment>>, contained: map<Point, seq<Segment>>,
                                            lines: seq<Segment>, q: seq<Point>)
    requires IndexedBy(starts, ends, lines) && Reported(ip, lines, contained)
    ensures var r := Recorded(ip, starts, ends, contained, q);
      Reported(r, lines, contained) && ip.Keys <= r.Keys && (forall x | x in r :: x in ip || x in q)
    decreases |q|
  {
    if q != [] {
      var front, p := q[..|q| - 1], q[|q| - 1];
      RecordedReported(ip, starts, ends, contained, lines, front);
      RecordAtReported(Recorded(ip, starts, ends, contained, front), starts, ends, contained, lines, p);
      forall x | x in Recorded(ip, starts, ends, contained, q)
        ensures x in ip || x in q
      {
        if x != p && x !in ip {
          assert x in front;
        }
      }
    }
  }

  /** Every event of q that at least two segments start at, end at or lie
      at is reported once q is recorded. */
  lemma {:induction false} RecordedCovers(ip: map<Point, seq<Segment>>, starts: map<Point, seq<Segment>>,
                                          ends: map<Point, seq<Segment>>, contained: map<Point, seq<Segment>>,
                                          lines: seq<Segment>, q: seq<Point>)
    requires IndexedBy(starts, ends, lines) && Reported(ip, lines, contained)
    ensures forall i | 0 <= i < |q| && |StartingAt(lines, q[i]) + EndingAt(lines, q[i]) + Lookup(contained, q[i])| > 1 ::
      q[i] in Recorded(ip, starts, ends, contained, q)
    decreases |q|
  {
    if q != [] {
      var front, p := q[..|q| - 1], q[|q| - 1];
      RecordedCovers(ip, starts, ends, contained, lines, front);
      RecordedReported(ip, starts, ends, contained, lines, front);
      RecordAtReported(Recorded(ip, starts, ends, contained, front), starts, ends, contained, lines, p);
      forall i | 0 <= i < |q| && |StartingAt(lines, q[i]) + EndingAt(lines, q[i]) + Lookup(contained, q[i])| > 1
        ensures q[i] in Recorded(ip, starts, ends, contained, q)
      {
        if i < |q| - 1 {
          assert front[i] == q[i];
        }
      }
    }
  }

  /** Two segments with an end point at the same place intersect. */
  lemma SharedEndIntersects(l: Segment, l1: Segment, p: Point)
    requires l.start == p || l.end == p
    requires l1.start == p || l1.end == p
    ensures Intersects(l, l1)
  {
    DirectionProperties(l1.start, l1.end, l1.start);
    OnSegmentProperties(l1.start, l1.end, l1.start);
  }

  /** A point reported with nothing contained, as a sweep of the lines
      reports it, has at least two segments listed, and any two of them
      intersect, since p is an end point of each. */
  lemma ReportedIntersect(ip: map<Point, seq<Segment>>, lines: seq<Segment>, p: Point)
    requires Reported(ip, lines, map[]) && p in ip
    ensures |ip[p]| > 1 && forall l, l1 | l in ip[p] && l1 in ip[p] :: Intersects(l, l1)
  {
    forall l, l1 | l in ip[p] && l1 in ip[p]
      ensures Intersects(l, l1)
    {
      SharedEndIntersects(l, l1, p);
    }
  }

  /** One more event of q0: SweepActive of the longer front is the step
      from the shorter one's line status, or None if that step panics. */
  lemma SweepStep(starts: map<Point, seq<Segment>>, ends: map<Point, seq<Segment>>,
                  contained: map<Point, seq<Segment>>, active: set<Segment>, before: set<Segment>,
                  q0: seq<Point>, n: nat)
    requires n < |q0| && SweepActive(starts, ends, contained, active, q0[..n]) == Some(before)
    ensures IteratePanics(ends, contained, before, q0[n]) ==>
      PanicsLast(starts, ends, contained, active, q0[..n + 1])
    ensures !IteratePanics(ends, contained, before, q0[n]) ==>
      SweepActive(starts, ends, contained, active, q0[..n + 1]) ==
      Some(StepActive(starts, ends, contained, before, q0[n]))
  {
    assert q0[..n + 1] == q0[..n] + [q0[n]];
    assert q0[..n + 1][..n] == q0[..n];
    SweepActiveSnoc(starts, ends, contained, active, q0[..n], q0[n]);
  }

  /** SweepActive of q followed by p: the line status after q, stepped at p,
      or None if q or p panics. */
  lemma {:induction false} SweepActiveSnoc(starts: map<Point, seq<Segment>>, ends: map<Point, seq<Segment>>,
                                           contained: map<Point, seq<Segment>>, active: set<Segment>,
                                           q: seq<Point>, p: Point)
    ensures SweepActive(starts, ends, contained, active, q + [p]) ==
      match SweepActive(starts, ends, contained, active, q)
      case None => None
      case Some(a) =>
        if IteratePanics(ends, contained, a, p) then None
        else Some(StepActive(starts, ends, contained, a, p))
    decreases |q|
  {
    if q == [] {
      assert [] + [p] == [p];
    } else {
      assert (q + [p])[0] == q[0] && (q + [p])[1..] == q[1..] + [p];
      if !IteratePanics(ends, contained, active, q[0]) {
        SweepActiveSnoc(starts, ends, contained, StepActive(starts, ends, contained, active, q[0]), q[1..], p);
      }
    }
  }

  /** How a drain of queue q ends after taking its first k events: it
      panicked, after taking at least one event, exactly when SweepActive of
      all of q is None, and otherwise it took all of q. */
  lemma SweepEnd(starts: map<Point, seq<Segment>>, ends: map<Point, seq<Segment>>,
                 contained: map<Point, seq<Segment>>, active0: set<Segment>, q: seq<Point>,
                 k: nat, active: set<Segment>, panicked: bool)
    requires k <= |q|
    requires !panicked ==> k == |q| && SweepActive(starts, ends, contained, active0, q[..k]) == Some(active)
    requires panicked ==> PanicsLast(starts, ends, contained, active0, q[..k])
    ensures panicked <==> SweepActive(starts, ends, contained, active0, q) == None
    ensures !panicked ==> q[..k] == q && SweepActive(starts, ends, contained, active0, q) == Some(active)
    ensures panicked ==> 0 < k
  {
    if panicked {
      PanicsLastNone(starts, ends, contained, active0, q[..k]);
      SweepActivePrefix(starts, ends, contained, active0, q, k);
    } else {
      assert q[..k] == q;
    }
  }

  /** A front that panics at its last event has no line status. */
  lemma PanicsLastNone(starts: map<Point, seq<Segment>>, ends: map<Point, seq<Segment>>,
                       contained: map<Point, seq<Segment>>, active: set<Segment>, q: seq<Point>)
    requires PanicsLast(starts, ends, contained, active, q)
    ensures SweepActive(starts, ends, contained, active, q) == None
  {
    assert q == q[..|q| - 1] + [q[|q| - 1]];
    SweepActiveSnoc(starts, ends, contained, active, q[..|q| - 1], q[|q| - 1]);
  }

  /** Once a front of q panics, so does all of q. */
  lemma {:induction false} SweepActivePrefix(starts: map<Point, seq<Segment>>, ends: map<Point, seq<Segment>>,
                                             contained: map<Point, seq<Segment>>, active: set<Segment>,
                                             q: seq<Point>, k: nat)
    requires k <= |q| && SweepActive(starts, ends, contained, active, q[..k]) == None
    ensures SweepActive(starts, ends, contained, active, q) == None
    decreases k
  {
    if k != 0 && !IteratePanics(ends, contained, active, q[0]) {
      assert q[..k][0] == q[0] && q[..k][1..] == q[1..][..k - 1];
      SweepActivePrefix(starts, ends, contained, StepActive(starts, ends, contained, active, q[0]), q[1..], k - 1);
    }
  }

  /** Every point of the initial queue is an end point of one of the lines. */
  lemma {:induction false} InitQueueFrom(lines: seq<Segment>)
    ensures forall a :: a in InitQueue(lines) ==> exists l :: l in lines && (a == l.start || a == l.end)
  {
    if lines != [] {
      var init, l := lines[..|lines| - 1], lines[|lines| - 1];
      var q := InitQueue(init);
      InitQueueFrom(init);
      forall a | a in InitQueue(lines)
        ensures exists m :: m in lines && (a == m.start || a == m.end)
      {
        AddEventFrom(AddEvent(q, l.start), l.end, a);
        if a != l.end {
          AddEventFrom(q, l.start, a);
        }
        if a != l.start && a != l.end {
          var m :| m in init && (a == m.start || a == m.end);
          var k :| 0 <= k < |init| && init[k] == m;
          assert lines[k] == m;
        }
      }
    }
  }

  /** A point of AddEvent(q, p) is a point of q or p. */
  lemma AddEventFrom(q: seq<Point>, p: Point, a: Point)
    requires a in AddEvent(q, p)
    ensures a in q || a == p
  {
    if !Queued(q, p) {
      InsertEventElems(q, p);
    }
  }

  /** In a fresh sweep state, the first lsiIterate at a point panics
      exactly when a line ends there: no line has a node in the line status
      yet. */
  lemma FirstEventPanics(lines: seq<Segment>, starts: map<Point, seq<Segment>>,
                         ends: map<Point, seq<Segment>>, a: Point)
    requires IndexedBy(starts, ends, lines)
    ensures IteratePanics(ends, map[], {}, a) <==> EndingAt(lines, a) != []
  {
    assert Lookup(ends, a) == EndingAt(lines, a);
    assert Lookup(map[], a) == [];
    assert EndingAt(lines, a) + [] == EndingAt(lines, a);
    if EndingAt(lines, a) != [] {
      assert EndingAt(lines, a)[0] in Elems(EndingAt(lines, a));
    }
  }

  /** The initial queue is empty exactly when there are no lines. */
  lemma InitQueueEmpty(lines: seq<Segment>)
    ensures InitQueue(lines) == [] <==> lines == []
  {
    if lines != [] {
      var l := lines[|lines| - 1];
      AddEventNonEmpty(AddEvent(InitQueue(lines[..|lines| - 1]), l.start), l.end);
    }
  }

  /** The lines of a single line or of a pair at a point. */
  lemma IndexPair(a: Segment, b: Segment, p: Point)
    ensures StartingAt([a], p) == (if a.start == p then [a] else [])
    ensures EndingAt([a], p) == (if a.end == p then [a] else [])
    ensures StartingAt([a, b], p) == StartingAt([a], p) + (if b.start == p then [b] else [])
    ensures EndingAt([a, b], p) == EndingAt([a], p) + (if b.end == p then [b] else [])
  {
    assert [a][..0] == [] && [a, b][..1] == [a];
  }

  /** Sweeping LowLine alone: it enters at its start and leaves at its end,
      and nothing panics. */
  lemma SingleLineSweeps(starts: map<Point, seq<Segment>>, ends: map<Point, seq<Segment>>)
    requires IndexedBy(starts, ends, [LowLine])
    ensures SweepActive(starts, ends, map[], {}, InitQueue([LowLine])) == Some({})
  {
    LowLineQueue();
    IndexPair(LowLine, LowLine, LowLine.start);
    IndexPair(LowLine, LowLine, LowLine.end);
    LowLineSteps(starts, ends);
  }

  /** LowLine's two events, given where the indexes list it. */
  lemma LowLineSteps(starts: map<Point, seq<Segment>>, ends: map<Point, seq<Segment>>)
    requires Lookup(starts, LowLine.start) == [LowLine] && Lookup(ends, LowLine.start) == []
    requires Lookup(starts, LowLine.end) == [] && Lookup(ends, LowLine.end) == [LowLine]
    ensures SweepActive(starts, ends, map[], {}, [LowLine.start, LowLine.end]) == Some({})
    ensures SweepActive(starts, ends, map[], {}, [LowLine.start, LowLine.end]) ==
      SweepActive(starts, ends, map[], {}, [LowLine.start, LowLine.end, HighLine.end][..2])
  {
    var q := [LowLine.start, LowLine.end];
    assert Lookup(map[], LowLine.start) == [] && Lookup(map[], LowLine.end) == [];
    assert Elems([LowLine]) == {LowLine} && Elems<Segment>([]) == {};
    assert !IteratePanics(ends, map[], {}, LowLine.start) by {
      assert Lookup(ends, LowLine.start) + Lookup(map[], LowLine.start) == [];
    }
    assert StepActive(starts, ends, map[], {}, LowLine.start) == {LowLine} by {
      assert Lookup(starts, LowLine.start) + Lookup(map[], LowLine.start) == [LowLine];
      assert Lookup(ends, LowLine.start) + Lookup(map[], LowLine.start) == [];
    }
    assert !IteratePanics(ends, map[], {LowLine}, LowLine.end) by {
      assert Lookup(ends, LowLine.end) + Lookup(map[], LowLine.end) == [LowLine];
    }
    assert StepActive(starts, ends, map[], {LowLine}, LowLine.end) == {} by {
      assert Lookup(starts, LowLine.end) + Lookup(map[], LowLine.end) == [];
      assert Lookup(ends, LowLine.end) + Lookup(map[], LowLine.end) == [LowLine];
    }
    assert q[1..] == [LowLine.end] && [LowLine.end][1..] == [];
    assert SweepActive(starts, ends, map[], {}, [LowLine.end][1..]) == Some({});
    assert [LowLine.start, LowLine.end, HighLine.end][..2] == q;
  }

  /** Sweeping LowLine and HighLine panics at HighLine's end: its start was
      never queued (InitQueueDropsStart), so it never entered the line
      status, and Delete is handed its nil node. */
  lemma DroppedStartPanics(starts: map<Point, seq<Segment>>, ends: map<Point, seq<Segment>>)
    requires IndexedBy(starts, ends, [LowLine, HighLine])
    ensures SweepActive(starts, ends, map[], {}, InitQueue([LowLine, HighLine])) == None
  {
    InitQueueDropsStart();
    PairLookups(starts, ends);
    HighLineSteps(starts, ends);
  }

  /** Where the indexes of LowLine and HighLine list them. */
  lemma PairLookups(starts: map<Point, seq<Segment>>, ends: map<Point, seq<Segment>>)
    requires IndexedBy(starts, ends, [LowLine, HighLine])
    ensures Lookup(starts, LowLine.start) == [LowLine] && Lookup(ends, LowLine.start) == []
    ensures Lookup(starts, LowLine.end) == [] && Lookup(ends, LowLine.end) == [LowLine]
    ensures Lookup(ends, HighLine.end) == [HighLine]
  {
    PairAt(starts, ends, LowLine.start);
    PairAt(starts, ends, LowLine.end);
    PairAt(starts, ends, HighLine.end);
  }

  /** What the indexes of LowLine and HighLine list at one point. */
  lemma PairAt(starts: map<Point, seq<Segment>>, ends: map<Point, seq<Segment>>, p: Point)
    requires IndexedBy(starts, ends, [LowLine, HighLine])
    ensures Lookup(starts, p) == (if LowLine.start == p then [LowLine] else []) + (if HighLine.start == p then [HighLine] else [])
    ensures Lookup(ends, p) == (if LowLine.end == p then [LowLine] else []) + (if HighLine.end == p then [HighLine] else [])
  {
    IndexPair(LowLine, HighLine, p);
    assert Lookup(starts, p) == StartingAt([LowLine, HighLine], p);
    assert Lookup(ends, p) == EndingAt([LowLine, HighLine], p);
  }

  /** The three events queued for LowLine and HighLine, given where the
      indexes list them. */
  lemma HighLineSteps(starts: map<Point, seq<Segment>>, ends: map<Point, seq<Segment>>)
    requires Lookup(starts, LowLine.start) == [LowLine] && Lookup(ends, LowLine.start) == []
    requires Lookup(starts, LowLine.end) == [] && Lookup(ends, LowLine.end) == [LowLine]
    requires Lookup(ends, HighLine.end) == [HighLine]
    ensures SweepActive(starts, ends, map[], {}, [LowLine.start, LowLine.end, HighLine.end]) == None
  {
    var q := [LowLine.start, LowLine.end, HighLine.end];
    LowLineSteps(starts, ends);
    assert IteratePanics(ends, map[], {}, HighLine.end) by {
      assert Lookup(map[], HighLine.end) == [];
      assert HighLine in Elems(Lookup(ends, HighLine.end) + Lookup(map[], HighLine.end));
    }
    SweepActiveSnoc(starts, ends, map[], {}, q[..2], HighLine.end);
    assert q[..2] + [HighLine.end] == q;
  }

  /** Adding an event leaves a non-empty queue. */
  lemma AddEventNonEmpty(q: seq<Point>, p: Point)
    ensures AddEvent(q, p) != []
  {
    if !Queued(q, p) {
      assert p in multiset(InsertEvent(q, p));
    }
  }
}
