/** Orientation, containment and crossing tests, and the terminal test of the
    game (src/utils/geometry.tsx). Coordinates are exact reals. */
module Geometry {
  import opened Types

  /** Twice the signed area of the triangle (p1, p2, p3): positive for a
      counter-clockwise turn, negative for a clockwise one, zero when the
      three points are collinear. */
  function Determinate(p1: Point, p2: Point, p3: Point): real
  {
    (p2.x - p1.x) * (p3.y - p1.y) - (p3.x - p1.x) * (p2.y - p1.y)
  }

  /** Two points at the same position (whatever their identities). */
  predicate SamePosition(p: Point, q: Point)
  {
    p.x == q.x && p.y == q.y
  }

  /** Closed-boundary containment: `point` is outside only when it sees one
      side of the triangle turning one way and another side the other way. */
  predicate IsPointInTriangle(point: Point, trianglePoint1: Point, trianglePoint2: Point, trianglePoint3: Point)
  {
    var orientationWith12 := Determinate(point, trianglePoint1, trianglePoint2);
    var orientationWith23 := Determinate(point, trianglePoint2, trianglePoint3);
    var orientationWith31 := Determinate(point, trianglePoint3, trianglePoint1);
    var hasPositiveOrientation := orientationWith12 > 0.0 || orientationWith23 > 0.0 || orientationWith31 > 0.0;
    var hasNegativeOrientation := orientationWith12 < 0.0 || orientationWith23 < 0.0 || orientationWith31 < 0.0;
    !(hasPositiveOrientation && hasNegativeOrientation)
  }

  /** Strict crossing of the segments p1p2 and p3p4: each segment has the
      endpoints of the other strictly on opposite sides of its line. */
  predicate DoLinesIntersect(point1: Point, point2: Point, point3: Point, point4: Point)
  {
    Determinate(point1, point2, point3) * Determinate(point1, point2, point4) < 0.0 &&
    Determinate(point3, point4, point1) * Determinate(point3, point4, point2) < 0.0
  }

  // ---------------------------------------------------------------------
  // Edge lists

  /** Edge `e` joins `a` and `b`, in either orientation. */
  predicate Joins(e: Edge, a: nat, b: nat)
  {
    (e.point1Id == a && e.point2Id == b) || (e.point1Id == b && e.point2Id == a)
  }

  /** Some edge of `edges` joins `a` and `b`. */
  predicate HasEdge(edges: seq<Edge>, a: nat, b: nat)
  {
    exists k :: 0 <= k < |edges| && Joins(edges[k], a, b)
  }

  /** Every edge names two points of `points`. */
  predicate EdgesInRange(points: seq<Point>, edges: seq<Edge>)
  {
    forall k :: 0 <= k < |edges| ==> edges[k].point1Id < |points| && edges[k].point2Id < |points|
  }

  /** The segment from point `a` to point `b` strictly crosses some edge. */
  predicate CrossesSomeEdge(points: seq<Point>, edges: seq<Edge>, a: nat, b: nat)
    requires a < |points| && b < |points| && EdgesInRange(points, edges)
  {
    exists k :: 0 <= k < |edges| &&
      DoLinesIntersect(points[a], points[b], points[edges[k].point1Id], points[edges[k].point2Id])
  }

  /** The pair (a, b) is not yet connected and its segment crosses no edge. */
  predicate IsLegalNewEdge(points: seq<Point>, edges: seq<Edge>, a: nat, b: nat)
    requires a < |points| && b < |points| && EdgesInRange(points, edges)
  {
    !HasEdge(edges, a, b) && !CrossesSomeEdge(points, edges, a, b)
  }

  /** Some pair of distinct points could still be joined by a legal edge. */
  ghost predicate CanDrawMore(points: seq<Point>, edges: seq<Edge>)
    requires EdgesInRange(points, edges)
  {
    exists i: nat, j: nat :: i < j < |points| && IsLegalNewEdge(points, edges, i, j)
  }

  /** The terminal test: scans the pairs in increasing index order and stops
      at the first one that is unconnected and crosses no edge. */
  method CanDrawMoreEdges(points: seq<Point>, edges: seq<Edge>) returns (r: bool)
    requires EdgesInRange(points, edges)
    ensures r == CanDrawMore(points, edges)
  {
    for point1Index := 0 to |points|
      invariant forall i: nat, j: nat :: i < point1Index && i < j < |points| ==> !IsLegalNewEdge(points, edges, i, j)
    {
      for point2Index := point1Index + 1 to |points|
        invariant forall j: nat :: point1Index < j < point2Index ==> !IsLegalNewEdge(points, edges, point1Index, j)
      {
        if HasEdge(edges, point1Index, point2Index) {
          continue;
        }
        var intersects := CrossesSomeEdge(points, edges, point1Index, point2Index);
        if !intersects {
          assert IsLegalNewEdge(points, edges, point1Index, point2Index);
          return true;
        }
      }
    }
    return false;
  }

  // ---------------------------------------------------------------------
  // Orientation

  /** Swapping the last two arguments negates the determinant. */
  lemma DeterminateSwap(p1: Point, p2: Point, p3: Point)
    ensures Determinate(p1, p3, p2) == -Determinate(p1, p2, p3)
  {
  }

  /** A cyclic rotation of the arguments keeps the determinant. */
  lemma DeterminateRotate(p1: Point, p2: Point, p3: Point)
    ensures Determinate(p2, p3, p1) == Determinate(p1, p2, p3)
  {
  }

  /** Two coinciding arguments make the determinant zero. */
  lemma DeterminateDegenerate(p1: Point, p2: Point, p3: Point)
    requires SamePosition(p1, p2) || SamePosition(p2, p3) || SamePosition(p1, p3)
    ensures Determinate(p1, p2, p3) == 0.0
  {
  }

  /** The determinant is an affine function of its first argument. */
  lemma DeterminateExpanded(p: Point, a: Point, b: Point)
    ensures Determinate(p, a, b) == (a.x * b.y - b.x * a.y) + p.x * (a.y - b.y) + p.y * (b.x - a.x)
  {
  }

  /** Cancelling a non-zero factor. */
  lemma CancelFactor(d: real, u: real, v: real)
    requires d != 0.0 && d * u == d * v
    ensures u == v
  {
  }

  /** The ratio x / (x - y) of two values of strictly opposite signs lies
      strictly between 0 and 1. */
  lemma RatioInUnitInterval(x: real, y: real)
    requires x * y < 0.0
    ensures x - y != 0.0 && 0.0 < x / (x - y) < 1.0
  {
    if x > 0.0 {
      assert y < 0.0;
    } else {
      assert x < 0.0 && y > 0.0;
    }
  }

  /** A product of two positive reals is positive. */
  lemma PositiveProduct(u: real, v: real)
    requires u > 0.0 && v > 0.0
    ensures u * v > 0.0
  {
  }

  /** A nonnegative multiple of `d` has the sign of `d`. */
  lemma ScaledSign(w: real, d: real)
    requires w >= 0.0
    ensures d >= 0.0 ==> w * d >= 0.0
    ensures d <= 0.0 ==> w * d <= 0.0
  {
  }

  // ---------------------------------------------------------------------
  // Containment

  /** A vertex of the triangle counts as inside it. */
  lemma VertexIsInTriangle(p: Point, a: Point, b: Point, c: Point)
    requires SamePosition(p, a) || SamePosition(p, b) || SamePosition(p, c)
    ensures IsPointInTriangle(p, a, b, c)
  {
  }

  /** Three points on one horizontal line have signed area zero. */
  lemma OnOneHorizontal(p: Point, a: Point, b: Point)
    requires p.y == a.y && a.y == b.y
    ensures Determinate(p, a, b) == 0.0
  {
  }

  /** For a flat triangle on a horizontal line, every point of that line
      passes the closed test, even one beyond all three vertices. */
  lemma FlatTriangleContainsItsLine(p: Point, a: Point, b: Point, c: Point)
    requires p.y == a.y && a.y == b.y && b.y == c.y
    ensures IsPointInTriangle(p, a, b, c)
  {
    OnOneHorizontal(p, a, b);
    OnOneHorizontal(p, b, c);
    OnOneHorizontal(p, c, a);
  }

  /** The containment test gives the same answer for every order of the
      triangle's vertices. */
  lemma PointInTriangleOrderFree(p: Point, a: Point, b: Point, c: Point)
    ensures IsPointInTriangle(p, b, c, a) == IsPointInTriangle(p, a, b, c)
    ensures IsPointInTriangle(p, c, a, b) == IsPointInTriangle(p, a, b, c)
    ensures IsPointInTriangle(p, a, c, b) == IsPointInTriangle(p, a, b, c)
    ensures IsPointInTriangle(p, b, a, c) == IsPointInTriangle(p, a, b, c)
    ensures IsPointInTriangle(p, c, b, a) == IsPointInTriangle(p, a, b, c)
  {
    DeterminateSwap(p, a, b);
    DeterminateSwap(p, b, c);
    DeterminateSwap(p, c, a);
  }

  /** Nonnegative weights summing to one that place `p` at the weighted
      average of the vertices a, b and c. */
  ghost predicate IsConvexCombination(p: Point, a: Point, b: Point, c: Point, wa: real, wb: real, wc: real)
  {
    wa >= 0.0 && wb >= 0.0 && wc >= 0.0 && wa + wb + wc == 1.0 &&
    p.x == wa * a.x + wb * b.x + wc * c.x &&
    p.y == wa * a.y + wb * b.y + wc * c.y
  }

  /** `p` lies in the closed triangle with vertices a, b and c. */
  ghost predicate InClosedTriangle(p: Point, a: Point, b: Point, c: Point)
  {
    exists wa: real, wb: real, wc: real :: IsConvexCombination(p, a, b, c, wa, wb, wc)
  }

  /** The orientations of `p` against the three sides add up to the
      orientation of the triangle, and weighting the opposite vertices by
      them gives back `p` scaled by that orientation (Cramer's rule). */
  lemma OrientationIdentities(p: Point, a: Point, b: Point, c: Point)
    ensures Determinate(p, b, c) + Determinate(p, c, a) + Determinate(p, a, b) == Determinate(a, b, c)
    ensures Determinate(p, b, c) * a.x + Determinate(p, c, a) * b.x + Determinate(p, a, b) * c.x
         == Determinate(a, b, c) * p.x
    ensures Determinate(p, b, c) * a.y + Determinate(p, c, a) * b.y + Determinate(p, a, b) * c.y
         == Determinate(a, b, c) * p.y
  {
    DeterminateExpanded(p, b, c);
    DeterminateExpanded(p, c, a);
    DeterminateExpanded(p, a, b);
  }

  /** At a weighted average of the vertices, the orientation against each
      side is the weight of the opposite vertex times the triangle's. */
  lemma OrientationOfCombination(p: Point, a: Point, b: Point, c: Point, wa: real, wb: real, wc: real)
    requires IsConvexCombination(p, a, b, c, wa, wb, wc)
    ensures Determinate(p, b, c) == wa * Determinate(a, b, c)
    ensures Determinate(p, c, a) == wb * Determinate(a, b, c)
    ensures Determinate(p, a, b) == wc * Determinate(a, b, c)
  {
    DeterminateExpanded(p, b, c);
    DeterminateExpanded(p, c, a);
    DeterminateExpanded(p, a, b);
    DeterminateExpanded(a, b, c);
    DeterminateExpanded(b, c, a);
    DeterminateExpanded(c, a, b);
  }

  /** Dividing by the orientation of the triangle turns the orientations
      against the sides into weights summing to one that average the
      vertices to `p` (one coordinate at a time). */
  lemma NormalizedWeights(d: real, oa: real, ob: real, oc: real, va: real, vb: real, vc: real, vp: real)
    requires d != 0.0 && oa + ob + oc == d && oa * va + ob * vb + oc * vc == d * vp
    ensures oa / d + ob / d + oc / d == 1.0
    ensures (oa / d) * va + (ob / d) * vb + (oc / d) * vc == vp
  {
    assert d * (oa / d) == oa && d * (ob / d) == ob && d * (oc / d) == oc;
    assert d * (oa / d + ob / d + oc / d) == d * (oa / d) + d * (ob / d) + d * (oc / d);
    CancelFactor(d, oa / d + ob / d + oc / d, 1.0);
    assert d * ((oa / d) * va + (ob / d) * vb + (oc / d) * vc) == d * vp;
    CancelFactor(d, (oa / d) * va + (ob / d) * vb + (oc / d) * vc, vp);
  }

  /** Orientations of one sign, summing to a non-zero total, give
      nonnegative weights. */
  lemma NonnegativeWeights(d: real, oa: real, ob: real, oc: real)
    requires d != 0.0 && oa + ob + oc == d
    requires (oa >= 0.0 && ob >= 0.0 && oc >= 0.0) || (oa <= 0.0 && ob <= 0.0 && oc <= 0.0)
    ensures oa / d >= 0.0 && ob / d >= 0.0 && oc / d >= 0.0
  {
  }

  /** A point the orientation test accepts is a convex combination of the
      vertices of a non-degenerate triangle. */
  lemma PointInTriangleIsInClosedTriangle(p: Point, a: Point, b: Point, c: Point)
    requires Determinate(a, b, c) != 0.0 && IsPointInTriangle(p, a, b, c)
    ensures InClosedTriangle(p, a, b, c)
  {
    var d := Determinate(a, b, c);
    var oa, ob, oc := Determinate(p, b, c), Determinate(p, c, a), Determinate(p, a, b);
    OrientationIdentities(p, a, b, c);
    NonnegativeWeights(d, oa, ob, oc);
    NormalizedWeights(d, oa, ob, oc, a.x, b.x, c.x, p.x);
    NormalizedWeights(d, oa, ob, oc, a.y, b.y, c.y, p.y);
    assert IsConvexCombination(p, a, b, c, oa / d, ob / d, oc / d);
  }

  /** A convex combination of the vertices passes the orientation test. */
  lemma ClosedTriangleIsPointInTriangle(p: Point, a: Point, b: Point, c: Point)
    requires InClosedTriangle(p, a, b, c)
    ensures IsPointInTriangle(p, a, b, c)
  {
    var wa, wb, wc :| IsConvexCombination(p, a, b, c, wa, wb, wc);
    OrientationOfCombination(p, a, b, c, wa, wb, wc);
    var d := Determinate(a, b, c);
    ScaledSign(wa, d);
    ScaledSign(wb, d);
    ScaledSign(wc, d);
  }

  /** For a triangle that is not degenerate, the orientation test agrees
      with the geometric closed triangle: the convex hull of its vertices. */
  lemma PointInTriangleIffConvexCombination(p: Point, a: Point, b: Point, c: Point)
    requires Determinate(a, b, c) != 0.0
    ensures IsPointInTriangle(p, a, b, c) <==> InClosedTriangle(p, a, b, c)
  {
    if IsPointInTriangle(p, a, b, c) {
      PointInTriangleIsInClosedTriangle(p, a, b, c);
    }
    if InClosedTriangle(p, a, b, c) {
      ClosedTriangleIsPointInTriangle(p, a, b, c);
    }
  }

  // ---------------------------------------------------------------------
  // Crossing

  /** The cross product of the directions of p1p2 and p3p4: zero exactly
      when the two segments are parallel. */
  function DirectionCross(p1: Point, p2: Point, p3: Point, p4: Point): real
  {
    (p2.x - p1.x) * (p4.y - p3.y) - (p4.x - p3.x) * (p2.y - p1.y)
  }

  /** The point at parameter `s` along p1p2 is the point at parameter `t`
      along p3p4. */
  ghost predicate MeetAt(p1: Point, p2: Point, p3: Point, p4: Point, s: real, t: real)
  {
    p1.x + s * (p2.x - p1.x) == p3.x + t * (p4.x - p3.x) &&
    p1.y + s * (p2.y - p1.y) == p3.y + t * (p4.y - p3.y)
  }

  /** The segments are not parallel and meet at a point interior to both. */
  ghost predicate CrossProperly(p1: Point, p2: Point, p3: Point, p4: Point)
  {
    DirectionCross(p1, p2, p3, p4) != 0.0 &&
    exists s: real, t: real :: 0.0 < s < 1.0 && 0.0 < t < 1.0 && MeetAt(p1, p2, p3, p4, s, t)
  }

  /** How the four orientations of a pair of segments relate to the cross
      product of their directions, and where their lines meet. */
  lemma CrossingIdentities(p1: Point, p2: Point, p3: Point, p4: Point)
    ensures Determinate(p1, p2, p4) - Determinate(p1, p2, p3) == DirectionCross(p1, p2, p3, p4)
    ensures Determinate(p3, p4, p1) - Determinate(p3, p4, p2) == DirectionCross(p1, p2, p3, p4)
    ensures DirectionCross(p1, p2, p3, p4) * p1.x + Determinate(p3, p4, p1) * (p2.x - p1.x)
         == DirectionCross(p1, p2, p3, p4) * p3.x - Determinate(p1, p2, p3) * (p4.x - p3.x)
    ensures DirectionCross(p1, p2, p3, p4) * p1.y + Determinate(p3, p4, p1) * (p2.y - p1.y)
         == DirectionCross(p1, p2, p3, p4) * p3.y - Determinate(p1, p2, p3) * (p4.y - p3.y)
  {
  }

  /** Where the segments meet, the orientations of p3 against p1p2 and of
      p1 against p3p4 are fixed by the parameters of the meeting point. */
  lemma OrientationAtMeeting(p1: Point, p2: Point, p3: Point, p4: Point, s: real, t: real)
    requires MeetAt(p1, p2, p3, p4, s, t)
    ensures Determinate(p1, p2, p3) == -t * DirectionCross(p1, p2, p3, p4)
    ensures Determinate(p3, p4, p1) == s * DirectionCross(p1, p2, p3, p4)
  {
    var ux, uy := p2.x - p1.x, p2.y - p1.y;
    var vx, vy := p4.x - p3.x, p4.y - p3.y;
    assert Determinate(p1, p2, p3) + t * DirectionCross(p1, p2, p3, p4)
        == ux * ((p3.y + t * vy) - p1.y) - ((p3.x + t * vx) - p1.x) * uy;
    assert ux * ((p3.y + t * vy) - p1.y) - ((p3.x + t * vx) - p1.x) * uy == ux * (s * uy) - (s * ux) * uy;
    assert Determinate(p3, p4, p1) - s * DirectionCross(p1, p2, p3, p4)
        == vx * ((p1.y + s * uy) - p3.y) - ((p1.x + s * ux) - p3.x) * vy;
    assert vx * ((p1.y + s * uy) - p3.y) - ((p1.x + s * ux) - p3.x) * vy == vx * (t * vy) - (t * vx) * vy;
  }

  /** Solving for the meeting point of the two lines, one coordinate at a
      time. */
  lemma SolveMeeting(d: real, e1: real, d3: real, p1v: real, uv: real, p3v: real, vv: real)
    requires d != 0.0 && d * p1v + e1 * uv == d * p3v - d3 * vv
    ensures p1v + (e1 / d) * uv == p3v + (-d3 / d) * vv
  {
    assert d * (p1v + (e1 / d) * uv) == d * (p3v + (-d3 / d) * vv);
    CancelFactor(d, p1v + (e1 / d) * uv, p3v + (-d3 / d) * vv);
  }

  /** With 0 < t < 1, the values -t * d and (1 - t) * d have strictly
      opposite signs. */
  lemma OppositeSigns(t: real, d: real, u: real, v: real)
    requires 0.0 < t < 1.0 && d != 0.0 && u == -t * d && v == u + d
    ensures u * v < 0.0
  {
    assert u * v == -(t * (1.0 - t)) * (d * d);
    PositiveProduct(t, 1.0 - t);
    PositiveProduct(t * (1.0 - t), d * d);
  }

  /** Segments the crossing test accepts cross properly. */
  lemma IntersectingSegmentsCrossProperly(p1: Point, p2: Point, p3: Point, p4: Point)
    requires DoLinesIntersect(p1, p2, p3, p4)
    ensures CrossProperly(p1, p2, p3, p4)
  {
    var d := DirectionCross(p1, p2, p3, p4);
    var d3, d4 := Determinate(p1, p2, p3), Determinate(p1, p2, p4);
    var e1, e2 := Determinate(p3, p4, p1), Determinate(p3, p4, p2);
    CrossingIdentities(p1, p2, p3, p4);
    RatioInUnitInterval(e1, e2);
    RatioInUnitInterval(d3, d4);
    assert e1 - e2 == d && d3 - d4 == -d;
    assert e1 / d == e1 / (e1 - e2);
    assert -d3 / d == d3 / (d3 - d4);
    SolveMeeting(d, e1, d3, p1.x, p2.x - p1.x, p3.x, p4.x - p3.x);
    SolveMeeting(d, e1, d3, p1.y, p2.y - p1.y, p3.y, p4.y - p3.y);
    assert MeetAt(p1, p2, p3, p4, e1 / d, -d3 / d);
  }

  /** Segments that cross properly pass the crossing test. */
  lemma ProperCrossingIntersects(p1: Point, p2: Point, p3: Point, p4: Point)
    requires CrossProperly(p1, p2, p3, p4)
    ensures DoLinesIntersect(p1, p2, p3, p4)
  {
    var d := DirectionCross(p1, p2, p3, p4);
    var s, t :| 0.0 < s < 1.0 && 0.0 < t < 1.0 && MeetAt(p1, p2, p3, p4, s, t);
    CrossingIdentities(p1, p2, p3, p4);
    OrientationAtMeeting(p1, p2, p3, p4, s, t);
    OppositeSigns(t, d, Determinate(p1, p2, p3), Determinate(p1, p2, p4));
    OppositeSigns(s, -d, Determinate(p3, p4, p1), Determinate(p3, p4, p2));
  }

  /** The strict crossing test holds exactly when the two segments are not
      parallel and meet at a point interior to both of them. */
  lemma DoLinesIntersectIffCrossProperly(p1: Point, p2: Point, p3: Point, p4: Point)
    ensures DoLinesIntersect(p1, p2, p3, p4) <==> CrossProperly(p1, p2, p3, p4)
  {
    if DoLinesIntersect(p1, p2, p3, p4) {
      IntersectingSegmentsCrossProperly(p1, p2, p3, p4);
    }
    if CrossProperly(p1, p2, p3, p4) {
      ProperCrossingIntersects(p1, p2, p3, p4);
    }
  }

  /** Segments that share an endpoint position never count as crossing. */
  lemma SharedEndpointDoesNotIntersect(p1: Point, p2: Point, p3: Point, p4: Point)
    requires SamePosition(p1, p3) || SamePosition(p1, p4) || SamePosition(p2, p3) || SamePosition(p2, p4)
    ensures !DoLinesIntersect(p1, p2, p3, p4)
  {
  }

  /** Segments on one horizontal line never cross, even when they overlap. */
  lemma CollinearSegmentsDoNotIntersect(p1: Point, p2: Point, p3: Point, p4: Point)
    requires p1.y == p2.y && p2.y == p3.y && p3.y == p4.y
    ensures !DoLinesIntersect(p1, p2, p3, p4)
  {
    OnOneHorizontal(p1, p2, p3);
    OnOneHorizontal(p3, p4, p1);
  }

  /** The crossing test ignores which segment comes first and the direction
      of either segment. */
  lemma DoLinesIntersectSymmetric(p1: Point, p2: Point, p3: Point, p4: Point)
    ensures DoLinesIntersect(p3, p4, p1, p2) == DoLinesIntersect(p1, p2, p3, p4)
    ensures DoLinesIntersect(p2, p1, p3, p4) == DoLinesIntersect(p1, p2, p3, p4)
    ensures DoLinesIntersect(p1, p2, p4, p3) == DoLinesIntersect(p1, p2, p3, p4)
  {
    DeterminateRotate(p1, p2, p3);
    DeterminateSwap(p3, p1, p2);
    DeterminateRotate(p1, p2, p4);
    DeterminateSwap(p4, p1, p2);
    DeterminateRotate(p3, p4, p1);
    DeterminateSwap(p1, p3, p4);
    DeterminateRotate(p3, p4, p2);
    DeterminateSwap(p2, p3, p4);
  }
}
