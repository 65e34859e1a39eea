/** Concrete situations worked through the model: the slingshot sign of a
    shot, the two gates of a capture, and first-edge-wins on a triangle. */
module Scenarios {
  import opened Vectors
  import opened Collision
  import opened Motion

  /** Releasing the mouse 50 pixels to the right of the ball shoots it to the
      left at speed 5: the drag is ball - mouse. */
  lemma LaunchAwayFromMouse()
    ensures LaunchVelocity(Sub(Vec(100.0, 100.0), Vec(150.0, 100.0)), 50.0) == Vec(-5.0, 0.0)
  {
    var drag := Sub(Vec(100.0, 100.0), Vec(150.0, 100.0));
    assert drag == Vec(-50.0, 0.0);
    assert LengthSq(drag) == 2500.0;
    LaunchBelowCap(drag, 50.0);
  }

  /** A ball 14 pixels from the hole drops in at speed 0.5 but rolls over
      it at speed 2. */
  lemma CaptureNeedsSlowBall()
    ensures !Captures(Vec(714.0, 500.0), Vec(2.0, 0.0), Vec(700.0, 500.0))
    ensures Captures(Vec(714.0, 500.0), Vec(0.5, 0.0), Vec(700.0, 500.0))
  {
    assert LengthSq(Sub(Vec(714.0, 500.0), Vec(700.0, 500.0))) == 196.0;
    assert LengthSq(Vec(2.0, 0.0)) == 4.0;
    assert LengthSq(Vec(0.5, 0.0)) == 0.25;
  }

  /** ClosestParam once its dot product and squared length are known. */
  lemma ClosestParamValue(c: Vec, p1: Vec, p2: Vec, D: real, L: real)
    requires p1 != p2
    requires Dot(Sub(c, p1), Sub(p2, p1)) == D && LengthSq(Sub(p2, p1)) == L
    ensures ClosestParam(c, p1, p2) == Max(0.0, Min(1.0, D / L))
  {
    ClosestParamIsClamp(c, p1, p2);
  }

  /** The bottom edge's closest point to a ball at (5, 5) is (5, 0), 5 pixels away. */
  lemma BottomEdgeDistance()
    ensures LengthSq(Sub(Vec(5.0, 5.0), ClosestPoint(Vec(5.0, 5.0), Vec(0.0, 0.0), Vec(100.0, 0.0)))) == 25.0
  {
    assert Sub(Vec(5.0, 5.0), Vec(0.0, 0.0)) == Vec(5.0, 5.0);
    assert Sub(Vec(100.0, 0.0), Vec(0.0, 0.0)) == Vec(100.0, 0.0);
    assert Dot(Vec(5.0, 5.0), Vec(100.0, 0.0)) == 500.0;
    assert LengthSq(Vec(100.0, 0.0)) == 10000.0;
    ClosestParamValue(Vec(5.0, 5.0), Vec(0.0, 0.0), Vec(100.0, 0.0), 500.0, 10000.0);
    assert SegmentPoint(Vec(0.0, 0.0), Vec(100.0, 0.0), 0.05) == Vec(5.0, 0.0);
    assert LengthSq(Vec(0.0, 5.0)) == 25.0;
  }

  lemma LeftEdgeParam()
    ensures ClosestParam(Vec(5.0, 5.0), Vec(50.0, 80.0), Vec(0.0, 0.0)) == 8250.0 / 8900.0
  {
    assert Sub(Vec(5.0, 5.0), Vec(50.0, 80.0)) == Vec(-45.0, -75.0);
    assert Sub(Vec(0.0, 0.0), Vec(50.0, 80.0)) == Vec(-50.0, -80.0);
    assert Dot(Vec(-45.0, -75.0), Vec(-50.0, -80.0)) == 8250.0;
    assert LengthSq(Vec(-50.0, -80.0)) == 8900.0;
    ClosestParamValue(Vec(5.0, 5.0), Vec(50.0, 80.0), Vec(0.0, 0.0), 8250.0, 8900.0);
  }

  /** The left edge's closest point to a ball at (5, 5) is under 2 pixels away. */
  lemma LeftEdgeDistance()
    ensures LengthSq(Sub(Vec(5.0, 5.0), ClosestPoint(Vec(5.0, 5.0), Vec(50.0, 80.0), Vec(0.0, 0.0)))) < 4.0
  {
    LeftEdgeParam();
    assert SegmentPoint(Vec(50.0, 80.0), Vec(0.0, 0.0), 8250.0 / 8900.0) == Vec(650.0 / 178.0, 1040.0 / 178.0);
    assert Sub(Vec(5.0, 5.0), Vec(650.0 / 178.0, 1040.0 / 178.0)) == Vec(240.0 / 178.0, -150.0 / 178.0);
    assert LengthSq(Vec(240.0 / 178.0, -150.0 / 178.0)) == 80100.0 / 31684.0;
  }

  const Triangle: seq<Vec> := [Vec(0.0, 0.0), Vec(100.0, 0.0), Vec(50.0, 80.0)]

  /** The squared distance from `c` to edge i, once its ends are known. */
  lemma EdgeDistanceOf(c: Vec, points: seq<Vec>, i: int, p1: Vec, p2: Vec, d: real)
    requires NonDegenerate(points) && 0 <= i < |points|
    requires points[i] == p1 && EdgeEnd(points, i) == p2
    requires LengthSq(Sub(c, ClosestPoint(c, p1, p2))) == d
    ensures LengthSq(Sub(c, ClosestPoint(c, points[i], EdgeEnd(points, i)))) == d
    ensures EdgeHit(c, points, i) <==> d <= BallRadius * BallRadius
  {
  }

  /** A hit on the first edge is always the first hit. */
  lemma FirstEdgeHit(c: Vec, points: seq<Vec>)
    requires NonDegenerate(points) && |points| > 0 && EdgeHit(c, points, 0)
    ensures IsFirstHit(c, points, 0)
  {
  }

  lemma TriangleShape()
    ensures NonDegenerate(Triangle)
    ensures Triangle[0] == Vec(0.0, 0.0) && EdgeEnd(Triangle, 0) == Vec(100.0, 0.0)
    ensures Triangle[2] == Vec(50.0, 80.0) && EdgeEnd(Triangle, 2) == Vec(0.0, 0.0)
  {
    assert EdgeEnd(Triangle, 0) == Vec(100.0, 0.0);
    assert EdgeEnd(Triangle, 1) == Vec(50.0, 80.0);
    assert EdgeEnd(Triangle, 2) == Vec(0.0, 0.0);
  }

  /** A ball at (5, 5) is within reach of the triangle's bottom edge, edge 0,
      which is therefore the first edge hit. */
  lemma BottomEdgeFirst()
    ensures NonDegenerate(Triangle) && IsFirstHit(Vec(5.0, 5.0), Triangle, 0)
  {
    BottomEdgeInReach();
    FirstEdgeHit(Vec(5.0, 5.0), Triangle);
  }

  lemma BottomEdgeInReach()
    ensures NonDegenerate(Triangle) && EdgeHit(Vec(5.0, 5.0), Triangle, 0)
  {
    TriangleShape();
    BottomEdgeDistance();
    EdgeDistanceOf(Vec(5.0, 5.0), Triangle, 0, Vec(0.0, 0.0), Vec(100.0, 0.0), 25.0);
  }

  /** It is also within reach of the left edge, edge 2. */
  lemma LeftEdgeInReach()
    ensures NonDegenerate(Triangle) && EdgeHit(Vec(5.0, 5.0), Triangle, 2)
  {
    TriangleShape();
    LeftEdgeDistance();
    EdgeDistanceOf(Vec(5.0, 5.0), Triangle, 2, Vec(50.0, 80.0), Vec(0.0, 0.0),
                   LengthSq(Sub(Vec(5.0, 5.0), ClosestPoint(Vec(5.0, 5.0), Vec(50.0, 80.0), Vec(0.0, 0.0)))));
  }

  /** The left edge is nearer to the ball than the bottom edge. */
  lemma LeftEdgeNearer()
    ensures LengthSq(Sub(Vec(5.0, 5.0), ClosestPoint(Vec(5.0, 5.0), Vec(50.0, 80.0), Vec(0.0, 0.0))))
          < LengthSq(Sub(Vec(5.0, 5.0), ClosestPoint(Vec(5.0, 5.0), Vec(0.0, 0.0), Vec(100.0, 0.0))))
  {
    BottomEdgeDistance();
    LeftEdgeDistance();
  }

  /** Edge 0 comes first in vertex order, so although the ball is nearer to
      edge 2, edge 0 alone reflects it, whatever its velocity. */
  lemma FirstEdgeWins(v: Vec)
    ensures NonDegenerate(Triangle)
    ensures PolygonResponse(Vec(5.0, 5.0), v, Triangle) == ReflectVelocity(v, Triangle[0], EdgeEnd(Triangle, 0))
  {
    BottomEdgeFirst();
    PolygonResponseIsFirstHit(Vec(5.0, 5.0), v, Triangle, 0);
  }
}
