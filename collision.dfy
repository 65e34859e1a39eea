/** Ball-versus-shape collision: edge reflection, closest point on a segment,
    first-edge-wins polygon collision, the rectangle look-ahead test and the
    playfield walls. Every response changes only the ball's velocity. */
module Collision {
  import opened Vectors

  const BallRadius: real := 10.0
  const Width: real := 800.0
  const Height: real := 600.0

  function Min(a: real, b: real): real { if a <= b then a else b }

  function Max(a: real, b: real): real { if a >= b then a else b }

  // ---------------------------------------------------------------------------
  // Reflection
  // ---------------------------------------------------------------------------

  /** Mirror `v` across the line perpendicular to `n`: v - 2 (v.n) n / |n|^2.
      With a unit `n` this is the formula of reflect_velocity. */
  function Mirror(v: Vec, n: Vec): (r: Vec)
    requires n != Zero
    ensures LengthSq(r) == LengthSq(v)
    ensures Dot(r, n) == -Dot(v, n)
    ensures Cross(r, n) == Cross(v, n)
  {
    var k := Dot(v, n) / LengthSq(n);
    MirrorFacts(v, n, k);
    Sub(v, Scale(n, 2.0 * k))
  }

  lemma MirrorFacts(v: Vec, n: Vec, k: real)
    requires n != Zero && k == Dot(v, n) / LengthSq(n)
    ensures LengthSq(Sub(v, Scale(n, 2.0 * k))) == LengthSq(v)
    ensures Dot(Sub(v, Scale(n, 2.0 * k)), n) == -Dot(v, n)
    ensures Cross(Sub(v, Scale(n, 2.0 * k)), n) == Cross(v, n)
  {
    var r := Sub(v, Scale(n, 2.0 * k));
    assert k * LengthSq(n) == Dot(v, n);
    calc {
      Dot(r, n);
      Dot(v, n) - 2.0 * k * LengthSq(n);
      -Dot(v, n);
    }
    calc {
      LengthSq(r);
      LengthSq(v) - 4.0 * k * Dot(v, n) + 4.0 * k * (k * LengthSq(n));
      LengthSq(v);
    }
  }

  lemma NegDiv(a: real, b: real)
    requires b != 0.0
    ensures (-a) / b == -(a / b)
  {
  }

  /** Mirroring is insensitive to the sign of the normal. */
  lemma MirrorNeg(v: Vec, n: Vec)
    requires n != Zero
    ensures Mirror(v, Neg(n)) == Mirror(v, n)
  {
    var L := LengthSq(n);
    var k := Dot(v, n) / L;
    DotNeg(v, n);
    NegLengthSq(n);
    assert Dot(v, Neg(n)) / LengthSq(Neg(n)) == -k by {
      NegDiv(Dot(v, n), L);
    }
    assert Scale(Neg(n), 2.0 * -k) == Scale(n, 2.0 * k);
  }

  /** The normal reflect_velocity settles on for edge p1->p2: the perpendicular
      (-line.y, line.x), negated when the velocity has a positive component
      along it, so that it always opposes the incoming velocity. Kept
      unnormalised; Mirror divides by its squared length instead. */
  function FacingNormal(vel: Vec, p1: Vec, p2: Vec): (n: Vec)
    requires p1 != p2
    ensures n != Zero
    ensures Dot(n, Sub(p2, p1)) == 0.0
    ensures Dot(vel, n) <= 0.0
    ensures n == Perp(Sub(p2, p1)) || n == Neg(Perp(Sub(p2, p1)))
  {
    var line := Sub(p2, p1);
    var p := Perp(line);
    assert line != Zero;
    if Dot(vel, p) > 0.0 then
      DotNeg(vel, p);
      DotNeg(line, p);
      Neg(p)
    else
      p
  }

  /** reflect_velocity: the velocity reflected across edge p1->p2. The speed
      and the component along the edge are kept, and the component across the
      edge is reversed, so the result has a non-negative component along the
      normal that opposes the incoming velocity. A ball already moving away
      from the edge is therefore sent back toward it. The ball position the
      source passes in is unused there and left out here. */
  function ReflectVelocity(vel: Vec, p1: Vec, p2: Vec): (r: Vec)
    requires p1 != p2
    ensures LengthSq(r) == LengthSq(vel)
    ensures Dot(r, Sub(p2, p1)) == Dot(vel, Sub(p2, p1))
    ensures Dot(r, FacingNormal(vel, p1, p2)) == -Dot(vel, FacingNormal(vel, p1, p2)) >= 0.0
  {
    var n := FacingNormal(vel, p1, p2);
    var r := Mirror(vel, n);
    AlongEdgeKept(vel, n, Sub(p2, p1));
    r
  }

  lemma AlongEdgeKept(v: Vec, n: Vec, line: Vec)
    requires n != Zero && Dot(n, line) == 0.0
    ensures Dot(Mirror(v, n), line) == Dot(v, line)
  {
    var k := Dot(v, n) / LengthSq(n);
    assert Dot(Scale(n, 2.0 * k), line) == 2.0 * k * Dot(n, line);
  }

  /** Mirroring twice across the same normal is the identity. */
  lemma MirrorInvolution(v: Vec, n: Vec)
    requires n != Zero
    ensures Mirror(Mirror(v, n), n) == v
  {
    var L := LengthSq(n);
    var k := Dot(v, n) / L;
    var r := Mirror(v, n);
    assert Dot(r, n) / L == -k by {
      assert Dot(r, n) == -Dot(v, n);
      NegDiv(Dot(v, n), L);
    }
    assert Mirror(r, n) == Sub(r, Scale(n, 2.0 * -k));
    assert r == Sub(v, Scale(n, 2.0 * k));
  }

  /** Whichever sign reflect_velocity gives the normal, the result is the
      mirror image across the edge's perpendicular. */
  lemma ReflectIsMirror(vel: Vec, p1: Vec, p2: Vec)
    requires p1 != p2
    ensures ReflectVelocity(vel, p1, p2) == Mirror(vel, Perp(Sub(p2, p1)))
  {
    var p := Perp(Sub(p2, p1));
    if Dot(vel, p) > 0.0 {
      assert FacingNormal(vel, p1, p2) == Neg(p);
      MirrorNeg(vel, p);
    } else {
      assert FacingNormal(vel, p1, p2) == p;
    }
  }

  /** The component across the edge is reversed, whichever way the ball was
      moving: the reflection does not look at which side of the edge the ball
      is on. */
  lemma NormalComponentReversed(vel: Vec, p1: Vec, p2: Vec)
    requires p1 != p2
    ensures Dot(ReflectVelocity(vel, p1, p2), Perp(Sub(p2, p1))) == -Dot(vel, Perp(Sub(p2, p1)))
  {
    ReflectIsMirror(vel, p1, p2);
  }

  /** Reflecting twice across the same edge gives back the original velocity. */
  lemma {:induction false} ReflectInvolution(vel: Vec, p1: Vec, p2: Vec)
    requires p1 != p2
    ensures ReflectVelocity(ReflectVelocity(vel, p1, p2), p1, p2) == vel
  {
    var p := Perp(Sub(p2, p1));
    var r := ReflectVelocity(vel, p1, p2);
    ReflectIsMirror(vel, p1, p2);
    ReflectIsMirror(r, p1, p2);
    MirrorInvolution(vel, p);
  }

  // ---------------------------------------------------------------------------
  // Closest point on a segment
  // ---------------------------------------------------------------------------

  /** The projection parameter of `c` on segment p1->p2, clamped to [0, 1]. */
  function ClosestParam(c: Vec, p1: Vec, p2: Vec): (t: real)
    requires p1 != p2
    ensures 0.0 <= t <= 1.0
  {
    var line := Sub(p2, p1);
    Max(0.0, Min(1.0, Dot(Sub(c, p1), line) / LengthSq(line)))
  }

  /** The point of segment p1->p2 at parameter u. */
  function SegmentPoint(p1: Vec, p2: Vec, u: real): Vec
  {
    Add(p1, Scale(Sub(p2, p1), u))
  }

  function ClosestPoint(c: Vec, p1: Vec, p2: Vec): Vec
    requires p1 != p2
  {
    SegmentPoint(p1, p2, ClosestParam(c, p1, p2))
  }

  lemma DistanceAlong(d: Vec, line: Vec, u: real)
    ensures LengthSq(Sub(d, Scale(line, u)))
         == LengthSq(d) - 2.0 * u * Dot(d, line) + Sq(u) * LengthSq(line)
  {
    calc {
      LengthSq(Sub(d, Scale(line, u)));
      (d.x - u * line.x) * (d.x - u * line.x) + (d.y - u * line.y) * (d.y - u * line.y);
      (d.x * d.x + d.y * d.y) - 2.0 * u * (d.x * line.x + d.y * line.y)
        + (u * u) * (line.x * line.x + line.y * line.y);
    }
  }

  lemma ProductNonNegative(a: real, b: real)
    requires (a >= 0.0 && b >= 0.0) || (a <= 0.0 && b <= 0.0)
    ensures a * b >= 0.0
  {
  }

  /** The squared distance from a point to the point at parameter u of a
      line, written as a quadratic in u: base - 2 u D + u^2 L. */
  function Quadratic(base: real, D: real, L: real, u: real): real
  {
    base - 2.0 * u * D + Sq(u) * L
  }

  /** Along a line, the quadratic at u exceeds its value at the clamped
      parameter t by L (u - t)(u + t - 2q), q the unclamped one; that
      product is never negative when u lies in [0, 1]. */
  lemma ClampedParamIsBest(base: real, D: real, L: real, u: real, t: real)
    requires L > 0.0 && 0.0 <= u <= 1.0
    requires t == Max(0.0, Min(1.0, D / L))
    ensures Quadratic(base, D, L, t) <= Quadratic(base, D, L, u)
  {
    var q := D / L;
    DivThenMul(D, L);
    assert D == q * L;
    var gap := (u - t) * (u + t - 2.0 * q);
    assert gap >= 0.0 by {
      if q < 0.0 {
        ProductNonNegative(u - t, u + t - 2.0 * q);
      } else if q > 1.0 {
        ProductNonNegative(u - t, u + t - 2.0 * q);
      } else {
        assert gap == Sq(u - t);
        SqNonNegative(u - t);
      }
    }
    assert (-2.0 * u * (q * L) + Sq(u) * L) - (-2.0 * t * (q * L) + Sq(t) * L) == L * gap;
    ProductNonNegative(L, gap);
  }

  lemma DivThenMul(a: real, b: real)
    requires b != 0.0
    ensures (a / b) * b == a
  {
  }

  /** The squared distance from `c` to the point at parameter u, as a
      quadratic in u. */
  lemma SegmentDistance(c: Vec, p1: Vec, p2: Vec, u: real)
    ensures LengthSq(Sub(c, SegmentPoint(p1, p2, u)))
         == Quadratic(LengthSq(Sub(c, p1)), Dot(Sub(c, p1), Sub(p2, p1)), LengthSq(Sub(p2, p1)), u)
  {
    assert Sub(c, SegmentPoint(p1, p2, u)) == Sub(Sub(c, p1), Scale(Sub(p2, p1), u));
    DistanceAlong(Sub(c, p1), Sub(p2, p1), u);
  }

  lemma ClosestParamIsClamp(c: Vec, p1: Vec, p2: Vec)
    requires p1 != p2
    ensures LengthSq(Sub(p2, p1)) > 0.0
    ensures ClosestParam(c, p1, p2)
         == Max(0.0, Min(1.0, Dot(Sub(c, p1), Sub(p2, p1)) / LengthSq(Sub(p2, p1))))
  {
    assert Sub(p2, p1) != Zero;
  }

  /** The clamped projection is the point of the segment nearest to `c`. */
  lemma {:induction false} ClosestPointIsNearest(c: Vec, p1: Vec, p2: Vec, u: real)
    requires p1 != p2
    requires 0.0 <= u <= 1.0
    ensures LengthSq(Sub(c, ClosestPoint(c, p1, p2))) <= LengthSq(Sub(c, SegmentPoint(p1, p2, u)))
  {
    assert LengthSq(Sub(c, ClosestPoint(c, p1, p2)))
        == Quadratic(LengthSq(Sub(c, p1)), Dot(Sub(c, p1), Sub(p2, p1)), LengthSq(Sub(p2, p1)), ClosestParam(c, p1, p2))
    by {
      SegmentDistance(c, p1, p2, ClosestParam(c, p1, p2));
    }
    assert LengthSq(Sub(c, SegmentPoint(p1, p2, u)))
        == Quadratic(LengthSq(Sub(c, p1)), Dot(Sub(c, p1), Sub(p2, p1)), LengthSq(Sub(p2, p1)), u)
    by {
      SegmentDistance(c, p1, p2, u);
    }
    assert Quadratic(LengthSq(Sub(c, p1)), Dot(Sub(c, p1), Sub(p2, p1)), LengthSq(Sub(p2, p1)), ClosestParam(c, p1, p2))
        <= Quadratic(LengthSq(Sub(c, p1)), Dot(Sub(c, p1), Sub(p2, p1)), LengthSq(Sub(p2, p1)), u)
    by {
      ClosestParamIsClamp(c, p1, p2);
      ClampedParamIsBest(LengthSq(Sub(c, p1)), Dot(Sub(c, p1), Sub(p2, p1)), LengthSq(Sub(p2, p1)),
                         u, ClosestParam(c, p1, p2));
    }
  }

  // ---------------------------------------------------------------------------
  // Polygon collision (collide_polygon)
  // ---------------------------------------------------------------------------

  /** The far end of edge i, wrapping from the last vertex to the first. */
  function EdgeEnd(points: seq<Vec>, i: int): Vec
    requires 0 <= i < |points|
  {
    points[(i + 1) % |points|]
  }

  /** Every edge of the closed polygon has two distinct ends; the source
      divides by the edge's squared length and normalises its perpendicular. */
  predicate NonDegenerate(points: seq<Vec>)
  {
    forall i :: 0 <= i < |points| ==> points[i] != EdgeEnd(points, i)
  }

  /** Edge i comes within the ball's radius of `c`. */
  predicate EdgeHit(c: Vec, points: seq<Vec>, i: int)
    requires NonDegenerate(points) && 0 <= i < |points|
  {
    LengthSq(Sub(c, ClosestPoint(c, points[i], EdgeEnd(points, i)))) <= BallRadius * BallRadius
  }

  /** Edge i is the first edge, in vertex order, that the ball touches. */
  ghost predicate IsFirstHit(c: Vec, points: seq<Vec>, i: int)
    requires NonDegenerate(points)
  {
    0 <= i < |points| && EdgeHit(c, points, i) &&
    forall j :: 0 <= j < i ==> !EdgeHit(c, points, j)
  }

  lemma FirstHitUnique(c: Vec, points: seq<Vec>, i: int, j: int)
    requires NonDegenerate(points)
    requires IsFirstHit(c, points, i) && IsFirstHit(c, points, j)
    ensures i == j
  {
  }

  /** The velocity after one polygon, defined by the first touching edge:
      reflected across it, or unchanged when no edge is touched. */
  ghost function PolygonResponse(c: Vec, vel: Vec, points: seq<Vec>): (r: Vec)
    requires NonDegenerate(points)
    ensures LengthSq(r) == LengthSq(vel)
  {
    if exists i :: IsFirstHit(c, points, i) then
      var i :| IsFirstHit(c, points, i);
      ReflectVelocity(vel, points[i], EdgeEnd(points, i))
    else
      vel
  }

  /** The response of a polygon is the reflection off its first touching edge. */
  lemma PolygonResponseIsFirstHit(c: Vec, vel: Vec, points: seq<Vec>, i: int)
    requires NonDegenerate(points) && IsFirstHit(c, points, i)
    ensures PolygonResponse(c, vel, points) == ReflectVelocity(vel, points[i], EdgeEnd(points, i))
  {
    var j :| IsFirstHit(c, points, j) &&
             PolygonResponse(c, vel, points) == ReflectVelocity(vel, points[j], EdgeEnd(points, j));
    FirstHitUnique(c, points, i, j);
  }

  /** collide_polygon: scan the edges in order and reflect against the first
      one whose clamped closest point lies within the ball's radius. */
  method CollidePolygon(ballPos: Vec, ballVel: Vec, points: seq<Vec>) returns (r: Vec)
    requires NonDegenerate(points)
    ensures forall i :: IsFirstHit(ballPos, points, i) ==>
              r == ReflectVelocity(ballVel, points[i], EdgeEnd(points, i))
    ensures (forall i :: 0 <= i < |points| ==> !EdgeHit(ballPos, points, i)) ==> r == ballVel
    ensures r == PolygonResponse(ballPos, ballVel, points)
  {
    for i := 0 to |points|
      invariant forall j :: 0 <= j < i ==> !EdgeHit(ballPos, points, j)
    {
      var p1 := points[i];
      var p2 := points[(i + 1) % |points|];
      var closest := ClosestPoint(ballPos, p1, p2);
      if LengthSq(Sub(ballPos, closest)) <= BallRadius * BallRadius {
        assert IsFirstHit(ballPos, points, i);
        forall j | IsFirstHit(ballPos, points, j) ensures j == i {
          FirstHitUnique(ballPos, points, i, j);
        }
        return ReflectVelocity(ballVel, p1, p2);
      }
    }
    return ballVel;
  }

  // ---------------------------------------------------------------------------
  // Rectangles and walls
  // ---------------------------------------------------------------------------

  /** pygame.Rect: integer left, top, width and height. */
  datatype Rect = Rect(left: int, top: int, width: int, height: int)

  /** Rect.collidepoint: half-open containment on both axes. */
  predicate CollidePoint(rect: Rect, px: real, py: real)
  {
    rect.left as real <= px < (rect.left + rect.width) as real &&
    rect.top as real <= py < (rect.top + rect.height) as real
  }

  /** Reverse the chosen components of a velocity. */
  function Flip(vel: Vec, flipX: bool, flipY: bool): (r: Vec)
    ensures r.x == (if flipX then -vel.x else vel.x)
    ensures r.y == (if flipY then -vel.y else vel.y)
    ensures LengthSq(r) == LengthSq(vel)
  {
    Vec(if flipX then -vel.x else vel.x, if flipY then -vel.y else vel.y)
  }

  /** The rectangle test: x is reversed when the point one x-step ahead lies
      inside the rectangle, y when the point one y-step ahead does. */
  function RectResponse(pos: Vec, vel: Vec, rect: Rect): (r: Vec)
    ensures CollidePoint(rect, pos.x + vel.x, pos.y) ==> r.x == -vel.x
    ensures !CollidePoint(rect, pos.x + vel.x, pos.y) ==> r.x == vel.x
    ensures CollidePoint(rect, pos.x, pos.y + vel.y) ==> r.y == -vel.y
    ensures !CollidePoint(rect, pos.x, pos.y + vel.y) ==> r.y == vel.y
    ensures LengthSq(r) == LengthSq(vel)
  {
    Flip(vel, CollidePoint(rect, pos.x + vel.x, pos.y), CollidePoint(rect, pos.x, pos.y + vel.y))
  }

  /** The ball touches the left or right wall. */
  predicate AtSideWall(pos: Vec)
  {
    pos.x <= BallRadius || pos.x >= Width - BallRadius
  }

  /** The ball touches the top or bottom wall. */
  predicate AtEndWall(pos: Vec)
  {
    pos.y <= BallRadius || pos.y >= Height - BallRadius
  }

  /** The wall test: each axis at a wall is reversed, independently. */
  function WallResponse(pos: Vec, vel: Vec): (r: Vec)
    ensures AtSideWall(pos) ==> r.x == -vel.x
    ensures !AtSideWall(pos) ==> r.x == vel.x
    ensures AtEndWall(pos) ==> r.y == -vel.y
    ensures !AtEndWall(pos) ==> r.y == vel.y
    ensures LengthSq(r) == LengthSq(vel)
  {
    Flip(vel, AtSideWall(pos), AtEndWall(pos))
  }

  // ---------------------------------------------------------------------------
  // Obstacles
  // ---------------------------------------------------------------------------

  /** An obstacle of a hole layout: {"type": "rect"} or {"type": "polygon"}. */
  datatype Obstacle = RectObstacle(rect: Rect) | PolygonObstacle(points: seq<Vec>)

  predicate WellFormed(obs: Obstacle)
  {
    obs.PolygonObstacle? ==> NonDegenerate(obs.points)
  }

  predicate AllWellFormed(obstacles: seq<Obstacle>)
  {
    forall k :: 0 <= k < |obstacles| ==> WellFormed(obstacles[k])
  }

  ghost function ObstacleResponse(pos: Vec, vel: Vec, obs: Obstacle): (r: Vec)
    requires WellFormed(obs)
    ensures LengthSq(r) == LengthSq(vel)
  {
    match obs
    case RectObstacle(rect) => RectResponse(pos, vel, rect)
    case PolygonObstacle(points) => PolygonResponse(pos, vel, points)
  }

  /** The obstacles applied in list order, each to the previous one's output. */
  ghost function ObstaclesResponse(pos: Vec, vel: Vec, obstacles: seq<Obstacle>): Vec
    requires AllWellFormed(obstacles)
    decreases |obstacles|
  {
    if obstacles == [] then vel
    else
      var last := |obstacles| - 1;
      ObstacleResponse(pos, ObstaclesResponse(pos, vel, obstacles[..last]), obstacles[last])
  }

  /** However many obstacles the ball meets in one frame, its speed is kept. */
  lemma {:induction false} ObstaclesKeepSpeed(pos: Vec, vel: Vec, obstacles: seq<Obstacle>)
    requires AllWellFormed(obstacles)
    ensures LengthSq(ObstaclesResponse(pos, vel, obstacles)) == LengthSq(vel)
    decreases |obstacles|
  {
    if obstacles != [] {
      var last := |obstacles| - 1;
      assert AllWellFormed(obstacles[..last]);
      ObstaclesKeepSpeed(pos, vel, obstacles[..last]);
    }
  }
}
