/** The ball's motion: the shot launched from a mouse drag, one frame of
    movement with friction and the stop rule, the collision stage of a frame,
    and the hole-capture test. */
module Motion {
  import opened Vectors
  import opened Collision

  const Friction: real := 0.98
  const StopSpeed: real := 0.1
  const MaxPower: real := 15.0
  /** Launch speed gained per pixel of drag. */
  const PowerPerPixel: real := 0.1
  const HoleRadius: real := 15.0
  const CaptureSpeed: real := 1.0

  // ---------------------------------------------------------------------------
  // Lengths
  // ---------------------------------------------------------------------------

  /** pygame compares lengths, which are square roots of squared lengths; for a
      non-negative length the comparison with a positive bound is the same as
      comparing the squared length with the squared bound. */
  lemma LengthBelow(len: real, bound: real)
    requires len >= 0.0 && bound > 0.0
    ensures len < bound <==> Sq(len) < Sq(bound)
  {
    if len < bound {
      SquaresOrdered(len, bound);
    } else {
      assert Sq(len) - Sq(bound) == (len - bound) * (len + bound);
      ProductNonNegative(len - bound, len + bound);
      assert Sq(len) >= Sq(bound);
    }
  }

  /** The same for the non-strict comparison of the polygon edge test. */
  lemma LengthAtMost(len: real, bound: real)
    requires len >= 0.0 && bound > 0.0
    ensures len <= bound <==> Sq(len) <= Sq(bound)
  {
    if len > 0.0 {
      LengthBelow(bound, len);
    }
  }

  lemma SquaresOrdered(a: real, b: real)
    requires 0.0 <= a < b
    ensures Sq(a) < Sq(b)
  {
    MulLess(a, b, b);
    ProductNonNegative(a, b - a);
    assert a * (b - a) == a * b - a * a;
  }

  lemma MulLess(x: real, y: real, z: real)
    requires x < y && z > 0.0
    ensures x * z < y * z
  {
    ProductPositive(y - x, z);
    assert (y - x) * z == y * z - x * z;
  }

  lemma ProductPositive(a: real, b: real)
    requires a > 0.0 && b > 0.0
    ensures a * b > 0.0
  {
  }

  // ---------------------------------------------------------------------------
  // Launch
  // ---------------------------------------------------------------------------

  /** min(drag length * 0.1, MAX_POWER). */
  function Power(dragLen: real): (p: real)
    requires dragLen >= 0.0
    ensures 0.0 <= p <= MaxPower
    ensures p <= dragLen * PowerPerPixel
    ensures dragLen > 0.0 ==> p > 0.0
    ensures dragLen * PowerPerPixel <= MaxPower ==> p == dragLen * PowerPerPixel
    ensures dragLen * PowerPerPixel >= MaxPower ==> p == MaxPower
  {
    Min(dragLen * PowerPerPixel, MaxPower)
  }

  /** The velocity of a shot: the drag vector normalised, times the power.
      `dragLen` is the drag vector's length, which the caller computes. */
  function LaunchVelocity(drag: Vec, dragLen: real): (r: Vec)
    requires dragLen > 0.0 && Sq(dragLen) == LengthSq(drag)
    ensures Cross(r, drag) == 0.0 && Dot(r, drag) > 0.0
    ensures LengthSq(r) == Sq(Power(dragLen))
    ensures r != Zero
  {
    LaunchFacts(drag, dragLen);
    Scale(Scale(drag, 1.0 / dragLen), Power(dragLen))
  }

  lemma LaunchFacts(drag: Vec, dragLen: real)
    requires dragLen > 0.0 && Sq(dragLen) == LengthSq(drag)
    ensures Cross(Scale(Scale(drag, 1.0 / dragLen), Power(dragLen)), drag) == 0.0
    ensures Dot(Scale(Scale(drag, 1.0 / dragLen), Power(dragLen)), drag) > 0.0
    ensures LengthSq(Scale(Scale(drag, 1.0 / dragLen), Power(dragLen))) == Sq(Power(dragLen))
  {
    var k := Power(dragLen) * (1.0 / dragLen);
    ScaleTwice(drag, 1.0 / dragLen, Power(dragLen));
    ReciprocalFacts(dragLen, Power(dragLen));
    ParallelAndAhead(drag, k);
    ScaleLengthSq(drag, k);
    ScaledBack(k, dragLen, Power(dragLen));
  }

  lemma ScaleTwice(a: Vec, k1: real, k2: real)
    ensures Scale(Scale(a, k1), k2) == Scale(a, k2 * k1)
  {
  }

  /** For p > 0 and len > 0: k = p * (1/len) is positive and k * len == p. */
  lemma ReciprocalFacts(len: real, p: real)
    requires len > 0.0 && p > 0.0
    ensures p * (1.0 / len) > 0.0
    ensures (p * (1.0 / len)) * len == p
  {
    var inv := 1.0 / len;
    assert inv * len == 1.0;
    assert inv > 0.0 by {
      if inv <= 0.0 {
        ProductNonNegative(-inv, len);
      }
    }
    ProductPositive(p, inv);
    assert (p * inv) * len == p * (inv * len);
  }

  /** A positive multiple of a non-zero vector is parallel to it and points
      the same way. */
  lemma ParallelAndAhead(a: Vec, k: real)
    requires a != Zero && k > 0.0
    ensures Cross(Scale(a, k), a) == 0.0
    ensures Dot(Scale(a, k), a) > 0.0
  {
    DotScale(a, a, k);
    ProductPositive(k, LengthSq(a));
  }

  lemma ScaledBack(k: real, len: real, p: real)
    requires k * len == p
    ensures Sq(k) * Sq(len) == Sq(p)
  {
    calc {
      Sq(k) * Sq(len);
      (k * len) * (k * len);
      Sq(p);
    }
  }

  /** A shot's speed never exceeds MAX_POWER. */
  lemma LaunchSpeedBounded(drag: Vec, dragLen: real)
    requires dragLen > 0.0 && Sq(dragLen) == LengthSq(drag)
    ensures LengthSq(LaunchVelocity(drag, dragLen)) <= Sq(MaxPower)
  {
    var p := Power(dragLen);
    assert Sq(MaxPower) - Sq(p) == (MaxPower - p) * (MaxPower + p);
    ProductNonNegative(MaxPower - p, MaxPower + p);
  }

  /** Below the cap the shot is simply a tenth of the drag vector. */
  lemma LaunchBelowCap(drag: Vec, dragLen: real)
    requires dragLen > 0.0 && Sq(dragLen) == LengthSq(drag)
    requires dragLen * PowerPerPixel <= MaxPower
    ensures LaunchVelocity(drag, dragLen) == Scale(drag, PowerPerPixel)
  {
    var inv := 1.0 / dragLen;
    assert inv * dragLen == 1.0;
    calc {
      (dragLen * PowerPerPixel) * inv;
      PowerPerPixel * (inv * dragLen);
      PowerPerPixel;
    }
  }

  // ---------------------------------------------------------------------------
  // Movement
  // ---------------------------------------------------------------------------

  /** ball_vel *= FRICTION followed by the stop rule: a speed below 0.1 becomes
      exactly zero. */
  function Damp(vel: Vec): (r: Vec)
    ensures r == Zero || r == Scale(vel, Friction)
    ensures r == Zero <==> LengthSq(Scale(vel, Friction)) < Sq(StopSpeed)
    ensures LengthSq(r) <= Sq(Friction) * LengthSq(vel)
    ensures r != Zero ==> LengthSq(r) >= Sq(StopSpeed)
  {
    ScaleLengthSq(vel, Friction);
    if LengthSq(Scale(vel, Friction)) < Sq(StopSpeed) then Zero else Scale(vel, Friction)
  }

  /** The ball as the physics of a frame sees it. */
  datatype Ball = Ball(pos: Vec, vel: Vec, shooting: bool)

  /** A ball is shooting exactly when it is moving. */
  predicate Consistent(b: Ball)
  {
    b.shooting <==> b.vel != Zero
  }

  /** The movement step of a frame: a shooting ball advances by its velocity
      and is slowed; a ball that stops is no longer shooting. */
  function Move(b: Ball): (r: Ball)
    ensures !b.shooting ==> r == b
    ensures b.shooting ==> r.pos == Add(b.pos, b.vel) && r.vel == Damp(b.vel)
    ensures b.shooting ==> Consistent(r)
  {
    if b.shooting then
      var vel := Damp(b.vel);
      Ball(Add(b.pos, b.vel), vel, vel != Zero)
    else
      b
  }

  /** The collision stage of a frame: walls first, then every obstacle in
      list order, all at the moved position. */
  ghost function Collide(pos: Vec, vel: Vec, obstacles: seq<Obstacle>): (r: Vec)
    requires AllWellFormed(obstacles)
    ensures LengthSq(r) == LengthSq(vel)
  {
    ObstaclesKeepSpeed(pos, WallResponse(pos, vel), obstacles);
    ObstaclesResponse(pos, WallResponse(pos, vel), obstacles)
  }

  /** Movement followed by collisions: the physics of one frame. */
  ghost function Physics(b: Ball, obstacles: seq<Obstacle>): Ball
    requires AllWellFormed(obstacles)
  {
    var m := Move(b);
    Ball(m.pos, Collide(m.pos, m.vel, obstacles), m.shooting)
  }

  /** The physics of n frames in a row, with no capture in between. */
  ghost function PhysicsSteps(b: Ball, obstacles: seq<Obstacle>, n: nat): Ball
    requires AllWellFormed(obstacles)
    decreases n
  {
    if n == 0 then b else PhysicsSteps(Physics(b, obstacles), obstacles, n - 1)
  }

  // ---------------------------------------------------------------------------
  // A ball at rest stays at rest
  // ---------------------------------------------------------------------------

  lemma ReflectZero(p1: Vec, p2: Vec)
    requires p1 != p2
    ensures ReflectVelocity(Zero, p1, p2) == Zero
  {
    LengthSqZero(ReflectVelocity(Zero, p1, p2));
  }

  lemma PolygonZero(pos: Vec, points: seq<Vec>)
    requires NonDegenerate(points)
    ensures PolygonResponse(pos, Zero, points) == Zero
  {
    LengthSqZero(PolygonResponse(pos, Zero, points));
  }

  /** No wall or obstacle sets a resting ball in motion. */
  lemma {:induction false} ObstaclesKeepZero(pos: Vec, obstacles: seq<Obstacle>)
    requires AllWellFormed(obstacles)
    ensures ObstaclesResponse(pos, Zero, obstacles) == Zero
    decreases |obstacles|
  {
    if obstacles != [] {
      var last := |obstacles| - 1;
      assert AllWellFormed(obstacles[..last]);
      ObstaclesKeepZero(pos, obstacles[..last]);
      LengthSqZero(ObstacleResponse(pos, Zero, obstacles[last]));
    }
  }

  /** A frame keeps a consistent ball consistent, and a ball at rest where it is. */
  lemma PhysicsConsistent(b: Ball, obstacles: seq<Obstacle>)
    requires AllWellFormed(obstacles) && Consistent(b)
    ensures Consistent(Physics(b, obstacles))
    ensures !b.shooting ==> Physics(b, obstacles) == b
  {
    var m := Move(b);
    var r := Physics(b, obstacles);
    LengthSqZero(m.vel);
    LengthSqZero(r.vel);
    if !b.shooting {
      assert WallResponse(m.pos, Zero) == Zero;
      ObstaclesKeepZero(m.pos, obstacles);
    }
  }

  lemma {:induction false} RestingBallStays(b: Ball, obstacles: seq<Obstacle>, n: nat)
    requires AllWellFormed(obstacles) && Consistent(b) && !b.shooting
    ensures PhysicsSteps(b, obstacles, n) == b
    decreases n
  {
    if n > 0 {
      PhysicsConsistent(b, obstacles);
      RestingBallStays(b, obstacles, n - 1);
    }
  }

  // ---------------------------------------------------------------------------
  // Every shot comes to rest
  // ---------------------------------------------------------------------------

  /** The least drop in squared speed over a frame that the ball survives
      still shooting: (1 - 0.98^2) * 0.1^2. */
  const MinDrop: real := 0.000396

  /** A frame after which the ball is still shooting has taken at least
      MinDrop off its squared speed. */
  lemma FrameSlows(b: Ball, obstacles: seq<Obstacle>)
    requires AllWellFormed(obstacles) && Consistent(b)
    requires Physics(b, obstacles).shooting
    ensures LengthSq(Physics(b, obstacles).vel) <= LengthSq(b.vel) - MinDrop
  {
    var m := Move(b);
    PhysicsConsistent(b, obstacles);
    assert b.shooting;
    ScaleLengthSq(b.vel, Friction);
    assert m.vel == Scale(b.vel, Friction);
    assert LengthSq(m.vel) == 0.9604 * LengthSq(b.vel);
    assert LengthSq(m.vel) >= 0.01;
  }

  /** A consistent ball whose squared speed is at most n * MinDrop has stopped
      after n + 1 frames, whatever walls and obstacles it meets. */
  lemma {:induction false} BallComesToRest(b: Ball, obstacles: seq<Obstacle>, n: nat)
    requires AllWellFormed(obstacles) && Consistent(b)
    requires LengthSq(b.vel) <= n as real * MinDrop
    ensures !PhysicsSteps(b, obstacles, n + 1).shooting
    decreases n
  {
    var b1 := Physics(b, obstacles);
    PhysicsConsistent(b, obstacles);
    if !b.shooting {
      RestingBallStays(b, obstacles, n + 1);
    } else if !b1.shooting {
      RestingBallStays(b1, obstacles, n);
    } else {
      FrameSlows(b, obstacles);
      LengthSqZero(b1.vel);
      BallComesToRest(b1, obstacles, n - 1);
    }
  }

  /** The frames within which any shot stops: MAX_POWER^2 / MinDrop, rounded up. */
  const ShotFrames: nat := 568182

  /** Every shot stops within ShotFrames + 1 frames, even if it never reaches
      the hole. */
  lemma ShotEnds(drag: Vec, dragLen: real, pos: Vec, obstacles: seq<Obstacle>)
    requires dragLen > 0.0 && Sq(dragLen) == LengthSq(drag)
    requires AllWellFormed(obstacles)
    ensures !PhysicsSteps(Ball(pos, LaunchVelocity(drag, dragLen), true), obstacles, ShotFrames + 1).shooting
  {
    LaunchSpeedBounded(drag, dragLen);
    BallComesToRest(Ball(pos, LaunchVelocity(drag, dragLen), true), obstacles, ShotFrames);
  }

  // ---------------------------------------------------------------------------
  // The hole
  // ---------------------------------------------------------------------------

  /** The ball sinks when its centre is closer than the hole radius to the
      hole and it moves slower than the capture speed. */
  predicate Captures(pos: Vec, vel: Vec, hole: Vec)
  {
    LengthSq(Sub(pos, hole)) < Sq(HoleRadius) && LengthSq(vel) < Sq(CaptureSpeed)
  }

  /** A ball moving at speed 1 or more is never captured, however close it is to the hole. */
  lemma FastBallNotCaptured(pos: Vec, vel: Vec, hole: Vec)
    requires LengthSq(vel) >= Sq(CaptureSpeed)
    ensures !Captures(pos, vel, hole)
  {
  }

  /** A ball at rest on the hole is captured. */
  lemma RestingBallOnHoleCaptured(pos: Vec, hole: Vec)
    requires LengthSq(Sub(pos, hole)) < Sq(HoleRadius)
    ensures Captures(pos, Zero, hole)
  {
  }
}
