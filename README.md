# Mini Golf: the ball engine and scoring of golf.py

This project models the part of the pygame mini-golf game `golf.py` that
decides what happens to the ball and to the score. It covers:

- the shot launch, using the slingshot convention. The ball is shot along
  `ball_pos - mouse`, with power `min(|drag| * 0.1, MAX_POWER)`. A zero drag
  fires nothing, and every shot counts a stroke.
- the physics of a frame, in the source's order:
  - move the ball, apply friction and the stop threshold;
  - flip the velocity's x and y signs independently at the walls;
  - apply the per-axis look-ahead test of each rectangle obstacle;
  - reflect off the first touching edge of each polygon obstacle (`reflect_velocity`, `collide_polygon`);
  - capture the ball in the hole, which needs both a short distance and a low speed.
- the hole bookkeeping: `load_hole`, moving on to the next hole or the end screen, and the restart from the end screen.
- the four hole layouts, as constant data.

Coordinates and velocities are exact `real` vectors (module `Vectors`).
The source compares lengths (`length() < 0.1`, `< hole_radius`, `< 1`,
`<= ball_radius`). The model compares the squares of both sides instead.
`Motion.LengthBelow` (for `<`) and `Motion.LengthAtMost` (for `<=`) prove
that this gives the same answer for non-negative lengths. The source reflects with a normalised normal. The
model reflects across the unnormalised perpendicular `p` of the edge, as
`v - 2 (v.p / |p|^2) p`, which is the same vector. `Collision.MirrorNeg`
shows that the result does not depend on which way `p` points.

Modules:

- `Vectors`: vector arithmetic and squared lengths.
- `Collision`:
  - `reflect_velocity` and `collide_polygon`;
  - the clamped closest point of a segment;
  - the rectangle and wall tests;
  - the left-to-right application of a hole's obstacles.
- `Motion`:
  - the shot launch and friction;
  - the per-frame physics as functions on a `Ball` value;
  - the capture test;
  - a proof that every shot comes to rest.
- `Layouts`: the `hole_layouts` table.
- `Game`: the class `MiniGolf`. It holds the game's globals as fields
  (`ball_pos`, `ball_vel`, `shooting`, `mouse_down`, `strokes`, `total_score`,
  `current_hole_index`, `hole_pos`, `obstacles`, `running`). Its methods are
  the steps of the main loop. Each step that changes state is proved against
  the functions of `Motion` and `Collision`. The class invariant `Valid()`
  states four things:
  - the hole and obstacles in play are those of the current layout;
  - the ball moves exactly while a shot is in progress;
  - no drag starts during a shot;
  - `total_score + strokes` counts every stroke played since the last (re)start.
- `Scenarios`: worked examples on concrete numbers:
  - the slingshot sign of a shot;
  - the two gates of a capture;
  - a triangle whose nearest edge loses to the edge that comes first in vertex order.

In the source, a degenerate polygon edge (two equal consecutive vertices)
is not skipped: line 47 divides by `line.length_squared()` with no guard,
and line 37 would normalise a zero vector. So the model requires every
polygon to have distinct consecutive vertices (`Collision.NonDegenerate`).
It proves that all polygons of the shipped layouts meet this requirement
(`Layouts.LayoutsWellFormed`). The same holds for a zero-length segment in
the closest-point computation: the code has no minimum-length guard, so
the model does not invent one.

## Model

| member | source | states |
|---|---|---|
| Collision.Mirror | golf.py:40 | reflecting `v` across the line of normal `n` keeps its squared length, negates its component along `n` and keeps its component across `n` |
| Collision.MirrorNeg | golf.py:38-39 | negating the normal, as the source does when it faces the velocity, does not change the reflected velocity |
| Collision.FacingNormal | golf.py:36-39 | the chosen normal is non-zero, is perpendicular to the edge, is plus or minus the edge's perpendicular, and does not point along the incoming velocity |
| Collision.ReflectVelocity | golf.py:35-40 | the reflected velocity has the same speed, the same component along the edge, and its component across the edge reversed, so it has a non-negative component along the normal that opposes the incoming velocity; a ball already moving away from the edge is sent back toward it |
| Collision.AlongEdgeKept | golf.py:40 | reflection across a normal keeps the component along any direction perpendicular to that normal |
| Collision.ReflectIsMirror | golf.py:35-40 | whichever sign is chosen, `reflect_velocity` is the mirror image across the edge's perpendicular |
| Collision.NormalComponentReversed | golf.py:36-40 | the component across the edge is reversed whichever way the ball is moving, since the reflection ignores which side of the edge the ball is on |
| Collision.MirrorInvolution | golf.py:40 | mirroring twice across the same normal gives back the original velocity |
| Collision.ReflectInvolution | golf.py:35-40 | reflecting the reflected velocity off the same edge gives back the original velocity |
| Collision.ClosestParam | golf.py:47 | the clamped projection parameter lies in [0, 1] |
| Collision.ClampedParamIsBest | golf.py:47 | the clamped parameter minimises the squared distance to the segment among all parameters in [0, 1] |
| Collision.ClosestPointIsNearest | golf.py:47-48 | the point `p1 + line * t` is at least as close to the ball as every other point of the segment |
| Collision.FirstHitUnique | golf.py:43-50 | at most one edge is the lowest-index edge within the ball's radius |
| Collision.PolygonResponse | golf.py:42-51 | the velocity after a polygon has the same speed as before |
| Collision.PolygonResponseIsFirstHit | golf.py:42-51 | the polygon's response is the reflection off the lowest-index edge within the ball's radius |
| Collision.CollidePolygon | golf.py:42-51 | the edge scan returns the reflection off the first edge, in vertex order with wrap-around, whose clamped closest point is within `ball_radius`, and returns the velocity unchanged when no edge is |
| Collision.RectResponse | golf.py:147-152 | `vel.x` is negated exactly when `(x + vx, y)` lies in the half-open rectangle, `vel.y` exactly when `(x, y + vy)` does, independently, and the speed is kept |
| Collision.WallResponse | golf.py:140-143 | `vel.x` is negated exactly when `x <= 10` or `x >= 790`, `vel.y` exactly when `y <= 10` or `y >= 590`, independently, and the speed is kept |
| Collision.ObstacleResponse | golf.py:146-155 | one obstacle, rectangle or polygon, never changes the ball's speed |
| Collision.ObstaclesKeepSpeed | golf.py:146-155 | the obstacles applied in list order, each to the previous one's result, keep the ball's speed |
| Motion.LengthBelow | golf.py:135 | for non-negative lengths, `len < bound` holds exactly when `len^2 < bound^2`, which justifies the squared comparisons |
| Motion.LengthAtMost | golf.py:49 | for non-negative lengths, `len <= bound` holds exactly when `len^2 <= bound^2`, which justifies the squared edge test |
| Motion.Power | golf.py:123 | the shot power lies between 0 and MAX_POWER, is at most `drag.length() * 0.1`, equals it below the cap, equals MAX_POWER at or above the cap, and is positive for a non-zero drag |
| Motion.LaunchVelocity | golf.py:122-127 | the launch velocity is parallel to `ball_pos - mouse` and points the same way, and its squared speed is the power squared |
| Motion.LaunchSpeedBounded | golf.py:123-127 | no shot is faster than MAX_POWER |
| Motion.LaunchBelowCap | golf.py:122-127 | below the cap the launch velocity is exactly `drag * 0.1` |
| Motion.Damp | golf.py:134-137 | after friction the velocity is `0.98 * vel`, or zero exactly when that is slower than 0.1; a velocity that survives has speed at least 0.1 |
| Motion.Move | golf.py:132-137 | a shooting ball moves by its velocity, its velocity is damped, and it keeps shooting exactly while it moves; a ball that is not shooting is untouched |
| Motion.Collide | golf.py:140-155 | the walls followed by the obstacles never change the ball's speed |
| Motion.ReflectZero | golf.py:35-40 | reflecting a zero velocity gives zero |
| Motion.PolygonZero | golf.py:42-51 | a polygon leaves a zero velocity at zero |
| Motion.ObstaclesKeepZero | golf.py:146-155 | a hole's obstacles leave a zero velocity at zero |
| Motion.PhysicsConsistent | golf.py:132-155 | a frame keeps "shooting exactly when moving", and leaves a resting ball where it is |
| Motion.RestingBallStays | golf.py:132-155 | a ball at rest stays at rest and in place over any number of frames |
| Motion.FrameSlows | golf.py:132-155 | a frame after which the ball is still shooting takes at least 0.000396 off its squared speed, whatever it bounces off |
| Motion.BallComesToRest | golf.py:132-155 | a ball whose squared speed is at most `n * 0.000396` has stopped after `n + 1` frames |
| Motion.ShotEnds | golf.py:117-155 | every shot has stopped within 568183 frames |
| Motion.FastBallNotCaptured | golf.py:159-160 | a ball at speed 1 or more is never captured, however close it is to the hole |
| Motion.RestingBallOnHoleCaptured | golf.py:159-160 | a ball at rest within the hole radius is captured |
| Layouts.LayoutsWellFormed | golf.py:54-87 | there are four layouts, and every polygon in them has distinct consecutive vertices |
| Layouts.TriangleNonDegenerate | golf.py:82-83 | a triangle with three distinct corners has no zero-length edge |
| Layouts.StartsInPlay | golf.py:54-87 | every layout starts the ball away from the walls and outside its hole |
| Game.MiniGolf.constructor | golf.py:19-107 | the game starts on hole 0 with the ball at rest on its start, no strokes, no score, no drag, and running |
| Game.MiniGolf.LoadHole | golf.py:91-98 | the ball is put at rest on the layout's start, the layout's hole and obstacles are selected, and nothing else changes |
| Game.MiniGolf.Quit | golf.py:114-115 | a QUIT event stops the main loop and changes nothing else |
| Game.MiniGolf.MouseDown | golf.py:117-118 | a mouse press starts a drag exactly when no shot is in progress |
| Game.MiniGolf.MouseUp | golf.py:120-129 | releasing a drag shoots the ball with the launch velocity and counts one stroke, unless the mouse is on the ball's centre; without a drag nothing happens |
| Game.MiniGolf.MoveBall | golf.py:132-137 | the ball's position, velocity and shooting flag become those of `Motion.Move` |
| Game.MiniGolf.CollideWalls | golf.py:140-143 | the velocity becomes the wall response at the current position |
| Game.MiniGolf.CollideObstacle | golf.py:147-155 | the velocity becomes the response of one rectangle or polygon |
| Game.MiniGolf.CollideObstacles | golf.py:146-155 | the velocity becomes the obstacles' responses applied in list order |
| Game.MiniGolf.CheckHole | golf.py:159-171 | a captured ball stops, its strokes move into the total, the hole index advances, and the next layout is loaded unless the course is finished, in which case the last layout's hole and obstacles stay in play; otherwise nothing changes |
| Game.MiniGolf.Frame | golf.py:131-168 | the ball ends the frame as `Motion.Physics` says, unless it is captured, in which case scoring and hole advance follow `CheckHole`; the invariant is kept |
| Game.MiniGolf.EndScreenEvents | golf.py:187-200 | the end screen stays up exactly when no QUIT, Q or R arrived; QUIT or Q stops the game; R restarts the course from hole 0 with no score |
| Scenarios.LaunchAwayFromMouse | golf.py:122-127 | releasing 50 pixels right of the ball shoots it left at speed 5 |
| Scenarios.CaptureNeedsSlowBall | golf.py:159-160 | 14 pixels from the hole, a ball at speed 2 rolls over and a ball at speed 0.5 drops in |
| Scenarios.LeftEdgeInReach | golf.py:43-49 | a ball at (5, 5) is within reach of the left edge of the triangle (0,0), (100,0), (50,80) |
| Scenarios.LeftEdgeNearer | golf.py:47-49 | that ball is nearer to the left edge than to the bottom edge |
| Scenarios.FirstEdgeWins | golf.py:42-51 | the bottom edge, which comes first, alone decides the bounce |

## Left out

- Floating point: the model computes with exact reals. IEEE-754 rounding, for example of the 0.98 decay, is not modelled.
- Imports, pygame initialisation, colours, drawing, text, the window, the clock and the frame rate (lines 1-8, 10-14, 100-103, 109-110, 172-185, 202-246) set up pygame or render the state; none of them changes the game state.
- Event polling (`pygame.event.get`, `pygame.mouse.get_pos`) and the main loop's dispatch: the caller passes each event to `Quit`, `MouseDown` and `MouseUp`, then calls `Frame`. On the end screen it passes each poll's events to `EndScreenEvents` until that returns false.
- The end screen's wait loop itself. `EndScreenEvents` models one poll. As in the source, every event of the poll is handled, even those after the one that closed the screen.
- Game.MiniGolf.Frame: requires that the course is not finished. In the source, no physics frame runs after the last hole: the end screen blocks inside the frame that captured the ball. After R the index is 0 again; after QUIT or Q the main loop ends.
- `Vector2.length()` and `normalize()` need a square root. `Game.MiniGolf.MouseUp` and `Motion.LaunchVelocity` take the drag length as a parameter `dragLen`, required to be non-negative with `dragLen^2 = |drag|^2`. `drag / dragLen` stands for `normalize()`.
- The global `drag_vector`: its value set by the mouse-release handler (line 122) computes the shot (lines 123-127) but is never read after that handler, because line 219 overwrites it before the aiming arrow reads it; so the model keeps the drag as a local value.
- `Rect.collidepoint` is modelled as the half-open test `left <= px < left + width`, `top <= py < top + height`, on the exact coordinates. pygame's conversion of float arguments to integers is library behaviour and is not modelled.
- The `ball_pos` argument of `reflect_velocity` is unused by the source and is dropped.
- The commented-out triangle obstacle of layout 2 (line 75) is not part of the layouts. Obstacles of types other than "rect" and "polygon" do not occur, and the source ignores them, so `Collision.Obstacle` has only those two cases.
- The initial `ball_pos` of (400, 300) (line 27) is overwritten by `load_hole(0)` before any frame. The constructor sets it and then loads hole 0, as the source does.
- Motion.ShotEnds: states a bound of 568183 frames, derived from the worst case of the stop threshold; it is not the actual number of frames a shot takes.
- Collision.CollidePolygon: requires distinct consecutive vertices. On a polygon with a zero-length edge the source raises ZeroDivisionError at line 47 when the scan reaches that edge, that is, unless an earlier edge is within reach and the scan returns first at line 50. The model excludes these polygons altogether, including the inputs on which the source would return early; every polygon of the shipped layouts meets the requirement (`Layouts.LayoutsWellFormed`).
