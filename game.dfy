/** The game state of golf.py as one object: the ball, the mouse, the score,
    the hole in play, and the steps of the main loop that change them. The
    loop itself, which polls events, runs one frame and draws, is the
    caller's: it calls Quit, MouseDown and MouseUp for the events of a frame,
    then Frame, and on the end screen EndScreenEvents until that returns
    false. */
module Game {
  import opened Vectors
  import opened Collision
  import opened Motion
  import opened Layouts

  datatype Key = KeyQ | KeyR | OtherKey

  datatype Event = QuitEvent | MouseButtonDown | MouseButtonUp | KeyDown(key: Key) | OtherEvent

  /** The events that close the end screen. */
  predicate LeavesEndScreen(e: Event)
  {
    e == QuitEvent || e == KeyDown(KeyQ) || e == KeyDown(KeyR)
  }

  /** The events that end the game. */
  predicate StopsGame(e: Event)
  {
    e == QuitEvent || e == KeyDown(KeyQ)
  }

  /** The layout on screen: the current hole, or the last one once the
      course is finished. */
  function Shown(index: nat): (h: nat)
    ensures h < |Holes|
    ensures index < |Holes| ==> h == index
    ensures index >= |Holes| ==> h == |Holes| - 1
  {
    if index < |Holes| then index else |Holes| - 1
  }

  class MiniGolf {
    var ballPos: Vec
    var ballVel: Vec
    var shooting: bool
    var mouseDown: bool
    var strokes: nat
    var totalScore: nat
    var currentHoleIndex: nat
    var holePos: Vec
    var obstacles: seq<Obstacle>
    var running: bool
    /** The strokes played since the game was started or restarted. */
    ghost var shots: nat

    /** The hole in play is the one on screen, the ball moves exactly while a
        shot is in progress, no drag starts during a shot, and the finished
        holes' score plus the current strokes count every stroke played. */
    ghost predicate Valid()
      reads this
    {
      currentHoleIndex <= |Holes| &&
      holePos == Holes[Shown(currentHoleIndex)].hole &&
      obstacles == Holes[Shown(currentHoleIndex)].obstacles &&
      AllWellFormed(obstacles) &&
      (shooting <==> ballVel != Zero) &&
      (shooting ==> !mouseDown) &&
      totalScore + strokes == shots
    }

    /** The state right after the game starts or restarts. */
    ghost predicate AtCourseStart()
      reads this
    {
      currentHoleIndex == 0 && strokes == 0 && totalScore == 0 && shots == 0 &&
      ballPos == Holes[0].start && ballVel == Zero && !shooting
    }

    constructor()
      ensures Valid() && AtCourseStart()
      ensures !mouseDown && running
    {
      strokes := 0;
      totalScore := 0;
      mouseDown := false;
      shooting := false;
      ballPos := Vec(400.0, 300.0);
      ballVel := Zero;
      holePos := P(700, 500);
      obstacles := [];
      currentHoleIndex := 0;
      running := true;
      shots := 0;
      new;
      LoadHole(0);
      LayoutsWellFormed();
    }

    /** load_hole: put the ball, at rest, on the layout's start and show its
        hole and obstacles. The start is copied, so play never moves it. A step
        of the constructor, CheckHole and EndScreenEvents, which restore Valid(). */
    method LoadHole(index: nat)
      requires index < |Holes|
      modifies this
      ensures ballPos == Holes[index].start && ballVel == Zero && !shooting
      ensures holePos == Holes[index].hole && obstacles == Holes[index].obstacles
      ensures mouseDown == old(mouseDown) && running == old(running)
      ensures strokes == old(strokes) && totalScore == old(totalScore) && shots == old(shots)
      ensures currentHoleIndex == old(currentHoleIndex)
    {
      var layout := Holes[index];
      ballPos := layout.start;
      holePos := layout.hole;
      obstacles := layout.obstacles;
      ballVel := Zero;
      shooting := false;
    }

    /** A QUIT event: the main loop ends after this frame. */
    method Quit()
      requires Valid()
      modifies this
      ensures Valid() && !running
      ensures ballPos == old(ballPos) && ballVel == old(ballVel) && shooting == old(shooting)
      ensures mouseDown == old(mouseDown) && strokes == old(strokes) && totalScore == old(totalScore)
      ensures currentHoleIndex == old(currentHoleIndex) && shots == old(shots)
      ensures holePos == old(holePos) && obstacles == old(obstacles)
    {
      running := false;
    }

    /** MOUSEBUTTONDOWN: a drag starts unless a shot is in progress. */
    method MouseDown()
      requires Valid()
      modifies this
      ensures Valid()
      ensures mouseDown <==> old(mouseDown) || !old(shooting)
      ensures ballPos == old(ballPos) && ballVel == old(ballVel) && shooting == old(shooting)
      ensures running == old(running) && strokes == old(strokes) && totalScore == old(totalScore)
      ensures currentHoleIndex == old(currentHoleIndex) && shots == old(shots)
      ensures holePos == old(holePos) && obstacles == old(obstacles)
    {
      if !shooting {
        mouseDown := true;
      }
    }

    /** MOUSEBUTTONUP: a drag in progress ends; unless the mouse is released
        on the ball's centre, the ball is shot away from the mouse and the
        stroke is counted. `dragLen` is the length of ball_pos - mouse. */
    method MouseUp(mouse: Vec, dragLen: real) returns (launched: bool)
      requires Valid()
      requires dragLen >= 0.0 && Sq(dragLen) == LengthSq(Sub(ballPos, mouse))
      modifies this
      ensures Valid() && !mouseDown
      ensures launched <==> old(mouseDown) && mouse != ballPos
      ensures launched ==> dragLen > 0.0 && ballVel == LaunchVelocity(Sub(old(ballPos), mouse), dragLen)
      ensures launched ==> shooting && strokes == old(strokes) + 1 && shots == old(shots) + 1
      ensures !launched ==> ballVel == old(ballVel) && shooting == old(shooting)
      ensures !launched ==> strokes == old(strokes) && shots == old(shots)
      ensures ballPos == old(ballPos) && running == old(running) && totalScore == old(totalScore)
      ensures currentHoleIndex == old(currentHoleIndex)
      ensures holePos == old(holePos) && obstacles == old(obstacles)
    {
      launched := false;
      if mouseDown {
        mouseDown := false;
        var drag := Sub(ballPos, mouse);
        LengthSqZero(drag);
        if dragLen != 0.0 {
          SqPositive(dragLen);
          ballVel := LaunchVelocity(drag, dragLen);
          shooting := true;
          strokes := strokes + 1;
          shots := shots + 1;
          launched := true;
        } else {
          assert drag == Zero;
        }
      }
    }

    /** The movement step of a frame; a step of Frame, which restores Valid(). */
    method MoveBall()
      modifies this`ballPos, this`ballVel, this`shooting
      ensures Ball(ballPos, ballVel, shooting) == Move(Ball(old(ballPos), old(ballVel), old(shooting)))
    {
      if shooting {
        ghost var v0 := ballVel;
        ballPos := Add(ballPos, ballVel);
        ballVel := Scale(ballVel, Friction);
        if LengthSq(ballVel) < Sq(StopSpeed) {
          ballVel := Zero;
          shooting := false;
        } else {
          LengthSqZero(ballVel);
        }
        assert ballVel == Damp(v0);
      }
    }

    /** The wall step of a frame: each axis at a wall is reversed. A step of
        Frame, which restores Valid(). */
    method CollideWalls()
      modifies this`ballVel
      ensures ballVel == WallResponse(ballPos, old(ballVel))
    {
      if ballPos.x <= BallRadius || ballPos.x >= Width - BallRadius {
        ballVel := Vec(-ballVel.x, ballVel.y);
      }
      if ballPos.y <= BallRadius || ballPos.y >= Height - BallRadius {
        ballVel := Vec(ballVel.x, -ballVel.y);
      }
    }

    /** One obstacle: a rectangle reverses each axis whose look-ahead point
        it contains; a polygon reflects off its first touching edge. A step of
        CollideObstacles, within Frame, which restores Valid(). */
    method CollideObstacle(o: Obstacle)
      requires WellFormed(o)
      modifies this`ballVel
      ensures ballVel == ObstacleResponse(ballPos, old(ballVel), o)
    {
      match o
      case RectObstacle(rect) =>
        if CollidePoint(rect, ballPos.x + ballVel.x, ballPos.y) {
          ballVel := Vec(-ballVel.x, ballVel.y);
        }
        if CollidePoint(rect, ballPos.x, ballPos.y + ballVel.y) {
          ballVel := Vec(ballVel.x, -ballVel.y);
        }
      case PolygonObstacle(points) =>
        ballVel := CollidePolygon(ballPos, ballVel, points);
    }

    /** The obstacle step of a frame: the obstacles in list order, each one
        seeing the velocity the previous ones left. A step of Frame, which
        restores Valid(). */
    method CollideObstacles()
      requires AllWellFormed(obstacles)
      modifies this`ballVel
      ensures ballVel == ObstaclesResponse(ballPos, old(ballVel), obstacles)
    {
      for k := 0 to |obstacles|
        invariant ballVel == ObstaclesResponse(ballPos, old(ballVel), obstacles[..k])
      {
        assert obstacles[..k + 1][..k] == obstacles[..k];
        CollideObstacle(obstacles[k]);
      }
      assert obstacles[..|obstacles|] == obstacles;
    }

    /** The hole step of a frame: a slow ball over the hole sinks; the
        strokes move into the total and the next hole is loaded, or, after
        the last hole, the end screen is shown. */
    method CheckHole() returns (captured: bool)
      requires Valid() && currentHoleIndex < |Holes|
      modifies this
      ensures Valid()
      ensures captured <==> Captures(old(ballPos), old(ballVel), old(holePos))
      ensures !captured ==> ballPos == old(ballPos) && ballVel == old(ballVel) && shooting == old(shooting)
      ensures !captured ==> strokes == old(strokes) && totalScore == old(totalScore)
      ensures !captured ==> currentHoleIndex == old(currentHoleIndex)
      ensures !captured ==> holePos == old(holePos) && obstacles == old(obstacles)
      ensures captured ==> ballVel == Zero && !shooting
      ensures captured ==> totalScore == old(totalScore) + old(strokes) && strokes == 0
      ensures captured ==> currentHoleIndex == old(currentHoleIndex) + 1
      ensures captured && currentHoleIndex < |Holes| ==>
                ballPos == Holes[currentHoleIndex].start && holePos == Holes[currentHoleIndex].hole &&
                obstacles == Holes[currentHoleIndex].obstacles
      ensures captured && currentHoleIndex == |Holes| ==>
                ballPos == old(ballPos) && holePos == old(holePos) && obstacles == old(obstacles)
      ensures mouseDown == old(mouseDown) && running == old(running) && shots == old(shots)
    {
      captured := false;
      if LengthSq(Sub(ballPos, holePos)) < Sq(HoleRadius) {
        if LengthSq(ballVel) < Sq(CaptureSpeed) {
          ballVel := Zero;
          shooting := false;
          totalScore := totalScore + strokes;
          strokes := 0;
          currentHoleIndex := currentHoleIndex + 1;
          if currentHoleIndex < |Holes| {
            LoadHole(currentHoleIndex);
            LayoutsWellFormed();
          }
          captured := true;
        }
      }
    }

    /** The physics part of the main loop for one frame: movement, walls,
        obstacles, then the hole. */
    method Frame() returns (captured: bool)
      requires Valid() && currentHoleIndex < |Holes|
      modifies this
      ensures Valid()
      ensures var b := Physics(Ball(old(ballPos), old(ballVel), old(shooting)), old(obstacles));
              && (captured <==> Captures(b.pos, b.vel, old(holePos)))
              && (!captured ==> ballPos == b.pos && ballVel == b.vel && shooting == b.shooting)
              && (captured && currentHoleIndex == |Holes| ==> ballPos == b.pos)
      ensures !captured ==> strokes == old(strokes) && totalScore == old(totalScore)
      ensures !captured ==> currentHoleIndex == old(currentHoleIndex)
      ensures captured ==> ballVel == Zero && !shooting
      ensures captured ==> totalScore == old(totalScore) + old(strokes) && strokes == 0
      ensures captured ==> currentHoleIndex == old(currentHoleIndex) + 1
      ensures captured && currentHoleIndex < |Holes| ==> ballPos == Holes[currentHoleIndex].start
      ensures mouseDown == old(mouseDown) && running == old(running) && shots == old(shots)
    {
      ghost var b0 := Ball(ballPos, ballVel, shooting);
      ghost var b := Physics(b0, obstacles);
      PhysicsConsistent(b0, obstacles);
      MoveBall();
      ghost var moved := ballVel;
      CollideWalls();
      CollideObstacles();
      assert ballVel == Collide(ballPos, moved, obstacles);
      assert b == Ball(ballPos, ballVel, shooting);
      assert Valid();
      captured := CheckHole();
    }

    /** One poll of events on the end screen. Every event of the poll is
        handled, even after one has closed the screen: Q or QUIT ends the
        game, R restarts the course. Returns whether the screen stays up. */
    method EndScreenEvents(events: seq<Event>) returns (onEndScreen: bool)
      requires Valid() && currentHoleIndex == |Holes|
      modifies this
      ensures Valid()
      ensures onEndScreen <==> forall i :: 0 <= i < |events| ==> !LeavesEndScreen(events[i])
      ensures running <==> old(running) && forall i :: 0 <= i < |events| ==> !StopsGame(events[i])
      ensures KeyDown(KeyR) in events ==> AtCourseStart()
      ensures KeyDown(KeyR) !in events ==>
                ballPos == old(ballPos) && ballVel == old(ballVel) && shooting == old(shooting) &&
                strokes == old(strokes) && totalScore == old(totalScore) && shots == old(shots) &&
                currentHoleIndex == old(currentHoleIndex) &&
                holePos == old(holePos) && obstacles == old(obstacles)
      ensures mouseDown == old(mouseDown)
    {
      onEndScreen := true;
      for i := 0 to |events|
        invariant Valid()
        invariant onEndScreen <==> forall j :: 0 <= j < i ==> !LeavesEndScreen(events[j])
        invariant running <==> old(running) && forall j :: 0 <= j < i ==> !StopsGame(events[j])
        invariant KeyDown(KeyR) in events[..i] ==> AtCourseStart()
        invariant KeyDown(KeyR) !in events[..i] ==>
                    ballPos == old(ballPos) && ballVel == old(ballVel) && shooting == old(shooting) &&
                    strokes == old(strokes) && totalScore == old(totalScore) && shots == old(shots) &&
                    currentHoleIndex == old(currentHoleIndex) &&
                    holePos == old(holePos) && obstacles == old(obstacles)
        invariant mouseDown == old(mouseDown)
      {
        assert events[..i + 1] == events[..i] + [events[i]];
        var e := events[i];
        if e == QuitEvent {
          onEndScreen := false;
          running := false;
        }
        if e.KeyDown? {
          if e.key == KeyQ {
            onEndScreen := false;
            running := false;
          }
          if e.key == KeyR {
            currentHoleIndex := 0;
            totalScore := 0;
            strokes := 0;
            shots := 0;
            LoadHole(currentHoleIndex);
            LayoutsWellFormed();
            onEndScreen := false;
          }
        }
      }
      assert events[..|events|] == events;
    }
  }
}
