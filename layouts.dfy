/** The four hole layouts of the course: where the ball starts, where the
    hole is, and the obstacles in between. */
module Layouts {
  import opened Vectors
  import opened Collision
  import opened Motion

  datatype HoleLayout = HoleLayout(start: Vec, hole: Vec, obstacles: seq<Obstacle>)

  /** A point given in whole pixels. */
  function P(x: int, y: int): Vec
  {
    Vec(x as real, y as real)
  }

  const Holes: seq<HoleLayout> := [
    HoleLayout(P(100, 100), P(700, 500), []),
    HoleLayout(P(150, 300), P(600, 100), [
      RectObstacle(Rect(300, 250, 200, 20)),
      RectObstacle(Rect(400, 150, 20, 100))
    ]),
    HoleLayout(P(100, 500), P(700, 100), [
      RectObstacle(Rect(200, 400, 400, 20)),
      RectObstacle(Rect(400, 200, 20, 200))
    ]),
    HoleLayout(P(130, 150), P(700, 100), [
      PolygonObstacle([P(400, 70), P(320, 220), P(660, 220)]),
      PolygonObstacle([P(570, 290), P(470, 420), P(670, 420)]),
      RectObstacle(Rect(40, 40, 200, 20))
    ])
  ]

  /** Every polygon of every layout has distinct consecutive vertices, so the
      polygon test never divides by zero on this course. */
  lemma LayoutsWellFormed()
    ensures |Holes| == 4
    ensures forall i :: 0 <= i < |Holes| ==> AllWellFormed(Holes[i].obstacles)
  {
    TriangleNonDegenerate(P(400, 70), P(320, 220), P(660, 220));
    TriangleNonDegenerate(P(570, 290), P(470, 420), P(670, 420));
    assert AllWellFormed(Holes[3].obstacles);
  }

  /** A triangle with three distinct corners has no zero-length edge. */
  lemma TriangleNonDegenerate(a: Vec, b: Vec, c: Vec)
    requires a != b && b != c && c != a
    ensures NonDegenerate([a, b, c])
  {
    var t := [a, b, c];
    forall i | 0 <= i < 3
      ensures t[i] != EdgeEnd(t, i)
    {
      if i == 0 {
        assert EdgeEnd(t, 0) == b;
      } else if i == 1 {
        assert EdgeEnd(t, 1) == c;
      } else {
        assert EdgeEnd(t, 2) == a;
      }
    }
  }

  /** Every hole starts with the ball clear of the walls and outside the hole,
      so no hole is completed without a stroke. */
  lemma StartsInPlay()
    ensures forall i :: 0 <= i < |Holes| ==>
              !AtSideWall(Holes[i].start) && !AtEndWall(Holes[i].start) &&
              !Captures(Holes[i].start, Zero, Holes[i].hole)
  {
  }
}
