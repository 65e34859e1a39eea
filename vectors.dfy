/** Two-dimensional vectors over the reals: the part of pygame.Vector2 that the
    game's physics uses. Lengths are compared through their squares, so no
    square root is needed here. */
module Vectors {

  datatype Vec = Vec(x: real, y: real)

  const Zero := Vec(0.0, 0.0)

  function Add(a: Vec, b: Vec): Vec { Vec(a.x + b.x, a.y + b.y) }

  function Sub(a: Vec, b: Vec): Vec { Vec(a.x - b.x, a.y - b.y) }

  function Neg(a: Vec): Vec { Vec(-a.x, -a.y) }

  function Scale(a: Vec, k: real): Vec { Vec(k * a.x, k * a.y) }

  function Dot(a: Vec, b: Vec): real { a.x * b.x + a.y * b.y }

  /** The 2D cross product; zero exactly when the two vectors are parallel. */
  function Cross(a: Vec, b: Vec): real { a.x * b.y - a.y * b.x }

  function Sq(x: real): real { x * x }

  lemma SqNonNegative(x: real)
    ensures Sq(x) >= 0.0
  {
  }

  /** A non-zero real has a positive square; shown through its reciprocal,
      since (x * x) * (1/x * 1/x) == 1. */
  lemma SqPositive(x: real)
    requires x != 0.0
    ensures Sq(x) > 0.0
  {
    var y := 1.0 / x;
    assert x * y == 1.0;
    calc {
      Sq(x) * Sq(y);
      (x * y) * (x * y);
      1.0;
    }
    SqNonNegative(x);
  }

  /** Vector2.length_squared(). */
  function LengthSq(a: Vec): (r: real)
    ensures r >= 0.0
    ensures a != Zero ==> r > 0.0
  {
    SqNonNegative(a.x);
    SqNonNegative(a.y);
    if a.x != 0.0 then SqPositive(a.x); Sq(a.x) + Sq(a.y)
    else if a.y != 0.0 then SqPositive(a.y); Sq(a.x) + Sq(a.y)
    else Sq(a.x) + Sq(a.y)
  }

  lemma LengthSqZero(a: Vec)
    ensures LengthSq(a) == 0.0 <==> a == Zero
  {
  }

  /** The perpendicular (-y, x) that reflect_velocity normalises into an edge normal. */
  function Perp(a: Vec): (r: Vec)
    ensures Dot(r, a) == 0.0
    ensures LengthSq(r) == LengthSq(a)
    ensures r == Zero <==> a == Zero
  {
    Vec(-a.y, a.x)
  }

  lemma DotNeg(a: Vec, b: Vec)
    ensures Dot(a, Neg(b)) == -Dot(a, b)
    ensures Dot(Neg(b), a) == -Dot(b, a)
  {
  }

  lemma DotScale(a: Vec, b: Vec, k: real)
    ensures Dot(Scale(a, k), b) == k * Dot(a, b)
    ensures Dot(b, Scale(a, k)) == k * Dot(b, a)
  {
  }

  lemma ScaleLengthSq(a: Vec, k: real)
    ensures LengthSq(Scale(a, k)) == Sq(k) * LengthSq(a)
  {
    calc {
      LengthSq(Scale(a, k));
      (k * a.x) * (k * a.x) + (k * a.y) * (k * a.y);
      (k * k) * (a.x * a.x + a.y * a.y);
    }
  }

  lemma NegLengthSq(a: Vec)
    ensures LengthSq(Neg(a)) == LengthSq(a)
  {
  }
}
