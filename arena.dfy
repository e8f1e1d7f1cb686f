/**
 * The circular arena of the bouncing-balls simulation: its fixed constants,
 * planar vectors, and the boundary-penetration test.
 *
 * Coordinates are `real`; the simulation itself uses floating point, whose
 * rounding is not modelled. The penetration test is stated on the squared
 * distance from the centre, which avoids the square root the program takes.
 */
module Arena {
  const ScreenWidth: int := 800
  const ScreenHeight: int := 600

  /** Centre of the arena, the screen centre (integer division as in the program). */
  const CenterX: int := ScreenWidth / 2
  const CenterY: int := ScreenHeight / 2

  /** Arena radius: half the smaller screen side, less a margin of 50. */
  const Radius: int := (if ScreenWidth < ScreenHeight then ScreenWidth else ScreenHeight) / 2 - 50

  const BallRadius: int := 10

  /** Distance from the centre at which a ball's edge touches the boundary. */
  const Reach: int := Radius - BallRadius

  /** A point or a per-tick displacement. */
  datatype Vec = Vec(x: real, y: real)

  function Add(p: Vec, v: Vec): Vec
  {
    Vec(p.x + v.x, p.y + v.y)
  }

  /** Reversal of both components, the program's elastic bounce. */
  function Negate(v: Vec): (r: Vec)
    ensures Add(v, r) == Vec(0.0, 0.0)
    ensures ValidVelocity(r) <==> ValidVelocity(v)
  {
    Vec(-v.x, -v.y)
  }

  /** Every velocity the program draws has both components in [-1, 1]. */
  predicate ValidVelocity(v: Vec)
  {
    -1.0 <= v.x <= 1.0 && -1.0 <= v.y <= 1.0
  }

  function SquaredDistanceFromCenter(p: Vec): real
  {
    (p.x - CenterX as real) * (p.x - CenterX as real) + (p.y - CenterY as real) * (p.y - CenterY as real)
  }

  /**
   * The collision test: the ball's edge lies strictly outside the arena.
   * Written on squared distances; `PenetratesIffEdgeOutside` connects it to
   * the program's test on the distance itself.
   */
  predicate Penetrates(p: Vec)
  {
    SquaredDistanceFromCenter(p) > (Reach as real) * (Reach as real)
  }

  /**
   * For any distance `d` from the centre (a non-negative square root of the
   * squared distance), the squared test agrees with the program's test
   * `d + ball_radius > radius`. In particular a ball whose edge exactly
   * touches the boundary does not collide.
   */
  lemma PenetratesIffEdgeOutside(p: Vec, d: real)
    requires d >= 0.0 && d * d == SquaredDistanceFromCenter(p)
    ensures Penetrates(p) <==> d + BallRadius as real > Radius as real
    ensures d + BallRadius as real == Radius as real ==> !Penetrates(p)
  {
    var e := Reach as real;
    assert e == 240.0;
    if d > e {
      assert d * d > e * d >= e * e;
    } else {
      assert d * d <= e * d <= e * e;
    }
  }
}
