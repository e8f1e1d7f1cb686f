/**
 * The program's ball state and its two loops that change it: the seeding of
 * the initial balls and the per-tick update that moves, bounces and
 * duplicates them. The three lists are fields that the methods reassign.
 */
module Bounce {
  import opened Arena
  import opened Balls

  class Simulation {
    var positions: seq<Vec>
    var velocities: seq<Vec>
    var colors: seq<Color>

    /** The lists as a value of the pool model. */
    function State(): Pool
      reads this
    {
      Pool(positions, velocities, colors)
    }

    ghost predicate Valid()
      reads this
    {
      Balls.Valid(State())
    }

    /**
     * Starts from three empty lists and appends one row per seed, five in
     * all. `polar(angle, distance)` stands for the point at that angle and
     * distance from the arena centre.
     */
    constructor (seeds: seq<Seed>, polar: (real, real) -> Vec)
      requires |seeds| == InitialNumBalls && ValidSeeds(seeds)
      ensures Valid() && Count(State()) == InitialNumBalls
      ensures forall k :: 0 <= k < InitialNumBalls ==>
                positions[k] == polar(seeds[k].angle, seeds[k].distance) &&
                velocities[k] == seeds[k].velocity && colors[k] == seeds[k].color
    {
      positions, velocities, colors := [], [], [];
      new;
      for k := 0 to InitialNumBalls
        invariant |positions| == |velocities| == |colors| == k
        invariant forall j :: 0 <= j < k ==>
                    positions[j] == polar(seeds[j].angle, seeds[j].distance) &&
                    velocities[j] == seeds[j].velocity && colors[j] == seeds[j].color
      {
        var p := polar(seeds[k].angle, seeds[k].distance);
        positions := positions + [p];
        velocities := velocities + [seeds[k].velocity];
        colors := colors + [seeds[k].color];
      }
    }

    /**
     * One tick of the ball update. The loop bound is the ball count at the
     * start, so duplicates appended during the tick are not visited. The
     * k-th duplicate takes its velocity and colour from `draws[k]`;
     * `clamp(p)` stands for the point on the circle of radius
     * `radius - ball_radius` in the direction of `p` from the centre.
     */
    method Step(clamp: Vec -> Vec, draws: seq<Draw>)
      requires Valid() && ValidDraws(draws) && HitCount(State()) <= |draws|
      modifies this
      ensures Valid()
      ensures State() == Tick(old(State()), clamp, draws)
    {
      ghost var s := State();
      var n := |positions|;
      var used := 0;
      var i := 0;
      while i < n
        invariant 0 <= i <= n == Count(s)
        invariant used == HitsBelow(s, i) <= HitCount(s)
        invariant State() == Run(s, i, clamp, draws)
      {
        ghost var before, k := State(), used;
        HitsBelowMonotone(s, i, n);
        HitsBelowMonotone(s, i + 1, n);
        assert Moved(before, i) == Moved(s, i);
        var p := Add(positions[i], velocities[i]);
        if Penetrates(p) {
          var c := clamp(p);
          positions := positions[i := c] + [c];
          velocities := velocities[i := Negate(velocities[i])] + [draws[used].velocity];
          colors := colors + [draws[used].color];
          used := used + 1;
        } else {
          positions := positions[i := p];
        }
        assert State() == UpdateBall(before, i, clamp, draws, k);
        assert Run(s, i + 1, clamp, draws) == UpdateBall(before, i, clamp, draws, k);
        i := i + 1;
      }
      TickPreservesValid(s, clamp, draws);
    }
  }
}
