/**
 * The ball pool as a value: three parallel lists with one row per ball, the
 * update of a single ball within a tick, and the whole tick as a function of
 * the pool at its start.
 *
 * The clamp onto the boundary (an `atan2` followed by `cos`/`sin`) is a
 * parameter `clamp`, and the random velocity and colour of each duplicate
 * come from a sequence `draws` consumed in order.
 */
module Balls {
  import opened Arena

  const InitialNumBalls: nat := 5

  /** An RGB colour; the program draws each channel with `randint(0, 255)`. */
  datatype Color = Color(r: int, g: int, b: int)

  predicate ValidChannel(c: int)
  {
    0 <= c <= 255
  }

  predicate ValidColor(c: Color)
  {
    ValidChannel(c.r) && ValidChannel(c.g) && ValidChannel(c.b)
  }

  /** The parallel lists `positions`, `velocities` and `colors`. */
  datatype Pool = Pool(positions: seq<Vec>, velocities: seq<Vec>, colors: seq<Color>)

  /** One ball is one row: the three lists have the same length. */
  predicate Aligned(s: Pool)
  {
    |s.positions| == |s.velocities| == |s.colors|
  }

  function Count(s: Pool): nat
  {
    |s.positions|
  }

  /** Every velocity component lies in [-1, 1] and every colour channel in [0, 255]. */
  predicate InRange(s: Pool)
  {
    (forall j :: 0 <= j < |s.velocities| ==> ValidVelocity(s.velocities[j])) &&
    (forall j :: 0 <= j < |s.colors| ==> ValidColor(s.colors[j]))
  }

  predicate Valid(s: Pool)
  {
    Aligned(s) && InRange(s)
  }

  /** Fresh random values for one duplicate ball. */
  datatype Draw = Draw(velocity: Vec, color: Color)

  predicate ValidDraws(draws: seq<Draw>)
  {
    forall k :: 0 <= k < |draws| ==> ValidVelocity(draws[k].velocity) && ValidColor(draws[k].color)
  }

  /**
   * The random values behind one seeded ball: a polar angle and a distance
   * from the centre (placed by `polar`), a velocity and a colour.
   */
  datatype Seed = Seed(angle: real, distance: real, velocity: Vec, color: Color)

  predicate ValidSeeds(seeds: seq<Seed>)
  {
    forall k :: 0 <= k < |seeds| ==>
      0.0 <= seeds[k].distance <= Reach as real &&
      ValidVelocity(seeds[k].velocity) && ValidColor(seeds[k].color)
  }

  /**
   * A seeded ball lies at least one ball radius inside the boundary: placed at
   * distance `distance <= radius - ball_radius` from the centre, it does not
   * collide.
   */
  lemma SeedDoesNotPenetrate(seeds: seq<Seed>, k: nat, p: Vec)
    requires ValidSeeds(seeds) && k < |seeds|
    requires SquaredDistanceFromCenter(p) == seeds[k].distance * seeds[k].distance
    ensures !Penetrates(p)
  {
    var d, e := seeds[k].distance, Reach as real;
    assert 0.0 <= d <= e;
    assert d * d <= e * d <= e * e;
  }

  /** Ball `i` advanced by its velocity. */
  function Moved(s: Pool, i: nat): Vec
    requires Aligned(s) && i < Count(s)
  {
    Add(s.positions[i], s.velocities[i])
  }

  /** Ball `i`, once moved, penetrates the boundary. */
  predicate Collides(s: Pool, i: nat)
    requires Aligned(s) && i < Count(s)
  {
    Penetrates(Moved(s, i))
  }

  /** How many of the first `i` balls collide. */
  function HitsBelow(s: Pool, i: nat): (c: nat)
    requires Aligned(s) && i <= Count(s)
    ensures c <= i
    decreases i
  {
    if i == 0 then 0
    else HitsBelow(s, i - 1) + (if Collides(s, i - 1) then 1 else 0)
  }

  /** The number of balls of the pool that collide this tick. */
  function HitCount(s: Pool): nat
    requires Aligned(s)
  {
    HitsBelow(s, Count(s))
  }

  /** The colliding balls among the first `i`, as a set of indices. */
  function CollidingBelow(s: Pool, i: nat): set<nat>
    requires Aligned(s) && i <= Count(s)
  {
    set j: nat | j < i && Collides(s, j)
  }

  /** `HitsBelow` is the size of the set of colliding balls it counts. */
  lemma {:induction false} HitsBelowCountsColliding(s: Pool, i: nat)
    requires Aligned(s) && i <= Count(s)
    ensures HitsBelow(s, i) == |CollidingBelow(s, i)|
    decreases i
  {
    if i > 0 {
      HitsBelowCountsColliding(s, i - 1);
      var below, all := CollidingBelow(s, i - 1), CollidingBelow(s, i);
      assert i - 1 !in below;
      if Collides(s, i - 1) {
        forall x: nat ensures x in all <==> x in below + {i - 1} {
        }
        assert all == below + {i - 1};
      } else {
        forall x: nat ensures x in all <==> x in below {
        }
        assert all == below;
      }
    }
  }

  /** No ball below `i` collides exactly when the count is zero. */
  lemma {:induction false} HitsBelowZero(s: Pool, i: nat)
    requires Aligned(s) && i <= Count(s)
    ensures HitsBelow(s, i) == 0 <==> forall j :: 0 <= j < i ==> !Collides(s, j)
    decreases i
  {
    if i > 0 {
      HitsBelowZero(s, i - 1);
    }
  }

  /**
   * The count grows with the bound, strictly past a colliding ball: distinct
   * colliding balls get distinct counts of the collisions before them.
   */
  lemma {:induction false} HitsBelowMonotone(s: Pool, i: nat, m: nat)
    requires Aligned(s) && i <= m <= Count(s)
    ensures HitsBelow(s, i) <= HitsBelow(s, m)
    ensures i < m && Collides(s, i) ==> HitsBelow(s, i) < HitsBelow(s, m)
    decreases m
  {
    if i < m {
      HitsBelowMonotone(s, i, m - 1);
    }
  }

  /** The colliding ball below `i` that has exactly `k` collisions before it. */
  function KthColliding(s: Pool, i: nat, k: nat): (j: nat)
    requires Aligned(s) && i <= Count(s) && k < HitsBelow(s, i)
    ensures j < i && Collides(s, j) && HitsBelow(s, j) == k
    decreases i
  {
    if k < HitsBelow(s, i - 1) then KthColliding(s, i - 1, k) else i - 1
  }

  /** Where ball `i` ends up: moved, and clamped onto the boundary on collision. */
  function NewPosition(s: Pool, i: nat, clamp: Vec -> Vec): Vec
    requires Aligned(s) && i < Count(s)
  {
    if Collides(s, i) then clamp(Moved(s, i)) else Moved(s, i)
  }

  /** Ball `i`'s velocity afterwards: both components reversed on collision. */
  function NewVelocity(s: Pool, i: nat): Vec
    requires Aligned(s) && i < Count(s)
  {
    if Collides(s, i) then Negate(s.velocities[i]) else s.velocities[i]
  }

  /**
   * One iteration of the tick's loop on the current pool `st`: ball `i` moves;
   * on collision it is reversed and clamped, and a duplicate is appended at
   * the clamped position with the random values `draws[used]`.
   */
  function UpdateBall(st: Pool, i: nat, clamp: Vec -> Vec, draws: seq<Draw>, used: nat): Pool
    requires Aligned(st) && i < Count(st)
    requires Collides(st, i) ==> used < |draws|
  {
    var p := Moved(st, i);
    if Penetrates(p) then
      var c := clamp(p);
      Pool(st.positions[i := c] + [c],
           st.velocities[i := Negate(st.velocities[i])] + [draws[used].velocity],
           st.colors + [draws[used].color])
    else
      Pool(st.positions[i := p], st.velocities, st.colors)
  }

  /**
   * What one iteration does to its own ball: row `i` gets its new position
   * and velocity, and exactly one row is appended when the ball collides.
   */
  lemma UpdateBallUpdates(st: Pool, i: nat, clamp: Vec -> Vec, draws: seq<Draw>, used: nat)
    requires Aligned(st) && i < Count(st)
    requires Collides(st, i) ==> used < |draws|
    ensures var r := UpdateBall(st, i, clamp, draws, used);
      Aligned(r) && Count(r) == Count(st) + (if Collides(st, i) then 1 else 0) &&
      r.positions[i] == NewPosition(st, i, clamp) && r.velocities[i] == NewVelocity(st, i)
  {
  }

  /** One iteration changes no colour, and no other ball's row. */
  lemma UpdateBallKeeps(st: Pool, i: nat, clamp: Vec -> Vec, draws: seq<Draw>, used: nat, j: nat)
    requires Aligned(st) && i < Count(st) && j < Count(st)
    requires Collides(st, i) ==> used < |draws|
    ensures var r := UpdateBall(st, i, clamp, draws, used);
      j < Count(r) && r.colors[j] == st.colors[j] &&
      (j != i ==> r.positions[j] == st.positions[j] && r.velocities[j] == st.velocities[j])
  {
  }

  /** On collision, the appended row is the duplicate built from `draws[used]`. */
  lemma UpdateBallAppends(st: Pool, i: nat, clamp: Vec -> Vec, draws: seq<Draw>, used: nat)
    requires Aligned(st) && i < Count(st) && Collides(st, i) && used < |draws|
    ensures var r, n := UpdateBall(st, i, clamp, draws, used), Count(st);
      Count(r) == n + 1 && r.positions[n] == NewPosition(st, i, clamp) &&
      r.velocities[n] == draws[used].velocity && r.colors[n] == draws[used].color
  {
  }

  /**
   * The pool after the first `i` iterations of the tick that started from `s`.
   * Each collision so far consumed one draw and appended one row; the rows
   * from `i` to the initial count have not been touched yet.
   */
  function Run(s: Pool, i: nat, clamp: Vec -> Vec, draws: seq<Draw>): (r: Pool)
    requires Aligned(s) && i <= Count(s) && HitsBelow(s, i) <= |draws|
    ensures Aligned(r) && Count(r) == Count(s) + HitsBelow(s, i)
    ensures forall j :: i <= j < Count(s) ==>
              r.positions[j] == s.positions[j] && r.velocities[j] == s.velocities[j]
    decreases i
  {
    if i == 0 then s
    else
      var st := Run(s, i - 1, clamp, draws);
      assert Moved(st, i - 1) == Moved(s, i - 1);
      UpdateBall(st, i - 1, clamp, draws, HitsBelow(s, i - 1))
  }

  /** One tick: every ball present at its start is processed once, in index order. */
  function Tick(s: Pool, clamp: Vec -> Vec, draws: seq<Draw>): Pool
    requires Aligned(s) && HitCount(s) <= |draws|
  {
    Run(s, Count(s), clamp, draws)
  }

  /** Iteration `i - 1` gives its own ball its new position and velocity. */
  lemma RunStepUpdates(s: Pool, i: nat, clamp: Vec -> Vec, draws: seq<Draw>)
    requires Aligned(s) && 0 < i <= Count(s) && HitsBelow(s, i) <= |draws|
    ensures var r := Run(s, i, clamp, draws);
      r.positions[i - 1] == NewPosition(s, i - 1, clamp) && r.velocities[i - 1] == NewVelocity(s, i - 1)
  {
    var st := Run(s, i - 1, clamp, draws);
    assert Moved(st, i - 1) == Moved(s, i - 1);
    UpdateBallUpdates(st, i - 1, clamp, draws, HitsBelow(s, i - 1));
  }

  /** Iteration `i - 1` leaves every colour, and every other row, as it was. */
  lemma RunStepKeeps(s: Pool, i: nat, clamp: Vec -> Vec, draws: seq<Draw>, j: nat)
    requires Aligned(s) && 0 < i <= Count(s) && HitsBelow(s, i) <= |draws|
    requires j < Count(s) + HitsBelow(s, i - 1)
    ensures var st, r := Run(s, i - 1, clamp, draws), Run(s, i, clamp, draws);
      j < Count(r) && r.colors[j] == st.colors[j] &&
      (j != i - 1 ==> r.positions[j] == st.positions[j] && r.velocities[j] == st.velocities[j])
  {
    var st := Run(s, i - 1, clamp, draws);
    assert Moved(st, i - 1) == Moved(s, i - 1);
    UpdateBallKeeps(st, i - 1, clamp, draws, HitsBelow(s, i - 1), j);
  }

  /** When ball `i - 1` collides, iteration `i - 1` appends its duplicate. */
  lemma RunStepAppends(s: Pool, i: nat, clamp: Vec -> Vec, draws: seq<Draw>)
    requires Aligned(s) && 0 < i <= Count(s) && HitsBelow(s, i) <= |draws| && Collides(s, i - 1)
    ensures var r, m := Run(s, i, clamp, draws), HitsBelow(s, i - 1);
      m < |draws| && Count(r) == Count(s) + m + 1 &&
      r.positions[Count(s) + m] == NewPosition(s, i - 1, clamp) &&
      r.velocities[Count(s) + m] == draws[m].velocity && r.colors[Count(s) + m] == draws[m].color
  {
    var st := Run(s, i - 1, clamp, draws);
    assert Moved(st, i - 1) == Moved(s, i - 1);
    UpdateBallAppends(st, i - 1, clamp, draws, HitsBelow(s, i - 1));
    assert NewPosition(st, i - 1, clamp) == NewPosition(s, i - 1, clamp);
  }

  /** After `i` iterations, each processed row `j` holds its new position and velocity. */
  lemma {:induction false} RunUpdatesProcessed(s: Pool, i: nat, clamp: Vec -> Vec, draws: seq<Draw>, j: nat)
    requires Aligned(s) && i <= Count(s) && HitsBelow(s, i) <= |draws| && j < i
    ensures Run(s, i, clamp, draws).positions[j] == NewPosition(s, j, clamp)
    ensures Run(s, i, clamp, draws).velocities[j] == NewVelocity(s, j)
    decreases i
  {
    if j < i - 1 {
      RunUpdatesProcessed(s, i - 1, clamp, draws, j);
      RunStepKeeps(s, i, clamp, draws, j);
    } else {
      RunStepUpdates(s, i, clamp, draws);
    }
  }

  /** No iteration changes the colour of a ball present at the start of the tick. */
  lemma {:induction false} RunKeepsColors(s: Pool, i: nat, clamp: Vec -> Vec, draws: seq<Draw>, j: nat)
    requires Aligned(s) && i <= Count(s) && HitsBelow(s, i) <= |draws| && j < Count(s)
    ensures Run(s, i, clamp, draws).colors[j] == s.colors[j]
    decreases i
  {
    if i > 0 {
      RunKeepsColors(s, i - 1, clamp, draws, j);
      RunStepKeeps(s, i, clamp, draws, j);
    }
  }

  /**
   * After `i` iterations, a colliding ball `j < i` has its duplicate in the
   * row after the initial ones numbered by the collisions before it.
   */
  lemma {:induction false} RunPlacesDuplicate(s: Pool, i: nat, clamp: Vec -> Vec, draws: seq<Draw>, j: nat)
    requires Aligned(s) && i <= Count(s) && HitsBelow(s, i) <= |draws| && j < i && Collides(s, j)
    ensures HitsBelow(s, j) < HitsBelow(s, i)
    ensures Run(s, i, clamp, draws).positions[Count(s) + HitsBelow(s, j)] == NewPosition(s, j, clamp)
    decreases i
  {
    HitsBelowMonotone(s, j, i);
    if j < i - 1 {
      RunPlacesDuplicate(s, i - 1, clamp, draws, j);
      RunStepKeeps(s, i, clamp, draws, Count(s) + HitsBelow(s, j));
    } else {
      RunStepAppends(s, i, clamp, draws);
    }
  }

  /** After `i` iterations, the k-th appended row carries the k-th draw. */
  lemma {:induction false} RunAppendsDraws(s: Pool, i: nat, clamp: Vec -> Vec, draws: seq<Draw>, k: nat)
    requires Aligned(s) && i <= Count(s) && HitsBelow(s, i) <= |draws| && k < HitsBelow(s, i)
    ensures Run(s, i, clamp, draws).velocities[Count(s) + k] == draws[k].velocity
    ensures Run(s, i, clamp, draws).colors[Count(s) + k] == draws[k].color
    decreases i
  {
    if k < HitsBelow(s, i - 1) {
      RunAppendsDraws(s, i - 1, clamp, draws, k);
      RunStepKeeps(s, i, clamp, draws, Count(s) + k);
    } else {
      RunStepAppends(s, i, clamp, draws);
    }
  }

  /**
   * What a tick does to the balls present at its start: a ball that does not
   * collide moves by its velocity and keeps it; a ball that collides is
   * clamped and has both velocity components reversed; no colour changes.
   */
  lemma TickUpdatesExisting(s: Pool, clamp: Vec -> Vec, draws: seq<Draw>, j: nat)
    requires Aligned(s) && HitCount(s) <= |draws| && j < Count(s)
    ensures var r := Tick(s, clamp, draws);
      j < Count(r) &&
      (!Collides(s, j) ==> r.positions[j] == Add(s.positions[j], s.velocities[j]) && r.velocities[j] == s.velocities[j]) &&
      (Collides(s, j) ==> r.positions[j] == clamp(Add(s.positions[j], s.velocities[j])) &&
                          r.velocities[j] == Vec(-s.velocities[j].x, -s.velocities[j].y)) &&
      r.colors[j] == s.colors[j]
  {
    RunUpdatesProcessed(s, Count(s), clamp, draws, j);
    RunKeepsColors(s, Count(s), clamp, draws, j);
  }

  /**
   * Each colliding ball gets one duplicate, appended after the initial balls
   * in the order of the collisions: placed at the parent's new (clamped)
   * position, with the next random velocity and colour. These rows are not
   * moved or tested in the tick that created them.
   */
  lemma TickAppendsDuplicates(s: Pool, clamp: Vec -> Vec, draws: seq<Draw>, j: nat)
    requires Aligned(s) && HitCount(s) <= |draws| && j < Count(s) && Collides(s, j)
    ensures var r, n, k := Tick(s, clamp, draws), Count(s), HitsBelow(s, j);
      k < HitCount(s) && n + k < Count(r) &&
      r.positions[n + k] == r.positions[j] &&
      r.velocities[n + k] == draws[k].velocity && r.colors[n + k] == draws[k].color
  {
    var r, n, k := Tick(s, clamp, draws), Count(s), HitsBelow(s, j);
    assert r == Run(s, n, clamp, draws);
    RunPlacesDuplicate(s, n, clamp, draws, j);
    RunUpdatesProcessed(s, n, clamp, draws, j);
    RunAppendsDraws(s, n, clamp, draws, k);
    assert Count(r) == n + HitCount(s) && k < |draws|;
  }

  /** Every row a tick appends is the duplicate of some colliding ball. */
  lemma TickAppendedRowsAreDuplicates(s: Pool, clamp: Vec -> Vec, draws: seq<Draw>, k: nat)
    requires Aligned(s) && HitCount(s) <= |draws| && k < HitCount(s)
    ensures var r, n, j := Tick(s, clamp, draws), Count(s), KthColliding(s, Count(s), k);
      n + k < Count(r) && r.positions[n + k] == r.positions[j]
  {
    var j := KthColliding(s, Count(s), k);
    TickAppendsDuplicates(s, clamp, draws, j);
  }

  /**
   * The pool grows by exactly the number of colliding balls: it never
   * shrinks, and it keeps its size exactly when no ball collides.
   */
  lemma TickCount(s: Pool, clamp: Vec -> Vec, draws: seq<Draw>)
    requires Aligned(s) && HitCount(s) <= |draws|
    ensures var r := Tick(s, clamp, draws);
      Aligned(r) && Count(r) == Count(s) + |CollidingBelow(s, Count(s))| && Count(s) <= Count(r) &&
      (Count(r) == Count(s) <==> forall j :: 0 <= j < Count(s) ==> !Collides(s, j))
  {
    HitsBelowCountsColliding(s, Count(s));
    HitsBelowZero(s, Count(s));
  }

  /**
   * A tick keeps every velocity component in [-1, 1] and every colour channel
   * in [0, 255], given random draws within those ranges.
   */
  lemma TickPreservesValid(s: Pool, clamp: Vec -> Vec, draws: seq<Draw>)
    requires Valid(s) && ValidDraws(draws) && HitCount(s) <= |draws|
    ensures Valid(Tick(s, clamp, draws))
  {
    var r, n := Tick(s, clamp, draws), Count(s);
    forall j | 0 <= j < |r.velocities|
      ensures ValidVelocity(r.velocities[j]) && ValidColor(r.colors[j])
    {
      if j < n {
        RunUpdatesProcessed(s, n, clamp, draws, j);
        RunKeepsColors(s, n, clamp, draws, j);
      } else {
        RunAppendsDraws(s, n, clamp, draws, j - n);
      }
    }
  }
}
