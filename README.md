# Bouncing balls: a verified model of the ball update

The bouncing-balls program keeps its balls in three parallel lists: positions,
velocities and colours. It starts by seeding five balls at random points inside
a circular arena. Then, once per frame, it moves every ball by its velocity.
A ball whose edge ends up strictly outside the arena has both velocity
components reversed and is put back onto the boundary circle. It also gets a
duplicate: a new ball at the same place, with a random velocity and a random
colour, appended to the end of the lists. The loop visits only the balls that
were present when the frame began, so a duplicate first moves in the next
frame.

The project has three modules:

- `Arena` (`arena.dfy`): the constants, planar vectors, the reversal of a
  velocity, and the collision test.
- `Balls` (`balls.dfy`): the three lists as a `Pool` value. It defines the
  update of one ball within a frame (`UpdateBall`), the first `i` iterations
  of the frame loop (`Run`), and the whole frame (`Tick`). The lemmas say
  what a frame does to every row.
- `Bounce` (`bounce.dfy`): the class `Simulation`, whose fields are the three
  lists. Its constructor is the seeding loop. Its method `Step` is the
  frame's update loop, proved to produce exactly `Tick` of the state before.

Two kinds of input come from outside the model:

- The trigonometry is a function parameter. `clamp` stands for the `atan2`,
  `cos` and `sin` that put a ball back on the circle of radius
  `radius - ball_radius`. `polar` stands for the `cos` and `sin` that place a
  seeded ball.
- Random values are parameters. Seeding takes five `Seed`s. A frame takes a
  sequence `draws` whose k-th element supplies the velocity and colour of the
  k-th duplicate made in that frame. Preconditions give these values the
  ranges the program draws them from.

Coordinates are `real`. The collision test compares squared distances.
`PenetratesIffEdgeOutside` proves that this squared test agrees with the
program's square-root test `distance + ball_radius > radius`.

The file contains one kind of boundary response, elastic reversal. It
duplicates a ball only when that ball collides, with no timer. The model
follows this code. Other boundary responses, a time-gated duplication and a
black hole that pulls and consumes balls are described for later versions of
the program, but they are not in `BouncingBalls/bounce.py` and are not modelled.

## Model

| member | source | states |
|---|---|---|
| Arena.Negate | BouncingBalls/bounce.py:60-61 | The bounce reverses both velocity components: the new velocity added to the old gives zero, and it lies in [-1, 1] exactly when the old one does. |
| Arena.PenetratesIffEdgeOutside | BouncingBalls/bounce.py:57-58 | For any non-negative distance `d` whose square is the squared distance from the centre, the model's collision test holds iff `d + ball_radius > radius` (with radius 250 and ball radius 10). A ball whose edge exactly touches the boundary does not collide. |
| Balls.SeedDoesNotPenetrate | BouncingBalls/bounce.py:29-32 | A ball seeded at a distance in [0, radius - ball_radius] from the centre does not collide before it moves. |
| Balls.HitsBelowCountsColliding | BouncingBalls/bounce.py:52-58 | The running collision count over the first `i` balls equals the size of the set of colliding indices below `i`. |
| Balls.HitsBelowZero | BouncingBalls/bounce.py:52-58 | The collision count below `i` is zero iff no ball below `i` collides. |
| Balls.HitsBelowMonotone | BouncingBalls/bounce.py:52-58 | The collision count never decreases as the bound grows, and it grows strictly past a colliding ball, so distinct colliding balls get distinct duplicate slots. |
| Balls.KthColliding | BouncingBalls/bounce.py:52-71 | For every `k` below the collision count, it returns a colliding ball below `i` with exactly `k` collisions before it: the parent of the k-th duplicate. |
| Balls.UpdateBallUpdates | BouncingBalls/bounce.py:53-71 | One iteration gives ball `i` its moved position, or the clamped one on collision. It keeps or reverses the velocity accordingly, keeps the lists aligned, and adds exactly one row on collision and none otherwise. |
| Balls.UpdateBallKeeps | BouncingBalls/bounce.py:53-71 | One iteration changes no colour and no row other than `i`. |
| Balls.UpdateBallAppends | BouncingBalls/bounce.py:66-71 | On collision, the appended row sits at the old length. It holds the clamped position and the drawn velocity and colour. |
| Balls.Run | BouncingBalls/bounce.py:52-71 | After `i` iterations the lists are still aligned and have grown by exactly the number of collisions among the first `i` balls. Rows from `i` up to the initial count are untouched. |
| Balls.RunStepUpdates | BouncingBalls/bounce.py:52-63 | Iteration `i - 1` of the loop gives its own ball its new position and velocity. |
| Balls.RunStepKeeps | BouncingBalls/bounce.py:52-71 | Iteration `i - 1` keeps every colour and every other existing row. |
| Balls.RunStepAppends | BouncingBalls/bounce.py:66-71 | When ball `i - 1` collides, iteration `i - 1` appends its duplicate, using the next unused draw. |
| Balls.RunUpdatesProcessed | BouncingBalls/bounce.py:52-63 | After `i` iterations, every processed ball holds its new position and velocity. |
| Balls.RunKeepsColors | BouncingBalls/bounce.py:52-71 | No iteration changes the colour of a ball that was present when the frame began. |
| Balls.RunPlacesDuplicate | BouncingBalls/bounce.py:66-69 | After `i` iterations, each colliding ball `j < i` has its duplicate after the initial rows, at the slot numbered by the collisions before `j`. The duplicate sits at `j`'s new, clamped position. |
| Balls.RunAppendsDraws | BouncingBalls/bounce.py:67-71 | The k-th appended row carries the k-th drawn velocity and colour. |
| Balls.TickUpdatesExisting | BouncingBalls/bounce.py:52-63 | After a frame, a ball that did not collide has moved by its velocity and kept it. A ball that collided is at the clamped point with velocity `(-vx, -vy)`. No initial ball's colour changes. |
| Balls.TickAppendsDuplicates | BouncingBalls/bounce.py:65-71 | After a frame, every colliding ball has one duplicate at the end, in collision order. The duplicate has the parent's final clamped position and the next drawn velocity and colour. |
| Balls.TickAppendedRowsAreDuplicates | BouncingBalls/bounce.py:65-71 | After a frame, every appended row is the duplicate of a colliding parent and sits at that parent's position. |
| Balls.TickCount | BouncingBalls/bounce.py:52-71 | A frame keeps the lists aligned and adds exactly as many balls as collided. The count never decreases, and stays the same iff no ball collides. |
| Balls.TickPreservesValid | BouncingBalls/bounce.py:34-35 | Given draws in range, a frame keeps every velocity component in [-1, 1] and every colour channel in [0, 255]. |
| Bounce.Simulation.constructor | BouncingBalls/bounce.py:21-35 | Seeding produces five aligned rows, each at `polar(angle, distance)` with its seed's velocity and colour. All rows are in range. |
| Bounce.Simulation.Step | BouncingBalls/bounce.py:52-71 | The in-place update loop, bounded by the count at its start, leaves the lists equal to `Tick` of the previous state and keeps them valid. |

## Left out

- Window setup, drawing, event polling, the quit flag, the frame-rate cap and process exit (`BouncingBalls/bounce.py` lines 1-13, 37-49 and 73-86) are I/O and are not modelled.
- The outer `while running` loop: `Step` models one pass of its update part. Any number of frames is a sequence of calls.
- The trigonometry: `clamp` and `polar` are parameters. Nothing is required of them, so the model does not prove that a clamped ball lies on the circle of radius `radius - ball_radius`.
- Floating point: positions and velocities are exact reals, so rounding in the moves, the square root and the trigonometry is not modelled.
- Randomness: the random values are parameters. Their ranges are preconditions: velocities in [-1, 1], colour channels in [0, 255] and seeding distances in [0, radius - ball_radius]. The seeding angle's range [0, 2π] is not constrained, because it only reaches `polar`.
- Bounce.Simulation.constructor: does not state that the seeded balls lie inside the arena, because `polar` is a parameter. SeedDoesNotPenetrate states it for any point at the drawn distance.
- Integer division: `//` in the constants only acts on positive values, where it agrees with Dafny's `/`.
