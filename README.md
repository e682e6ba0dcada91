# pebble-physics: the fixed-point ball physics kernel

This project models the physics of the pebble-physics watch app in Dafny.
Twenty balls move on the watch screen. They speed up with the accelerometer
and lose speed to friction. They bounce off the edges of a rectangular
screen or are pulled back inside a round one. They collide with each other
by impulse resolution. All quantities are fixed-point integers: positions,
velocities and radii are pixels times `Scale` (128). Every C `/` and `%`
truncates toward zero, and the model writes this out as `Quot` and `Rem`.

The files:

- `fixed_point.dfy` (`FixedPoint`): truncating division and remainder,
  `min`, the squared distance `dist_sqr`, and the digit-by-digit integer
  square root `isqrt`. `Isqrt` is a method with the source's two loops. It
  is proved equal to the recursive reference `FloorSqrt`.
- `ball.dfy` (`Balls`): the `Ball` record and the per-ball invariant
  `WellFormed`. It also holds motion under acceleration and friction
  (`Move`), rectangular containment (`ContainRect`) and round containment
  (`ContainRound`).
- `collision.dfy` (`Collisions`): `resolve_collision` twice. `CollideAsWritten`
  is the code as written. `Collide` adds the guard against a zero distance.
- `frame.dfy` (`Frames`): `physics_frame` as functions on the sequence of
  balls. Each ball in turn moves and is contained. It is then resolved
  against every other ball in index order. Pairs are resolved with the
  guarded `Collide`, not `CollideAsWritten`. So `Frame`, and the
  `PhysicsFrame` method proved equal to it, are `physics_frame` plus the
  zero-distance guard.
- `world.dfy` (`Simulation`): the program's global state as a class
  `World`. Its field `balls` is an array of 20 balls. `Load` is the
  set-up loop of `main_window_load`. `PhysicsFrame` is `physics_frame`,
  with nested loops over the array that update it in place. Each method is
  proved to leave the array exactly as the functions of `Frames` say.

The screen shape is a field of `World`. In the source it is a compile-time
switch (`PBL_RECT`). On a round screen the projection centres the y
coordinate on `width / 2`, while the distance test uses `height / 2`. The
model follows this as written. The two agree on round watches, whose
screens are square.

## Model

| member | source | states |
|---|---|---|
| FixedPoint.Quot | src/c/main.c:116-117 | C's `/` on `int`: the quotient is non-negative when the operands have the same sign and non-positive otherwise (with `QuotBounds`, it is rounded toward zero) |
| FixedPoint.QuotBounds | src/c/main.c:97-100 | C's `/` truncates: the magnitude of the quotient is the largest q with q·\|b\| ≤ \|a\|; `Quot` gives it the sign of the exact quotient |
| FixedPoint.Rem | src/c/main.c:195-198 | C's `%`: the remainder has the sign of the dividend and is smaller than the divisor in magnitude; it equals the Euclidean remainder for a non-negative dividend and a positive divisor |
| FixedPoint.Min | src/c/main.c:67 | `min` is at most both arguments and equal to one of them |
| FixedPoint.DistSqr | src/c/main.c:52-56 | the squared distance is non-negative and is zero exactly when the two points coincide |
| FixedPoint.DistSqrSymmetric | src/c/main.c:52-56 | the squared distance does not depend on the order of the points |
| FixedPoint.FloorSqrt | src/c/main.c:30-50 | the reference root r satisfies r² ≤ n < (r+1)² |
| FixedPoint.FloorSqrtUnique | src/c/main.c:30-50 | only one natural number has the floor-root bracket, so any such number is `FloorSqrt(n)` |
| FixedPoint.FloorSqrtOfSquare | src/c/main.c:30-50 | the root of a perfect square g² is exactly g |
| FixedPoint.Isqrt | src/c/main.c:30-50 | for every 32-bit input, the two loops of `isqrt` return floor(√n), i.e. r² ≤ n < (r+1)², so `isqrt(0) == 0` |
| Balls.Advance | src/c/main.c:101-104 | a ball moved by its velocity: only x and y change, each by its velocity component |
| Balls.Move | src/c/main.c:114-119 | acceleration and friction change only the velocity; the new position is the old one plus the new velocity |
| Balls.MoveDamps | src/c/main.c:114-119 | friction at most 100 percent never increases the magnitude of a velocity component nor flips its sign; at 100 percent with no acceleration the move is a plain `Advance` |
| Balls.Bounce | src/c/main.c:120-136 | a bounce reverses the velocity component and never increases its magnitude |
| Balls.ContainRect | src/c/main.c:120-136 | rectangular containment changes only position and velocity |
| Balls.ContainRectEffect | src/c/main.c:120-136 | on a screen at least one diameter wide and high, the ball ends fully on screen; a crossed edge snaps the coordinate against it and bounces that velocity component; a component whose edges were not crossed is unchanged |
| Balls.ContainRectIdempotent | src/c/main.c:120-136 | containing an already contained ball changes nothing |
| Balls.ContainRound | src/c/main.c:137-148 | round containment changes only position and velocity |
| Balls.Projected | src/c/main.c:142-143 | when max_dist ≤ d, the projected coordinate lies between the old coordinate and the centre |
| Balls.Pushed | src/c/main.c:144-145 | the velocity change lies between 0 and the displacement |
| Balls.ContainRoundInward | src/c/main.c:138-148 | a ball within max_dist of the centre is untouched; otherwise each new coordinate lies between the old one and the centre, and each velocity change points along the displacement and is at most as large |
| Balls.Contain | src/c/main.c:120-148 | the build switch: a rectangular screen uses the edge checks and a round one the radial projection; either changes only position and velocity |
| Collisions.NormalVelocity | src/c/main.c:85 | the expanded `DOT` product divided by d > 0: non-positive when each axis' relative velocity points against its offset (the balls approach along both axes), non-negative when each points with it |
| Collisions.Kicked | src/c/main.c:89-100 | the impulse changes only the velocities; with equal masses the two changes are equal and opposite, so the sum of the velocities is unchanged |
| Collisions.CollideAsWritten | src/c/main.c:70-105 | `resolve_collision` as written; it needs a non-zero distance when the balls touch, and changes only positions and velocities |
| Collisions.CoincidentCentresReachDivision | src/c/main.c:84-85 | balls with coincident centres pass the distance test and give d = 0, the divisor of line 85 |
| Collisions.Collide | src/c/main.c:70-105 | with the zero-distance guard: either both balls are unchanged, or each moves by exactly its new velocity; only positions and velocities change; with equal masses the velocity changes cancel, so momentum is conserved exactly |
| Collisions.CollideCoincident | src/c/main.c:84-85 | with the guard, balls with coincident centres are left unchanged |
| Collisions.CollideNoOp | src/c/main.c:77-88 | balls farther apart than the sum of their radii, or moving apart along the normal (strictly positive), are left unchanged |
| Collisions.CollideGoesThrough | src/c/main.c:89-104 | a collision that passes both exits applies the impulse with the smaller restitution, then moves both balls |
| Collisions.CollideRestingContact | src/c/main.c:86-104 | the exit test is strict: at normal velocity exactly 0 no impulse is applied, yet both balls still move by their velocities |
| Collisions.CollideUsesMinRestitution | src/c/main.c:89 | only the smaller restitution matters: giving both balls that value changes no position and no velocity of the result |
| Collisions.ElasticShare | src/c/main.c:97-100 | for equal masses, restitution 100 and normal velocity w, each ball's share of the impulse is exactly −w |
| Collisions.HeadOnContact | src/c/main.c:73-85 | two balls touching on a horizontal line are at distance b.x − a.x, and their normal velocity is b.vx − a.vx |
| Collisions.HeadOnKick | src/c/main.c:91-100 | the impulse of that collision, with equal masses and restitution 100, exchanges the x velocities and leaves the y velocities unchanged |
| Collisions.HeadOnElasticSwap | src/c/main.c:70-105 | two equal-mass, fully elastic balls touching on a horizontal line and approaching along x, at any velocities, exchange their x velocities, keep their y velocities, and move by their new velocities |
| Collisions.DiagonalContact | src/c/main.c:73-85 | centres one unit apart along the diagonal give d_sqr = 2, a rounded-down d = 1, and, for a ball at (v, v) against one at rest, normal velocity −2v |
| Collisions.DiagonalKick | src/c/main.c:91-100 | the impulse of that contact takes the moving ball to (−v, −v) and the resting one to (2v, 2v) |
| Collisions.DiagonalContactGainsEnergy | src/c/main.c:84-100 | as written, an equal-mass collision at restitution 100 does not conserve the kinetic energy along the normal: in that diagonal contact the sum of squared speeds grows five-fold |
| Frames.ResolvePair | src/c/main.c:154 | a collision of balls i and j changes no other ball and no constant field |
| Frames.Sweep | src/c/main.c:150-155 | the inner loop keeps every ball well formed and changes no constant field |
| Frames.SweepLeavesLater | src/c/main.c:150-155 | after j steps of the inner loop for ball i, every ball at index j or above other than i is unchanged |
| Frames.StepBall | src/c/main.c:112-155 | one outer iteration keeps every ball well formed and changes no constant field |
| Frames.FrameUpTo | src/c/main.c:112-156 | after the first n iterations of the outer loop, the number of balls, every constant field and the per-ball invariant are kept |
| Frames.Frame | src/c/main.c:111-157 | a frame keeps the number of balls, every constant field and the per-ball invariant |
| Frames.Frames | src/c/main.c:159-170 | successive frames, each with the latest acceleration sample, keep the number of balls, every constant field and the per-ball invariant |
| Frames.LoneBallFrame | src/c/main.c:111-157 | a lone frictionless ball without acceleration, staying clear of the edges, moves by exactly its velocity in one frame |
| Frames.LoneBallFrames | src/c/main.c:111-157 | such a ball, clear of the edges along its whole path, has moved by n times its velocity after n frames |
| Simulation.SumOfRadiiFits | src/c/main.c:71-73 | for radii within the per-ball bound, `sidelen_sqr` fits the 32-bit argument of `isqrt` |
| Simulation.InitialBall | src/c/main.c:192-203 | every initial ball has radius 7.5·Scale, restitution 80, friction 90 and mass 1; its colour is i mod the palette size; for any draws, its centre lies in [radius, size − radius) on each axis longer than a diameter, and each velocity component lies in [−5·Scale, 5·Scale) |
| Simulation.InitialBallContained | src/c/main.c:192-203 | an initial ball on a rectangular screen larger than a diameter is already contained: the rectangular branch leaves it unchanged |
| Simulation.World.constructor | src/c/main.c:28 | the static array starts with 20 zeroed balls |
| Simulation.World.Load | src/c/main.c:189-203 | the screen size is scaled to fixed point and ball k is `InitialBall(k, draws[k], …)`; afterwards every ball is well formed |
| Simulation.CollideBalls | src/c/main.c:70-105 | the step-by-step body of `resolve_collision`, with `Isqrt` for the distance, computes exactly `Collide` |
| Simulation.Impulse | src/c/main.c:89-104 | the impulse statements compute the kick of `Collide`, then move both balls |
| Simulation.World.ResolveCollision | src/c/main.c:154 | resolving balls i and j in place leaves the array as `ResolvePair` says |
| Simulation.World.ResolveAgainstOthers | src/c/main.c:150-155 | the inner loop leaves the array as `Sweep` says |
| Simulation.World.StepBallAt | src/c/main.c:112-155 | one outer iteration leaves the array as `StepBall` says |
| Simulation.World.PhysicsFrame | src/c/main.c:111-157 | `physics_frame` leaves the array as `Frame` says and keeps every ball well formed |

## Left out

- The Pebble window, layer and event-loop plumbing (`init`, `deinit`, `main`, `main_window_unload`, and the window and layer set-up in `main_window_load`). These are calls into the host framework.
- `frame_redraw`. It only renders.
- `new_frame`, its timer and `f_count`. They only schedule frames. `Frames.Frames` states what repeated frames keep.
- `accel_data_handler` and the accelerometer. The acceleration sample is a parameter of `PhysicsFrame`.
- `rand()`. The four values drawn for each ball are a parameter of `Load` (`Draw`).
- `GColor` and the two palettes. A colour is an index into a palette of `numColors` entries, where the palette has 6 or 2 entries.
- `src/pkjs/config.js`. It is a settings-page schema with no logic.
- 32-bit `int` arithmetic. Positions, velocities and products are unbounded integers, so the model has no overflow and no wrap-around. The `APP_LOG` overflow warning is left out with it.
- `isqrt` does keep its 32-bit argument (`Isqrt` requires n < 2³²). The per-ball bound `MaxRadius` ensures that the argument it gets in `resolve_collision` fits.
- The round branch uses the reference `FloorSqrt` rather than `Isqrt`. Its argument depends on unbounded positions. The two agree on every argument below 2³².
- `dist_sqr` takes `uint` parameters. It is modelled on signed differences, which is what the conversion back to `int` gives on two's-complement targets for in-range values.
- `char` restitution and friction. They are integers that `WellFormed` keeps within 0..100, a range that `char` holds.
- `Simulation.World.Load` requires a palette that is not empty, and scaled screen sizes that differ from a diameter. With a diameter, the source's `%` would divide by zero, which is undefined behaviour in C.
- `Balls.ContainRoundInward` does not state that the new centre lies on the circle of radius `max_dist`. The truncating divisions place it there only approximately.
- `Collisions.Collide` states exact momentum conservation only for equal masses. With unequal masses, the truncating divisions by different masses make it inexact.
- `Collisions.Collide` does not state that an elastic collision conserves kinetic energy along the normal, because the code as written does so only approximately. The distance d is rounded down. The expanded `DOT` divides each product by d, and the kick multiplies by (dx, dy) and divides by d again. So the kick is scaled by d_sqr / d², which the floor-root bracket d² ≤ d_sqr < (d+1)² places in [1, ((d+1)/d)²). For touching balls of the initial radius (d about 1920) that excess is about 0.1 percent. It is large only for nearly coincident centres: `Collisions.DiagonalContactGainsEnergy` shows a five-fold gain at d_sqr = 2. Energy is exact where d_sqr is a perfect square, as in `Collisions.HeadOnElasticSwap`.

## Findings

| source | as written | input that shows it | evidently intended | confidence | as-written member | corrected member |
|---|---|---|---|---|---|---|
| src/c/main.c:84-85 | coincident centres pass the distance test, `isqrt(0)` gives d = 0, and `dx / d` divides by zero | two balls with the same x and y | skip the collision when d = 0 | not executed | Collisions.CollideAsWritten, Collisions.CoincidentCentresReachDivision | Collisions.Collide, Collisions.CollideCoincident |
