/*
 * The simulation state: the array of balls, the screen size in fixed-point
 * units, and the two operations that change them: filling the array when
 * the window loads (`main_window_load`) and advancing it by one frame
 * (`physics_frame`, with `resolve_collision` for each pair).
 */
module Simulation {
  import opened FixedPoint
  import opened Balls
  import opened Collisions
  import opened Frames

  /** Number of balls on screen (the source's NUM_BALLS). */
  const NumBalls := 20

  /** Radius of every ball: 7.5 pixels in fixed point. */
  const InitRadius := 75 * Scale / 10

  /** The four `rand()` results drawn for one ball, in the order the source draws them. */
  datatype Draw = Draw(x: nat, y: nat, vx: nat, vy: nat)

  /** The zero-initialised record a static array of balls starts with. */
  const Cleared := Ball(0, 0, 0, 0, 0, 0, 0, 0, 0)

  /**
   * Ball number i as the window load sets it up from its draws: a fixed
   * radius, restitution 80, friction 90 and mass 1; the colour cycles
   * through the palette; the centre lies in [radius, size - radius) along
   * each axis whose screen size exceeds a diameter; each velocity component
   * lies in [-5 * Scale, 5 * Scale).  Remainders are C's, so a screen
   * narrower than a diameter gives a remainder of the dividend's sign.
   */
  function InitialBall(i: nat, draw: Draw, width: int, height: int, numColors: nat): (b: Ball)
    requires numColors > 0
    requires width != 2 * InitRadius && height != 2 * InitRadius
    ensures WellFormed(b)
    ensures b.radius == InitRadius && b.restitution == 80 && b.friction == 90 && b.mass == 1
    ensures b.color == i % numColors && b.color < numColors
    ensures width > 2 * InitRadius ==> InitRadius <= b.x < width - InitRadius
    ensures height > 2 * InitRadius ==> InitRadius <= b.y < height - InitRadius
    ensures -5 * Scale <= b.vx < 5 * Scale && -5 * Scale <= b.vy < 5 * Scale
  {
    var r := InitRadius;
    Ball(Rem(draw.x, width - r * 2) + r,
         Rem(draw.y, height - r * 2) + r,
         Rem(draw.vx, 10 * Scale) - 5 * Scale,
         Rem(draw.vy, 10 * Scale) - 5 * Scale,
         80, 90, r, 1, i % numColors)
  }

  /**
   * A freshly placed ball on a rectangular screen wider and higher than a
   * diameter is already inside it: containment leaves it as it is.
   */
  lemma InitialBallContained(i: nat, draw: Draw, width: int, height: int, numColors: nat)
    requires numColors > 0
    requires width > 2 * InitRadius && height > 2 * InitRadius
    ensures var b := InitialBall(i, draw, width, height, numColors);
      ContainRect(b, width, height) == b
  {
    var b := InitialBall(i, draw, width, height, numColors);
    ContainRectEffect(b, width, height);
  }

  /**
   * The global state of the source: the ball array, the screen size in
   * fixed-point units, and the screen shape the program is built for.
   */
  class World {
    const shape: Shape
    const balls: array<Ball>
    var width: int
    var height: int

    /** Every ball satisfies the per-ball invariant. */
    ghost predicate Valid()
      reads this, balls
    {
      balls.Length == NumBalls && AllWellFormed(balls[..])
    }

    /** Static storage: every ball and the screen size start at zero. */
    constructor(shape: Shape)
      ensures this.shape == shape && fresh(balls) && balls.Length == NumBalls
      ensures width == 0 && height == 0
      ensures forall k :: 0 <= k < balls.Length ==> balls[k] == Cleared
    {
      this.shape := shape;
      balls := new Ball[NumBalls](_ => Cleared);
      width := 0;
      height := 0;
    }

    /**
     * The set-up part of `main_window_load`: the screen size of the frame in
     * pixels is scaled to fixed point, and ball k is set up from draws[k].
     * Afterwards every ball satisfies the per-ball invariant.
     */
    method Load(frameW: int, frameH: int, numColors: nat, draws: seq<Draw>)
      requires balls.Length == NumBalls && |draws| == NumBalls && numColors > 0
      requires frameW * Scale != 2 * InitRadius && frameH * Scale != 2 * InitRadius
      modifies this, balls
      ensures width == frameW * Scale && height == frameH * Scale
      ensures forall k :: 0 <= k < NumBalls ==>
                balls[k] == InitialBall(k, draws[k], width, height, numColors)
      ensures Valid()
    {
      width := frameW * Scale;
      height := frameH * Scale;
      var i := 0;
      while i < NumBalls
        invariant 0 <= i <= NumBalls
        invariant width == frameW * Scale && height == frameH * Scale
        invariant forall k :: 0 <= k < i ==>
                    balls[k] == InitialBall(k, draws[k], width, height, numColors)
      {
        var r := 75 * Scale / 10;
        var x := Rem(draws[i].x, width - r * 2) + r;
        var y := Rem(draws[i].y, height - r * 2) + r;
        var vx := Rem(draws[i].vx, 10 * Scale) - 5 * Scale;
        var vy := Rem(draws[i].vy, 10 * Scale) - 5 * Scale;
        balls[i] := Ball(x, y, vx, vy, 80, 90, r, 1, i % numColors);
        i := i + 1;
      }
    }

    /**
     * `resolve_collision(&balls[i], &balls[j])`: the two records are read,
     * collided, and written back; no other ball changes.
     */
    method ResolveCollision(i: nat, j: nat)
      requires i < balls.Length && j < balls.Length && i != j
      requires WellFormed(balls[i]) && WellFormed(balls[j])
      modifies balls
      ensures balls[..] == ResolvePair(old(balls[..]), i, j)
    {
      var a, b := CollideBalls(balls[i], balls[j]);
      balls[i] := a;
      balls[j] := b;
    }

    /**
     * The inner loop of `physics_frame` for ball i: ball i is resolved
     * against every other ball, in increasing index order.
     */
    method ResolveAgainstOthers(i: nat)
      requires Valid() && i < NumBalls
      modifies balls
      ensures balls[..] == Sweep(old(balls[..]), i, NumBalls)
    {
      ghost var t := balls[..];
      var j := 0;
      while j < NumBalls
        invariant 0 <= j <= NumBalls
        invariant balls[..] == Sweep(t, i, j)
      {
        if j != i {
          ResolveCollision(i, j);
        }
        j := j + 1;
      }
    }

    /**
     * One iteration of the outer loop of `physics_frame`: ball i is
     * accelerated, damped, moved and contained by the screen, and then
     * resolved against every other ball.
     */
    method StepBallAt(i: nat, ax: int, ay: int)
      requires Valid() && i < NumBalls
      modifies balls
      ensures balls[..] == StepBall(old(balls[..]), i, shape, width, height, ax, ay)
    {
      var ball := Move(balls[i], ax, ay);
      ball := Contain(ball, shape, width, height);
      balls[i] := ball;
      assert SameBodies(old(balls[..]), balls[..]);
      ResolveAgainstOthers(i);
    }

    /**
     * `physics_frame`: every ball in index order.  The balls end as the
     * frame function says, so the per-ball invariant holds afterwards.
     */
    method PhysicsFrame(ax: int, ay: int)
      requires Valid()
      modifies balls
      ensures Valid()
      ensures balls[..] == Frame(old(balls[..]), shape, width, height, ax, ay)
    {
      ghost var s0 := balls[..];
      var i := 0;
      while i < NumBalls
        invariant 0 <= i <= NumBalls
        invariant balls[..] == FrameUpTo(s0, i, shape, width, height, ax, ay)
      {
        StepBallAt(i, ax, ay);
        i := i + 1;
      }
    }
  }

  /**
   * The body of `resolve_collision` on the two records: the two early
   * exits, the distance by the 32-bit square root, the impulse with the
   * smaller restitution split by mass, and the move of both balls.  The
   * distance is 0 only for coincident centres, and then the balls are left
   * alone instead of dividing by it.
   */
  method CollideBalls(a0: Ball, b0: Ball) returns (a: Ball, b: Ball)
    requires WellFormed(a0) && WellFormed(b0)
    ensures (a, b) == Collide(a0, b0)
  {
    a, b := a0, b0;
    var sidelen := a.radius + b.radius;
    var sidelenSqr := sidelen * sidelen;
    var dSqr := DistSqr(a.x, a.y, b.x, b.y);
    if dSqr > sidelenSqr {
      assert Collide(a0, b0) == (a0, b0) by { CollideNoOp(a0, b0); }
      return;
    }
    var dvx := b.vx - a.vx;
    var dvy := b.vy - a.vy;
    var dx := b.x - a.x;
    var dy := b.y - a.y;
    assert dSqr < 0x1_0000_0000 by { SumOfRadiiFits(a.radius, b.radius); }
    var d := Isqrt(dSqr);
    assert d == Gap(a0, b0) && !Apart(a0, b0);
    if d == 0 {
      assert Collide(a0, b0) == (a0, b0);
      return;
    }
    var velAlongNormal := Quot(dvx * dx, d) + Quot(dvy * dy, d);
    if velAlongNormal > 0 {
      assert Collide(a0, b0) == (a0, b0) by { CollideNoOp(a0, b0); }
      return;
    }
    a, b := Impulse(a, b, d, velAlongNormal);
    assert Collide(a0, b0) == (a, b) by { CollideGoesThrough(a0, b0); }
  }

  /**
   * The impulse part of `resolve_collision`, for touching balls at
   * distance d with normal velocity vn: the kick with the smaller
   * restitution, then the move of both balls by their new velocities.
   */
  method Impulse(a0: Ball, b0: Ball, d: int, vn: int) returns (a: Ball, b: Ball)
    requires a0.mass > 0 && b0.mass > 0 && d != 0 && d == Gap(a0, b0)
    requires vn == NormalVelocity(a0, b0, d)
    ensures var k := Kicked(a0, b0, Min(a0.restitution, b0.restitution));
      a == Advance(k.0) && b == Advance(k.1)
  {
    a, b := a0, b0;
    var dx := b.x - a.x;
    var dy := b.y - a.y;
    var restitution := Min(a.restitution, b.restitution);
    var impulseScalar := -(vn * 100 + vn * restitution) * a.mass * b.mass;
    var ix := dx * impulseScalar;
    var iy := dy * impulseScalar;
    var massSum := b.mass + a.mass;
    a := a.(vx := a.vx - Share(ix, a.mass, d, massSum), vy := a.vy - Share(iy, a.mass, d, massSum));
    b := b.(vx := b.vx + Share(ix, b.mass, d, massSum), vy := b.vy + Share(iy, b.mass, d, massSum));
    a := a.(x := a.x + a.vx, y := a.y + a.vy);
    b := b.(x := b.x + b.vx, y := b.y + b.vy);
  }

  /**
   * Two radii within the per-ball bound have a squared sum that fits the
   * 32-bit argument of the square root.
   */
  lemma SumOfRadiiFits(ra: int, rb: int)
    requires 0 < ra <= MaxRadius && 0 < rb <= MaxRadius
    ensures (ra + rb) * (ra + rb) < 0x1_0000_0000
  {
    SquareMonotonic(ra + rb, 2 * MaxRadius);
  }
}
