/*
 * One ball of the simulation and what happens to it alone in a frame:
 * motion under acceleration and friction, and containment by a rectangular
 * or a round screen.
 * All quantities are fixed-point integers scaled by `Scale`.
 */
module Balls {
  import opened FixedPoint

  /** Fixed-point factor of positions, velocities and radii (the source's SCALE). */
  const Scale := 128

  /**
   * Largest radius for which the sum of two radii, squared, still fits a
   * signed 32-bit int (`sidelen_sqr` in `resolve_collision`).
   */
  const MaxRadius := 23170

  /** The source's `Ball` record; `color` is an index into the palette. */
  datatype Ball = Ball(
    x: int, y: int,
    vx: int, vy: int,
    restitution: int,
    friction: int,
    radius: int,
    mass: int,
    color: nat)

  /** The two screen shapes the source is built for (`PBL_RECT` or not). */
  datatype Shape = Rect | Round

  /** The per-ball invariant: percentages in 0..100, a positive radius, a positive mass. */
  predicate WellFormed(b: Ball)
  {
    0 < b.radius <= MaxRadius && b.mass >= 1
    && 0 <= b.restitution <= 100 && 0 <= b.friction <= 100
  }

  /** `b2` is the same body as `b`: only position and velocity may differ. */
  predicate SameBody(b: Ball, b2: Ball)
  {
    b2.restitution == b.restitution && b2.friction == b.friction
    && b2.radius == b.radius && b2.mass == b.mass && b2.color == b.color
  }

  /** x lies on the closed segment from a to b. */
  predicate OnSegment(x: int, a: int, b: int)
  {
    a <= x <= b || b <= x <= a
  }

  /** Moves a ball by its own velocity. */
  function Advance(b: Ball): (r: Ball)
    ensures SameBody(b, r) && r.vx == b.vx && r.vy == b.vy
    ensures r.x - b.x == b.vx && r.y - b.y == b.vy
  {
    b.(x := b.x + b.vx, y := b.y + b.vy)
  }

  // ---------------------------------------------------------------------
  // Motion (physics_frame, first six statements of the loop body)
  // ---------------------------------------------------------------------

  /**
   * Adds the acceleration sample (its y component negated), damps the
   * velocity by the friction percentage with C's truncating division, and
   * moves the ball by the new velocity.
   */
  function Move(b: Ball, ax: int, ay: int): (r: Ball)
    ensures SameBody(b, r)
    ensures r.x == b.x + r.vx && r.y == b.y + r.vy
  {
    var vx := Quot((b.vx + ax) * b.friction, 100);
    var vy := Quot((b.vy - ay) * b.friction, 100);
    b.(x := b.x + vx, y := b.y + vy, vx := vx, vy := vy)
  }

  /**
   * Damping by a percentage in 0..100 never speeds a component up and never
   * turns it around; at 100 percent it keeps the component exactly.
   */
  lemma DampingShrinks(v: int, f: int)
    requires 0 <= f <= 100
    ensures Abs(Quot(v * f, 100)) <= Abs(v)
    ensures v >= 0 ==> Quot(v * f, 100) >= 0
    ensures v <= 0 ==> Quot(v * f, 100) <= 0
    ensures f == 100 ==> Quot(v * f, 100) == v
  {
    var q := Quot(v * f, 100);
    assert Abs(v * f) == Abs(v) * f by {
      if v < 0 { assert -(v * f) == (-v) * f; }
    }
    MulLe(f, 100, Abs(v));
    MulLe(Abs(v) + 1, Abs(q), 100);
    if f == 100 {
      QuotExact(v, 100);
    }
  }

  /**
   * The motion step: the new velocity is the accelerated velocity damped by
   * friction (never faster than the accelerated one, same direction), and at
   * 100 percent friction with no acceleration the ball keeps its velocity and
   * moves by exactly that velocity.
   */
  lemma MoveDamps(b: Ball, ax: int, ay: int)
    requires WellFormed(b)
    ensures Abs(Move(b, ax, ay).vx) <= Abs(b.vx + ax)
    ensures Abs(Move(b, ax, ay).vy) <= Abs(b.vy - ay)
    ensures b.vx + ax >= 0 ==> Move(b, ax, ay).vx >= 0
    ensures b.vx + ax <= 0 ==> Move(b, ax, ay).vx <= 0
    ensures b.vy - ay >= 0 ==> Move(b, ax, ay).vy >= 0
    ensures b.vy - ay <= 0 ==> Move(b, ax, ay).vy <= 0
    ensures b.friction == 100 && ax == 0 && ay == 0 ==> Move(b, ax, ay) == Advance(b)
  {
    DampingShrinks(b.vx + ax, b.friction);
    DampingShrinks(b.vy - ay, b.friction);
  }

  // ---------------------------------------------------------------------
  // Containment (physics_frame, the PBL_RECT branch and the round branch)
  // ---------------------------------------------------------------------

  /** The velocity after bouncing off an edge: reversed and scaled by the restitution percentage. */
  function Bounce(v: int, restitution: int): (r: int)
    requires 0 <= restitution <= 100
    ensures Abs(r) <= Abs(v)
    ensures v >= 0 ==> r <= 0
    ensures v <= 0 ==> r >= 0
  {
    DampingShrinks(-v, restitution);
    Quot(-v * restitution, 100)
  }

  /**
   * Rectangular screen: each of the four edges, checked in the order bottom
   * (y beyond height), top, right, left, snaps a ball that crosses it back
   * against it and bounces the velocity component across it.
   */
  function ContainRect(b: Ball, width: int, height: int): (r: Ball)
    requires WellFormed(b)
    ensures SameBody(b, r)
  {
    var b1 := if b.y + b.radius > height
              then b.(y := height - b.radius, vy := Bounce(b.vy, b.restitution)) else b;
    var b2 := if b1.y - b1.radius < 0
              then b1.(y := b1.radius, vy := Bounce(b1.vy, b1.restitution)) else b1;
    var b3 := if b2.x + b2.radius > width
              then b2.(x := width - b2.radius, vx := Bounce(b2.vx, b2.restitution)) else b2;
    var b4 := if b3.x - b3.radius < 0
              then b3.(x := b3.radius, vx := Bounce(b3.vx, b3.restitution)) else b3;
    b4
  }

  /**
   * On a screen at least one diameter wide and high, rectangular containment
   * leaves the ball fully on screen; an edge that the ball crossed bounces
   * the velocity component across it, and a component whose edges were not
   * crossed is left as it was.
   */
  lemma ContainRectEffect(b: Ball, width: int, height: int)
    requires WellFormed(b) && width >= 2 * b.radius && height >= 2 * b.radius
    ensures var r := ContainRect(b, width, height);
      && b.radius <= r.y <= height - b.radius
      && b.radius <= r.x <= width - b.radius
      && r.y == (if b.y + b.radius > height then height - b.radius
                 else if b.y - b.radius < 0 then b.radius else b.y)
      && r.x == (if b.x + b.radius > width then width - b.radius
                 else if b.x - b.radius < 0 then b.radius else b.x)
      && r.vy == (if b.y + b.radius > height || b.y - b.radius < 0
                  then Bounce(b.vy, b.restitution) else b.vy)
      && r.vx == (if b.x + b.radius > width || b.x - b.radius < 0
                  then Bounce(b.vx, b.restitution) else b.vx)
  {
  }

  /** A ball already contained by a large enough rectangle is not touched again. */
  lemma ContainRectIdempotent(b: Ball, width: int, height: int)
    requires WellFormed(b) && width >= 2 * b.radius && height >= 2 * b.radius
    ensures ContainRect(ContainRect(b, width, height), width, height) == ContainRect(b, width, height)
  {
    ContainRectEffect(b, width, height);
  }

  /**
   * Round screen: a ball whose centre is farther than `width / 2 - radius`
   * from the screen centre is pulled back onto that circle along the line
   * through the centre, and the displacement, scaled by the restitution
   * percentage, is added to its velocity.  The projection centres y on
   * `width / 2`, while the distance test uses `height / 2`.
   */
  function ContainRound(b: Ball, width: int, height: int): (r: Ball)
    requires WellFormed(b)
    ensures SameBody(b, r)
  {
    var dSqr := DistSqr(b.x, b.y, Quot(width, 2), Quot(height, 2));
    var maxDist := Quot(width, 2) - b.radius;
    if dSqr <= maxDist * maxDist then b
    else
      var d := FloorSqrt(dSqr);
      var newX := Projected(b.x, Quot(width, 2), maxDist, d);
      var newY := Projected(b.y, Quot(width, 2), maxDist, d);
      b.(vx := Pushed(b.vx, newX - b.x, b.restitution),
         vy := Pushed(b.vy, newY - b.y, b.restitution),
         x := newX, y := newY)
  }

  /**
   * One coordinate of the radial projection: the offset of p from c is
   * scaled by m / d.  When 0 <= m <= d the result lies between p and c.
   */
  function Projected(p: int, c: int, m: int, d: int): (np: int)
    requires d != 0
    ensures 0 <= m <= d ==> OnSegment(np, p, c)
  {
    ProjectToward(p - c, m, d);
    Quot((p - c) * m, d) + c
  }

  /**
   * A velocity component after a displacement disp: the displacement,
   * scaled by the restitution percentage e, is added to it, so the change
   * lies between 0 and the displacement.
   */
  function Pushed(v: int, disp: int, e: int): (r: int)
    requires 0 <= e <= 100
    ensures OnSegment(r - v, 0, disp)
  {
    DampingShrinks(disp, e);
    v + Quot(disp * e, 100)
  }

  /**
   * Round containment leaves a ball alone when its centre is within
   * `width / 2 - radius` of the centre it tests against; otherwise it moves
   * the ball toward the point (width / 2, width / 2): each coordinate of the
   * new centre lies between that point's and the old one, and each velocity
   * component changes in the direction of the displacement along it, by at
   * most that displacement.
   */
  lemma ContainRoundInward(b: Ball, width: int, height: int)
    requires WellFormed(b) && width >= 2 * b.radius
    ensures var r := ContainRound(b, width, height);
      var c := Quot(width, 2);
      && (DistSqr(b.x, b.y, c, Quot(height, 2)) <= (c - b.radius) * (c - b.radius) ==> r == b)
      && OnSegment(r.x, b.x, c) && OnSegment(r.y, b.y, c)
      && OnSegment(r.vx - b.vx, 0, r.x - b.x) && OnSegment(r.vy - b.vy, 0, r.y - b.y)
  {
    var c := Quot(width, 2);
    var m := c - b.radius;
    var dSqr := DistSqr(b.x, b.y, c, Quot(height, 2));
    if dSqr > m * m {
      RootAbove(dSqr, m);
    }
  }

  /** A number above m squared has a floor root of at least m. */
  lemma RootAbove(n: nat, m: int)
    requires n > m * m
    ensures FloorSqrt(n) >= m
  {
    BracketAbove(n, FloorSqrt(n), m);
  }

  /** A root bracket of a number above m squared starts at m or above. */
  lemma BracketAbove(n: nat, d: nat, m: int)
    requires d * d <= n < (d + 1) * (d + 1) && n > m * m
    ensures d >= m
  {
    SquareMonotonic(d + 1, m);
  }

  /** Scaling an offset by m / d with 0 <= m <= d keeps its sign and does not grow it. */
  lemma ProjectToward(t: int, m: int, d: int)
    requires d != 0
    ensures 0 <= m <= d ==> OnSegment(Quot(t * m, d), 0, t)
  {
    if 0 <= m <= d {
      var q := Quot(t * m, d);
      QuotBounds(t * m, d);
      assert Abs(t * m) == Abs(t) * m by {
        if t < 0 { assert -(t * m) == (-t) * m; }
      }
      MulLe(m, d, Abs(t));
      MulLe(Abs(t) + 1, Abs(q), d);
    }
  }

  /** Containment by the screen the source is built for. */
  function Contain(b: Ball, shape: Shape, width: int, height: int): (r: Ball)
    requires WellFormed(b)
    ensures SameBody(b, r)
  {
    match shape
    case Rect => ContainRect(b, width, height)
    case Round => ContainRound(b, width, height)
  }
}
