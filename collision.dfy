/*
 * The impulse-based collision of two balls (`resolve_collision`), as the
 * source writes it and with the zero-distance guard it needs.
 */
module Collisions {
  import opened FixedPoint
  import opened Balls

  /** Squared distance between the centres of two balls. */
  function CentreDistSqr(a: Ball, b: Ball): (dSqr: nat)
  {
    DistSqr(a.x, a.y, b.x, b.y)
  }

  /** The early exit of the source: the centres are farther apart than the sum of the radii. */
  predicate Apart(a: Ball, b: Ball)
  {
    CentreDistSqr(a, b) > (a.radius + b.radius) * (a.radius + b.radius)
  }

  /** The distance of the centres, rounded down: `d` in the source. */
  function Gap(a: Ball, b: Ball): (d: nat)
  {
    FloorSqrt(CentreDistSqr(a, b))
  }

  /**
   * The relative velocity of b with respect to a along the line of centres.
   * The source's DOT macro does not parenthesise its arguments, so
   * `DOT(dvx, dvy, dx / d, dy / d)` expands to `dvx * dx / d + dvy * dy / d`:
   * each product is divided by d, not the normal component.
   */
  function NormalVelocity(a: Ball, b: Ball, d: int): (vn: int)
    requires d != 0
    ensures d > 0 && (b.vx - a.vx) * (b.x - a.x) <= 0 && (b.vy - a.vy) * (b.y - a.y) <= 0 ==> vn <= 0
    ensures d > 0 && (b.vx - a.vx) * (b.x - a.x) >= 0 && (b.vy - a.vy) * (b.y - a.y) >= 0 ==> vn >= 0
  {
    Quot((b.vx - a.vx) * (b.x - a.x), d) + Quot((b.vy - a.vy) * (b.y - a.y), d)
  }

  /** The source's `impulse_scalar`, for restitution percentage e. */
  function ImpulseScalar(vn: int, e: int, a: Ball, b: Ball): (j: int)
  {
    -(vn * 100 + vn * e) * a.mass * b.mass
  }

  /** `i / mass / d / mass_sum / 100`, every division truncating as in C. */
  function Share(i: int, mass: int, d: int, massSum: int): (dv: int)
    requires mass != 0 && d != 0 && massSum != 0
  {
    Quot(Quot(Quot(Quot(i, mass), d), massSum), 100)
  }

  /**
   * The velocity changes of a collision that goes through, for restitution
   * percentage e: the impulse along (dx, dy) is divided by each ball's own
   * mass, the distance, the mass sum and 100, and taken from a, given to b.
   */
  function Kicked(a: Ball, b: Ball, e: int): (r: (Ball, Ball))
    requires a.mass > 0 && b.mass > 0 && Gap(a, b) != 0
    ensures SameBody(a, r.0) && SameBody(b, r.1)
    ensures r.0.x == a.x && r.0.y == a.y && r.1.x == b.x && r.1.y == b.y
    ensures a.mass == b.mass ==> r.0.vx + r.1.vx == a.vx + b.vx && r.0.vy + r.1.vy == a.vy + b.vy
  {
    var d := Gap(a, b);
    var impulse := ImpulseScalar(NormalVelocity(a, b, d), e, a, b);
    var ix := (b.x - a.x) * impulse;
    var iy := (b.y - a.y) * impulse;
    var massSum := b.mass + a.mass;
    (a.(vx := a.vx - Share(ix, a.mass, d, massSum), vy := a.vy - Share(iy, a.mass, d, massSum)),
     b.(vx := b.vx + Share(ix, b.mass, d, massSum), vy := b.vy + Share(iy, b.mass, d, massSum)))
  }

  /**
   * `resolve_collision` exactly as written: no change when the balls are
   * apart or moving apart along the line of centres (strictly positive normal
   * velocity); otherwise the impulse, with the smaller restitution of the
   * two, is split by mass, and both balls move by their new velocities.  The
   * division by d needs d != 0, which the source does not check.
   */
  function CollideAsWritten(a: Ball, b: Ball): (r: (Ball, Ball))
    requires a.mass > 0 && b.mass > 0
    requires Apart(a, b) || Gap(a, b) != 0
    ensures SameBody(a, r.0) && SameBody(b, r.1)
  {
    if Apart(a, b) then (a, b)
    else
      var d := Gap(a, b);
      var vn := NormalVelocity(a, b, d);
      if vn > 0 then (a, b)
      else
        var k := Kicked(a, b, Min(a.restitution, b.restitution));
        (Advance(k.0), Advance(k.1))
  }

  /**
   * Balls whose centres coincide pass the source's distance test, and then
   * the distance d it divides by is 0.
   */
  lemma CoincidentCentresReachDivision(a: Ball, b: Ball)
    requires a.x == b.x && a.y == b.y && a.radius >= 0 && b.radius >= 0
    ensures !Apart(a, b) && Gap(a, b) == 0
  {
  }

  /**
   * `resolve_collision` with the missing guard: coincident centres leave both
   * balls alone.  Either both balls are unchanged, or each has moved by
   * exactly its new velocity; the constant fields never change; with equal
   * masses the two velocity changes cancel, so momentum is conserved exactly.
   */
  function Collide(a: Ball, b: Ball): (r: (Ball, Ball))
    requires a.mass > 0 && b.mass > 0
    ensures SameBody(a, r.0) && SameBody(b, r.1)
    ensures r == (a, b)
            || (r.0.x == a.x + r.0.vx && r.0.y == a.y + r.0.vy
                && r.1.x == b.x + r.1.vx && r.1.y == b.y + r.1.vy)
    ensures a.mass == b.mass ==>
              r.0.vx + r.1.vx == a.vx + b.vx && r.0.vy + r.1.vy == a.vy + b.vy
  {
    if !Apart(a, b) && Gap(a, b) == 0 then (a, b) else CollideAsWritten(a, b)
  }

  /** With the guard, balls whose centres coincide are left unchanged. */
  lemma CollideCoincident(a: Ball, b: Ball)
    requires a.mass > 0 && b.mass > 0 && a.radius >= 0 && b.radius >= 0
    requires a.x == b.x && a.y == b.y
    ensures Collide(a, b) == (a, b)
  {
    CoincidentCentresReachDivision(a, b);
  }

  /**
   * The two early exits: balls farther apart than the sum of their radii,
   * and touching balls whose normal velocity is strictly positive, are left
   * unchanged.
   */
  lemma CollideNoOp(a: Ball, b: Ball)
    requires a.mass > 0 && b.mass > 0
    requires Apart(a, b) || (Gap(a, b) != 0 && NormalVelocity(a, b, Gap(a, b)) > 0)
    ensures Collide(a, b) == (a, b)
  {
  }

  /** A collision that passes both early exits applies the kick and then moves both balls. */
  lemma CollideGoesThrough(a: Ball, b: Ball)
    requires a.mass > 0 && b.mass > 0
    requires !Apart(a, b) && Gap(a, b) != 0 && NormalVelocity(a, b, Gap(a, b)) <= 0
    ensures var k := Kicked(a, b, Min(a.restitution, b.restitution));
      Collide(a, b) == (Advance(k.0), Advance(k.1))
  {
  }

  /** Truncating division of zero is zero. */
  lemma QuotZero(b: int)
    requires b != 0
    ensures Quot(0, b) == 0
  {
  }

  /**
   * The separation test is strict: touching balls with a normal velocity of
   * exactly 0 get no impulse, yet both still move by their velocities.
   */
  lemma CollideRestingContact(a: Ball, b: Ball)
    requires a.mass > 0 && b.mass > 0
    requires !Apart(a, b) && Gap(a, b) != 0 && NormalVelocity(a, b, Gap(a, b)) == 0
    ensures Collide(a, b) == (Advance(a), Advance(b))
  {
    CollideGoesThrough(a, b);
    var d := Gap(a, b);
    var massSum := b.mass + a.mass;
    var impulse := ImpulseScalar(0, Min(a.restitution, b.restitution), a, b);
    assert impulse == 0;
    assert (b.x - a.x) * impulse == 0 && (b.y - a.y) * impulse == 0;
    QuotZero(a.mass);
    QuotZero(b.mass);
    QuotZero(d);
    QuotZero(massSum);
    QuotZero(100);
    assert Share(0, a.mass, d, massSum) == 0 && Share(0, b.mass, d, massSum) == 0;
  }

  /**
   * Only the smaller restitution matters: giving both balls the smaller of
   * the two percentages changes no position and no velocity of the result.
   */
  lemma CollideUsesMinRestitution(a: Ball, b: Ball)
    requires a.mass > 0 && b.mass > 0
    ensures var e := Min(a.restitution, b.restitution);
      var r := Collide(a, b);
      var r2 := Collide(a.(restitution := e), b.(restitution := e));
      && r2.0 == r.0.(restitution := e) && r2.1 == r.1.(restitution := e)
  {
    var e := Min(a.restitution, b.restitution);
    var a2, b2 := a.(restitution := e), b.(restitution := e);
    assert CentreDistSqr(a2, b2) == CentreDistSqr(a, b);
    assert Apart(a2, b2) == Apart(a, b);
    assert Gap(a2, b2) == Gap(a, b);
    if !Apart(a, b) && Gap(a, b) != 0 {
      var d := Gap(a, b);
      assert NormalVelocity(a2, b2, d) == NormalVelocity(a, b, d);
      if NormalVelocity(a, b, d) <= 0 {
        CollideGoesThrough(a, b);
        CollideGoesThrough(a2, b2);
        assert Min(e, e) == e;
        var k, k2 := Kicked(a, b, e), Kicked(a2, b2, e);
        assert k2.0 == k.0.(restitution := e) && k2.1 == k.1.(restitution := e);
      }
    }
  }

  /** Multiplication regroups. */
  lemma MulAssoc(x: int, y: int, z: int)
    ensures x * (y * z) == (x * y) * z
  {
  }

  /**
   * The velocity change of a head-on elastic collision: with normal
   * velocity w, restitution 100 and equal masses m, each ball's share of
   * the impulse is exactly -w.
   */
  lemma ElasticShare(gap: int, w: int, m: int)
    requires gap > 0 && m >= 1
    ensures Share(gap * (-(w * 100 + w * 100) * m * m), m, gap, m + m) == -w
  {
    var h := -100 * w;
    var u := (h + h) * m;
    assert -(w * 100 + w * 100) * m * m == u * m;
    MulAssoc(gap, u, m);
    QuotExact(gap * u, m);
    assert gap * u == u * gap;
    QuotExact(u, gap);
    assert u == h * (m + m);
    QuotExact(h, m + m);
    assert h == (-w) * 100;
    QuotExact(-w, 100);
  }

  /**
   * Head-on elastic collision: two touching balls of equal mass and
   * restitution 100 percent on a horizontal line, approaching each other
   * along x (or at rest relative to each other), leave with their x
   * velocities exchanged, their y velocities unchanged, and each moved by
   * its new velocity.
   */
  lemma HeadOnElasticSwap(a: Ball, b: Ball)
    requires a.mass == b.mass >= 1 && a.restitution == b.restitution == 100
    requires a.y == b.y && 0 < b.x - a.x <= a.radius + b.radius
    requires b.vx - a.vx <= 0
    ensures var r := Collide(a, b);
      && r.0.vx == b.vx && r.1.vx == a.vx && r.0.vy == a.vy && r.1.vy == b.vy
      && r.0.x == a.x + b.vx && r.1.x == b.x + a.vx
      && r.0.y == a.y + a.vy && r.1.y == b.y + b.vy
  {
    HeadOnContact(a, b);
    CollideGoesThrough(a, b);
    HeadOnKick(a, b);
  }

  /** The kick of the head-on elastic collision exchanges the x velocities and leaves y alone. */
  lemma HeadOnKick(a: Ball, b: Ball)
    requires a.mass == b.mass >= 1
    requires a.y == b.y && 0 < b.x - a.x && Gap(a, b) == b.x - a.x
    requires NormalVelocity(a, b, b.x - a.x) == b.vx - a.vx
    ensures var k := Kicked(a, b, 100);
      k.0.vx == b.vx && k.1.vx == a.vx && k.0.vy == a.vy && k.1.vy == b.vy
  {
    var m, gap, w := a.mass, b.x - a.x, b.vx - a.vx;
    var impulse := ImpulseScalar(w, 100, a, b);
    assert impulse == -(w * 100 + w * 100) * m * m;
    ElasticShare(gap, w, m);
    assert (b.y - a.y) * impulse == 0;
    QuotZero(m);
    QuotZero(gap);
    QuotZero(m + m);
    QuotZero(100);
    assert Share(0, m, gap, m + m) == 0;
  }

  /** Two balls touching head-on along x: their distance is the gap and their normal velocity the difference of their x velocities. */
  lemma HeadOnContact(a: Ball, b: Ball)
    requires a.y == b.y && 0 < b.x - a.x <= a.radius + b.radius
    ensures !Apart(a, b) && Gap(a, b) == b.x - a.x
    ensures NormalVelocity(a, b, b.x - a.x) == b.vx - a.vx
  {
    var gap := b.x - a.x;
    AlongX(a.x, b.x, a.y, gap, a.radius + b.radius);
    assert b.y - a.y == 0;
    HeadOnNormal(b.vx - a.vx, b.vy - a.vy, gap);
  }

  /** Two points on a horizontal line, gap apart with gap at most bound: squared distance and its root. */
  lemma AlongX(x1: int, x2: int, y: int, gap: nat, bound: int)
    requires x2 - x1 == gap <= bound
    ensures DistSqr(x1, y, x2, y) <= bound * bound
    ensures FloorSqrt(DistSqr(x1, y, x2, y)) == gap
  {
    assert DistSqr(x1, y, x2, y) == gap * gap by {
      var g: int := gap;
      assert x1 - x2 == -g && y - y == 0;
      assert (-g) * (-g) == g * g;
    }
    SquareMonotonic(gap, bound);
    FloorSqrtOfSquare(gap);
  }

  /** The expanded DOT product for a normal along x. */
  lemma HeadOnNormal(w: int, wy: int, gap: int)
    requires gap > 0
    ensures Quot(w * gap, gap) + Quot(wy * 0, gap) == w
  {
    QuotExact(w, gap);
    assert wy * 0 == 0;
    QuotZero(gap);
  }

  /**
   * The distance d is rounded down, and the expanded DOT product divides
   * by d before the kick multiplies by (dx, dy) and divides by d again, so
   * the kick is scaled by d_sqr / d^2.  For centres one unit apart along
   * the diagonal (d_sqr = 2, d = 1) it is twice too large: with equal
   * masses and restitution 100, a ball moving at (v, v) against one at rest
   * ends at (-v, -v) and the other at (2v, 2v), so the sum of the squared
   * speeds grows five-fold instead of staying the same.
   */
  lemma DiagonalContactGainsEnergy(a: Ball, b: Ball, v: int)
    requires a.mass == 1 && b.mass == 1 && a.restitution == 100 && b.restitution == 100
    requires a.radius + b.radius >= 2
    requires b.x == a.x + 1 && b.y == a.y + 1
    requires a.vx == v && a.vy == v && b.vx == 0 && b.vy == 0 && v > 0
    ensures var r := Collide(a, b);
      && r.0.vx == -v && r.0.vy == -v && r.1.vx == 2 * v && r.1.vy == 2 * v
      && r.0.vx * r.0.vx + r.0.vy * r.0.vy + r.1.vx * r.1.vx + r.1.vy * r.1.vy
         == 5 * (a.vx * a.vx + a.vy * a.vy + b.vx * b.vx + b.vy * b.vy)
  {
    DiagonalContact(a, b, v);
    var r := Collide(a, b);
    assert r.0.vx == -v && r.0.vy == -v && r.1.vx == 2 * v && r.1.vy == 2 * v by {
      CollideGoesThrough(a, b);
      DiagonalKick(a, b, v);
    }
    FiveFold(v);
  }

  /** The squared speeds of the diagonal contact, before and after. */
  lemma FiveFold(v: int)
    ensures (-v) * (-v) + (-v) * (-v) + (2 * v) * (2 * v) + (2 * v) * (2 * v)
            == 5 * (v * v + v * v + 0 * 0 + 0 * 0)
  {
    assert (-v) * (-v) == v * v && (2 * v) * (2 * v) == 4 * (v * v);
  }

  /** The kick for the diagonal contact: twice the elastic exchange. */
  lemma DiagonalKick(a: Ball, b: Ball, v: int)
    requires a.mass == 1 && b.mass == 1
    requires b.x == a.x + 1 && b.y == a.y + 1
    requires a.vx == v && a.vy == v && b.vx == 0 && b.vy == 0
    requires Gap(a, b) == 1 && NormalVelocity(a, b, 1) == -2 * v
    ensures var k := Kicked(a, b, 100);
      k.0.vx == -v && k.0.vy == -v && k.1.vx == 2 * v && k.1.vy == 2 * v
  {
    assert ImpulseScalar(-2 * v, 100, a, b) == 400 * v;
    assert Share(1 * (400 * v), 1, 1, 2) == 2 * v by {
      QuotExact(400 * v, 1);
      assert 400 * v == (200 * v) * 2;
      QuotExact(200 * v, 2);
      assert 200 * v == (2 * v) * 100;
      QuotExact(2 * v, 100);
    }
  }

  /** Centres one unit apart along the diagonal: d_sqr = 2 rounds to d = 1, and the normal velocity is -2v. */
  lemma DiagonalContact(a: Ball, b: Ball, v: int)
    requires a.radius + b.radius >= 2
    requires b.x == a.x + 1 && b.y == a.y + 1
    requires a.vx == v && a.vy == v && b.vx == 0 && b.vy == 0
    ensures !Apart(a, b) && Gap(a, b) == 1 && NormalVelocity(a, b, 1) == -2 * v
  {
    assert CentreDistSqr(a, b) == 2 by {
      assert a.x - b.x == -1 && a.y - b.y == -1;
    }
    SquareMonotonic(2, a.radius + b.radius);
    assert Gap(a, b) == 1 by { FloorSqrtUnique(2, 1); }
    assert (b.vx - a.vx) * (b.x - a.x) == -v;
    assert (b.vy - a.vy) * (b.y - a.y) == -v;
    assert Quot(-v, 1) == -v by { QuotExact(-v, 1); }
  }
}
