/*
 * Integer helpers of the physics kernel: C's truncating division, `min`,
 * the squared distance `dist_sqr` and the digit-by-digit square root `isqrt`.
 */
module FixedPoint {

  /** Absolute value. */
  function Abs(a: int): (r: nat)
    ensures r == a || r == -a
  {
    if a < 0 then -a else a
  }

  /**
   * C's integer `/`: the quotient rounded toward zero.  Dafny's own `/` on
   * `int` is Euclidean and differs from it whenever an operand is negative.
   * The quotient has the sign of the exact quotient, or is 0.
   */
  function Quot(a: int, b: int): (q: int)
    requires b != 0
    ensures (a < 0) == (b < 0) ==> q >= 0
    ensures (a < 0) != (b < 0) ==> q <= 0
  {
    var x, y := Abs(a), Abs(b);
    DivNonNegative(x, y);
    var m := x / y;
    if (a < 0) == (b < 0) then m else -m
  }

  /**
   * The truncated quotient in magnitude is the Euclidean quotient of the
   * magnitudes: it is the largest q with |q| * |b| <= |a|.
   */
  lemma QuotBounds(a: int, b: int)
    requires b != 0
    ensures Abs(Quot(a, b)) * Abs(b) <= Abs(a) < (Abs(Quot(a, b)) + 1) * Abs(b)
  {
    var x, y := Abs(a), Abs(b);
    DivBounds(x, y);
    assert Abs(Quot(a, b)) == x / y;
  }

  /** Euclidean division of naturals gives a natural. */
  lemma DivNonNegative(x: nat, y: nat)
    requires y > 0
    ensures x / y >= 0
  {
  }

  /** Euclidean division of naturals brackets the dividend. */
  lemma DivBounds(x: nat, y: nat)
    requires y > 0
    ensures (x / y) * y <= x < (x / y + 1) * y
  {
    var q, r := x / y, x % y;
    assert x == q * y + r && 0 <= r < y;
    assert (q + 1) * y == q * y + y;
  }

  /** Multiplying both sides of an inequality by a non-negative number keeps it. */
  lemma MulLe(a: int, b: int, c: int)
    ensures 0 <= c && a <= b ==> a * c <= b * c
  {
  }

  /** Dividing a product of naturals by one factor gives the other back. */
  lemma MulDivCancel(x: nat, y: nat)
    requires y > 0
    ensures (x * y) / y == x
  {
    var q := (x * y) / y;
    DivBounds(x * y, y);
    MulLe(q + 1, x, y);
    MulLe(x + 1, q, y);
  }

  /** Dividing an exact multiple of `d` by `d` loses nothing. */
  lemma QuotExact(k: int, d: int)
    requires d != 0
    ensures Quot(k * d, d) == k
  {
    var ak, ad := Abs(k), Abs(d);
    assert Abs(k * d) == ak * ad by {
      if k < 0 && d < 0 { assert k * d == (-k) * (-d); }
      else if k < 0 { assert -(k * d) == (-k) * d; }
      else if d < 0 { assert -(k * d) == k * (-d); }
    }
    MulDivCancel(ak, ad);
    if k > 0 {
      assert (k * d < 0) == (d < 0);
    } else if k < 0 {
      assert (k * d < 0) != (d < 0);
    }
  }

  /**
   * C's integer `%`: the remainder of the truncating quotient, which takes
   * the sign of the dividend and is smaller than the divisor in magnitude.
   * On a non-negative dividend and a positive divisor it agrees with `%`.
   */
  function Rem(a: int, b: int): (r: int)
    requires b != 0
    ensures a >= 0 ==> 0 <= r < Abs(b)
    ensures a <= 0 ==> 0 <= -r < Abs(b)
    ensures a >= 0 && b > 0 ==> r == a % b
  {
    RemBounds(a, b);
    RemAgrees(a, b);
    a - Quot(a, b) * b
  }

  /** The remainder lies between zero and the divisor, on the side of the dividend. */
  lemma RemBounds(a: int, b: int)
    requires b != 0
    ensures a >= 0 ==> 0 <= a - Quot(a, b) * b < Abs(b)
    ensures a <= 0 ==> 0 <= Quot(a, b) * b - a < Abs(b)
  {
    var q := Quot(a, b);
    var m := Abs(q) * Abs(b);
    if q >= 0 && b > 0 {
      assert q * b == m;
    } else if q >= 0 {
      assert q * b == -(q * (-b)) == -m;
    } else if b > 0 {
      assert q * b == -((-q) * b) == -m;
    } else {
      assert q * b == (-q) * (-b) == m;
    }
    if q != 0 {
      assert a >= 0 ==> (b > 0) == (q > 0);
      assert a < 0 ==> (b > 0) == (q < 0);
    }
  }

  /** On a non-negative dividend and a positive divisor, truncating and Euclidean division agree. */
  lemma RemAgrees(a: int, b: int)
    requires b != 0
    ensures a >= 0 && b > 0 ==> Quot(a, b) == a / b && a - Quot(a, b) * b == a % b
  {
    if a >= 0 && b > 0 {
      DivBounds(a, b);
    }
  }

  /** The smaller of two integers (the source's `min`). */
  function Min(a: int, b: int): (m: int)
    ensures m <= a && m <= b
    ensures m == a || m == b
  {
    if a < b then a else b
  }

  /**
   * Squared Euclidean distance between two points (the source's `dist_sqr`).
   * It is never negative and is zero exactly when the points coincide.
   */
  function DistSqr(x1: int, y1: int, x2: int, y2: int): (r: nat)
    ensures r == 0 <==> x1 == x2 && y1 == y2
  {
    var dx := x1 - x2;
    var dy := y1 - y2;
    assert dx != 0 ==> dx * dx > 0;
    assert dy != 0 ==> dy * dy > 0;
    dx * dx + dy * dy
  }

  /** The squared distance does not depend on the order of the two points. */
  lemma DistSqrSymmetric(x1: int, y1: int, x2: int, y2: int)
    ensures DistSqr(x1, y1, x2, y2) == DistSqr(x2, y2, x1, y1)
  {
    assert (x1 - x2) * (x1 - x2) == (x2 - x1) * (x2 - x1);
    assert (y1 - y2) * (y1 - y2) == (y2 - y1) * (y2 - y1);
  }

  /** Squaring is monotonic on non-negative numbers. */
  lemma SquareMonotonic(a: int, b: int)
    ensures 0 <= a <= b ==> a * a <= b * b
  {
    if 0 <= a <= b {
      assert a * a <= a * b <= b * b;
    }
  }

  /**
   * floor(sqrt(n)), defined by halving: the root of n is twice the root of
   * n / 4, or one more than that.  This is the reference that the loop in
   * `Isqrt` is proved to compute.
   */
  function FloorSqrt(n: nat): (r: nat)
    ensures r * r <= n < (r + 1) * (r + 1)
    decreases n
  {
    if n == 0 then 0
    else
      var s := 2 * FloorSqrt(n / 4);
      HalvingRoot(n, s / 2);
      if (s + 1) * (s + 1) <= n then s + 1 else s
  }

  /** If t is the floor root of n / 4, then 2 * t is within one of the root of n. */
  lemma HalvingRoot(n: nat, t: nat)
    requires t * t <= n / 4 < (t + 1) * (t + 1)
    ensures (2 * t) * (2 * t) <= n < (2 * t + 2) * (2 * t + 2)
  {
    var q := n / 4;
    assert n == 4 * q + n % 4;
    var lo, hi := t * t, (t + 1) * (t + 1);
    assert (2 * t) * (2 * t) == 4 * lo;
    assert (2 * t + 2) * (2 * t + 2) == 4 * hi;
  }

  /** The floor square root is the only natural number with the floor-sqrt bounds. */
  lemma FloorSqrtUnique(n: nat, r: nat)
    requires r * r <= n < (r + 1) * (r + 1)
    ensures r == FloorSqrt(n)
  {
    RootBracketUnique(n, r, FloorSqrt(n));
  }

  /** Two natural numbers whose squares both bracket n are equal. */
  lemma RootBracketUnique(n: nat, r: nat, s: nat)
    requires r * r <= n < (r + 1) * (r + 1)
    requires s * s <= n < (s + 1) * (s + 1)
    ensures r == s
  {
    SquareMonotonic(r + 1, s);
    SquareMonotonic(s + 1, r);
  }

  /** The floor root of a perfect square is exact. */
  lemma FloorSqrtOfSquare(g: nat)
    ensures FloorSqrt(g * g) == g
  {
    assert g * g < (g + 1) * (g + 1);
    FloorSqrtUnique(g * g, g);
  }

  /** 4 to the power k. */
  function Pow4(k: nat): (p: nat)
    ensures p >= 1
  {
    if k == 0 then 1 else 4 * Pow4(k - 1)
  }

  /** A power of four above 1 is four times the next lower one. */
  lemma Pow4Quarter(k: nat)
    requires Pow4(k) > 1
    ensures k >= 1 && Pow4(k) == 4 * Pow4(k - 1) && Pow4(k) / 4 == Pow4(k - 1)
  {
  }

  /** The initial `bit` of the source's loop, 1 << 30, is 4 to the 15th. */
  lemma Pow4Fifteen()
    ensures Pow4(15) == 0x4000_0000
  {
    assert Pow4(5) == 1024;
    assert Pow4(10) == 1024 * 1024 by {
      assert Pow4(10) == 1024 * Pow4(5);
    }
    assert Pow4(15) == 1024 * Pow4(10);
  }

  /** The relation the digit loop of `Isqrt` keeps, with p the root found so far. */
  ghost predicate DigitState(n0: nat, p: nat, scale: nat, root: int, n: int)
  {
    root == p * scale && 0 <= n == n0 - p * p * scale && n0 < (p + 1) * (p + 1) * scale
  }

  /**
   * One digit of the digit-by-digit square root.  With `bit` the current
   * power of four and p the root found so far for the digits above it, the
   * step decides the next binary digit of the root; the new `n` and `root`
   * are in the same relation to p2, the root of the digits down to `bit`.
   */
  lemma IsqrtDigit(n0: nat, p: nat, bit: nat, n: int, root: int) returns (p2: nat)
    requires bit >= 1 && DigitState(n0, p, 4 * bit, root, n)
    ensures n >= root + bit ==> DigitState(n0, p2, bit, (root + 2 * bit) / 2, n - (root + bit))
    ensures n < root + bit ==> DigitState(n0, p2, bit, root / 2, n)
  {
    ScaledSquares(p, bit);
    OddDigit(p, bit);
    EvenDigit(p, bit);
    p2 := if n >= root + bit then 2 * p + 1 else 2 * p;
  }

  /** The digit relation at scale 4 * bit, in terms of p * p * bit and p * bit. */
  lemma ScaledSquares(p: int, bit: int)
    ensures p * (4 * bit) == 4 * (p * bit)
    ensures p * p * (4 * bit) == 4 * (p * p * bit)
    ensures (p + 1) * (p + 1) * (4 * bit) == 4 * (p * p * bit) + 8 * (p * bit) + 4 * bit
  {
  }

  /** The digit relation for the root 2 * p + 1 at scale bit. */
  lemma OddDigit(p: int, bit: int)
    ensures (2 * p + 1) * bit == 2 * (p * bit) + bit
    ensures (2 * p + 1) * (2 * p + 1) * bit == 4 * (p * p * bit) + 4 * (p * bit) + bit
    ensures (2 * p + 1 + 1) * (2 * p + 1 + 1) * bit == 4 * (p * p * bit) + 8 * (p * bit) + 4 * bit
  {
  }

  /** The digit relation for the root 2 * p at scale bit. */
  lemma EvenDigit(p: int, bit: int)
    ensures (2 * p) * bit == 2 * (p * bit)
    ensures (2 * p) * (2 * p) * bit == 4 * (p * p * bit)
    ensures (2 * p + 1) * (2 * p + 1) * bit == 4 * (p * p * bit) + 4 * (p * bit) + bit
  {
  }

  /**
   * The source's `isqrt` on a 32-bit unsigned input: find the largest power
   * of four not above n, then fix one binary digit of the root per step.
   */
  method Isqrt(n0: nat) returns (root: nat)
    requires n0 < 0x1_0000_0000
    ensures root * root <= n0 < (root + 1) * (root + 1)
    ensures root == FloorSqrt(n0)
  {
    if n0 == 0 {
      return 0;
    }
    var n: int := n0;
    root := 0;
    var bit: nat := 0x4000_0000;
    ghost var k: nat := 15;
    Pow4Fifteen();

    while bit > n
      invariant bit == Pow4(k)
      invariant n == n0 && n0 < 4 * bit
    {
      Pow4Quarter(k);
      bit := bit / 4;
      k := k - 1;
    }

    ghost var p: nat := 0;
    ghost var scale: nat := 4 * bit;
    k := k + 1;
    while bit != 0
      invariant scale == Pow4(k) && bit == scale / 4
      invariant DigitState(n0, p, scale, root, n)
      decreases scale
    {
      p := IsqrtStep(n0, p, k, scale, bit, root, n);
      scale := bit;
      if n >= root + bit {
        n := n - (root + bit);
        root := root + 2 * bit;
      }
      root := root / 2;
      bit := bit / 4;
      k := k - 1;
    }
    IsqrtDone(n0, p, k, scale, root, n);
    FloorSqrtUnique(n0, root);
  }

  /**
   * One iteration of the digit loop of `Isqrt` keeps its invariant: the
   * next lower power of four is `bit`, and the updated `n` and `root` are
   * in the digit relation with the root p2 found down to `bit`.
   */
  lemma IsqrtStep(n0: nat, p: nat, k: nat, scale: nat, bit: nat, root: int, n: int) returns (p2: nat)
    requires scale == Pow4(k) && bit == scale / 4 && bit != 0
    requires DigitState(n0, p, scale, root, n)
    ensures k >= 1 && bit == Pow4(k - 1)
    ensures var fits := n >= root + bit;
      DigitState(n0, p2, bit,
                 (if fits then root + 2 * bit else root) / 2,
                 if fits then n - (root + bit) else n)
  {
    Pow4Quarter(k);
    assert scale == 4 * bit;
    p2 := IsqrtDigit(n0, p, bit, n, root);
  }

  /** When the digit loop of `Isqrt` stops, the root found is the floor square root. */
  lemma IsqrtDone(n0: nat, p: nat, k: nat, scale: nat, root: int, n: int)
    requires scale == Pow4(k) && scale / 4 == 0
    requires DigitState(n0, p, scale, root, n)
    ensures root == p && p * p <= n0 < (p + 1) * (p + 1)
  {
    Pow4Last(k);
    DigitStateOne(n0, p, root, n);
  }

  /** At scale 1 the digit relation says that p is the floor root and `root` holds it. */
  lemma DigitStateOne(n0: nat, p: nat, root: int, n: int)
    requires DigitState(n0, p, 1, root, n)
    ensures root == p && p * p <= n0 < (p + 1) * (p + 1)
  {
  }

  /** The only power of four that integer division by 4 sends to 0 is 1. */
  lemma Pow4Last(k: nat)
    requires Pow4(k) / 4 == 0
    ensures Pow4(k) == 1
  {
    Pow4Unfold(k);
  }

  /** One step of the definition of the powers of four. */
  lemma Pow4Unfold(k: nat)
    ensures k > 0 ==> Pow4(k) == 4 * Pow4(k - 1)
  {
  }
}
