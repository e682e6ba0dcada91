/*
 * The specification of one physics frame (`physics_frame`) on the sequence
 * of balls: each ball in index order moves, is contained by the screen and
 * is then resolved against every other ball in index order, with every
 * change visible to the steps after it.
 */
module Frames {
  import opened FixedPoint
  import opened Balls
  import opened Collisions

  /** Every ball satisfies the per-ball invariant. */
  predicate AllWellFormed(s: seq<Ball>)
  {
    forall k :: 0 <= k < |s| ==> WellFormed(s[k])
  }

  /** t holds the same bodies as s, in the same order; only positions and velocities differ. */
  predicate SameBodies(s: seq<Ball>, t: seq<Ball>)
  {
    |s| == |t| && forall k :: 0 <= k < |s| ==> SameBody(s[k], t[k])
  }

  /** `resolve_collision(&balls[i], &balls[j])`: only balls i and j change. */
  function ResolvePair(s: seq<Ball>, i: nat, j: nat): (r: seq<Ball>)
    requires i < |s| && j < |s| && i != j && s[i].mass > 0 && s[j].mass > 0
    ensures SameBodies(s, r)
    ensures forall k :: 0 <= k < |s| && k != i && k != j ==> r[k] == s[k]
  {
    var c := Collide(s[i], s[j]);
    s[i := c.0][j := c.1]
  }

  /**
   * The inner loop of the frame for ball i, after its first j iterations:
   * ball i has been resolved against every ball k < j except itself, in
   * increasing k.
   */
  function Sweep(s: seq<Ball>, i: nat, j: nat): (r: seq<Ball>)
    requires i < |s| && j <= |s| && AllWellFormed(s)
    ensures SameBodies(s, r) && AllWellFormed(r)
    decreases j
  {
    if j == 0 then s
    else
      var t := Sweep(s, i, j - 1);
      if j - 1 == i then t else ResolvePair(t, i, j - 1)
  }

  /** Resolving ball i against the balls below j leaves every later ball other than i untouched. */
  lemma {:induction false} SweepLeavesLater(s: seq<Ball>, i: nat, j: nat, k: nat)
    requires i < |s| && j <= k < |s| && k != i && AllWellFormed(s)
    ensures Sweep(s, i, j)[k] == s[k]
    decreases j
  {
    if j > 0 {
      SweepLeavesLater(s, i, j - 1, k);
    }
  }

  /** The part of one iteration of the outer loop that concerns ball i alone. */
  function MoveAndContain(b: Ball, shape: Shape, width: int, height: int, ax: int, ay: int): (r: Ball)
    requires WellFormed(b)
    ensures SameBody(b, r)
  {
    Contain(Move(b, ax, ay), shape, width, height)
  }

  /** One iteration of the outer loop: move and contain ball i, then resolve it against all others. */
  function StepBall(s: seq<Ball>, i: nat, shape: Shape, width: int, height: int, ax: int, ay: int): (r: seq<Ball>)
    requires i < |s| && AllWellFormed(s)
    ensures SameBodies(s, r) && AllWellFormed(r)
  {
    var t := s[i := MoveAndContain(s[i], shape, width, height, ax, ay)];
    assert SameBodies(s, t);
    Sweep(t, i, |s|)
  }

  /** The frame after its first n iterations of the outer loop. */
  function FrameUpTo(s: seq<Ball>, n: nat, shape: Shape, width: int, height: int, ax: int, ay: int): (r: seq<Ball>)
    requires n <= |s| && AllWellFormed(s)
    ensures SameBodies(s, r) && AllWellFormed(r)
  {
    if n == 0 then s
    else StepBall(FrameUpTo(s, n - 1, shape, width, height, ax, ay), n - 1, shape, width, height, ax, ay)
  }

  /**
   * One frame: every ball in index order.  A frame never changes the number
   * of balls nor any ball's radius, mass, restitution, friction or colour,
   * so the per-ball invariant holds from frame to frame.
   */
  function Frame(s: seq<Ball>, shape: Shape, width: int, height: int, ax: int, ay: int): (r: seq<Ball>)
    requires AllWellFormed(s)
    ensures SameBodies(s, r) && AllWellFormed(r)
  {
    FrameUpTo(s, |s|, shape, width, height, ax, ay)
  }

  /**
   * Successive frames, one per acceleration sample (x, y), in order: each
   * frame uses the sample the accelerometer last delivered before it.
   */
  function Frames(s: seq<Ball>, samples: seq<(int, int)>, shape: Shape, width: int, height: int): (r: seq<Ball>)
    requires AllWellFormed(s)
    ensures SameBodies(s, r) && AllWellFormed(r)
    decreases |samples|
  {
    if |samples| == 0 then s
    else
      var last := samples[|samples| - 1];
      Frame(Frames(s, samples[..|samples| - 1], shape, width, height), shape, width, height, last.0, last.1)
  }

  /** n samples of zero acceleration. */
  function AtRest(n: nat): (samples: seq<(int, int)>)
    ensures |samples| == n && forall k :: 0 <= k < n ==> samples[k] == (0, 0)
  {
    seq(n, _ => (0, 0))
  }

  /**
   * A single ball without friction loss and without acceleration, that does
   * not reach any edge of the rectangular screen during the frame, moves by
   * exactly its velocity.
   */
  lemma LoneBallFrame(b: Ball, width: int, height: int)
    requires WellFormed(b) && b.friction == 100
    requires b.radius <= b.x + b.vx <= width - b.radius
    requires b.radius <= b.y + b.vy <= height - b.radius
    ensures Frame([b], Rect, width, height, 0, 0) == [Advance(b)]
  {
    MoveDamps(b, 0, 0);
    assert Move(b, 0, 0) == Advance(b);
    assert ContainRect(Advance(b), width, height) == Advance(b);
    assert MoveAndContain(b, Rect, width, height, 0, 0) == Advance(b);
    var t := [Advance(b)];
    assert [b][0 := Advance(b)] == t;
    assert Sweep(t, 0, 1) == Sweep(t, 0, 0) == t;
    assert FrameUpTo([b], 0, Rect, width, height, 0, 0) == [b];
    assert Frame([b], Rect, width, height, 0, 0) == StepBall([b], 0, Rect, width, height, 0, 0);
  }

  /**
   * The same ball over n frames without acceleration: as long as its
   * straight path stays clear of the edges, after n frames it has moved by
   * n times its velocity.
   */
  lemma {:induction false} LoneBallFrames(b: Ball, n: nat, width: int, height: int)
    requires WellFormed(b) && b.friction == 100
    requires b.radius <= b.x <= width - b.radius && b.radius <= b.x + n * b.vx <= width - b.radius
    requires b.radius <= b.y <= height - b.radius && b.radius <= b.y + n * b.vy <= height - b.radius
    ensures Frames([b], AtRest(n), Rect, width, height) == [b.(x := b.x + n * b.vx, y := b.y + n * b.vy)]
  {
    if n > 0 {
      var c := LoneBallStep(b, n, width, height);
      assert AtRest(n)[..n - 1] == AtRest(n - 1);
      LoneBallFrames(b, n - 1, width, height);
      LoneBallFrame(c, width, height);
    }
  }

  /**
   * The arithmetic of one step of `LoneBallFrames`: the ball c after n - 1
   * frames is on the straight path, and one more move ends at frame n.
   */
  lemma LoneBallStep(b: Ball, n: nat, width: int, height: int) returns (c: Ball)
    requires n > 0 && WellFormed(b)
    requires b.radius <= b.x <= width - b.radius && b.radius <= b.x + n * b.vx <= width - b.radius
    requires b.radius <= b.y <= height - b.radius && b.radius <= b.y + n * b.vy <= height - b.radius
    ensures c == b.(x := b.x + (n - 1) * b.vx, y := b.y + (n - 1) * b.vy)
    ensures WellFormed(c) && c.friction == b.friction
    ensures b.radius <= c.x <= width - b.radius && b.radius <= c.y <= height - b.radius
    ensures c.radius <= c.x + c.vx <= width - c.radius && c.radius <= c.y + c.vy <= height - c.radius
    ensures Advance(c) == b.(x := b.x + n * b.vx, y := b.y + n * b.vy)
  {
    var m := n - 1;
    Between(b.x, b.vx, m, n);
    Between(b.y, b.vy, m, n);
    c := b.(x := b.x + m * b.vx, y := b.y + m * b.vy);
  }

  /**
   * After m of n equal steps of size v from p one is between p and the end
   * p + n * v, and one more step gives p + (m + 1) * v.
   */
  lemma Between(p: int, v: int, m: nat, n: nat)
    requires m < n
    ensures p + m * v <= p || p + m * v <= p + n * v
    ensures p <= p + m * v || p + n * v <= p + m * v
    ensures p + m * v + v == p + (m + 1) * v
  {
    if v >= 0 {
      MulLe(m, n, v);
    } else {
      MulLe(m, n, -v);
    }
  }
}
