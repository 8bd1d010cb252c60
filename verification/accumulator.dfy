/**
  The integer error accumulator that moves an active edge's x from one
  scanline to the next (slpfa.cpp:153-164): sum gathers dX per scanline,
  and every dY of it moves x one pixel in the edge's direction.
 */
module Accumulator {
  import opened Edges

  /** What the stepping loop needs to terminate and to have a closed form. */
  predicate Steppable(b: Bucket) {
    b.dY >= 1 && b.dX >= 0 && b.sum >= 0
  }

  /** Only x and sum may differ. */
  predicate SameEdge(b: Bucket, c: Bucket) {
    c == b.(x := c.x, sum := c.sum)
  }

  /** A positive multiple of d is at least d. */
  lemma {:induction false} MulAtLeast(m: int, d: int)
    requires m >= 1 && d >= 0
    ensures m * d >= d
    decreases m
  {
    if m > 1 {
      MulAtLeast(m - 1, d);
      assert m * d == (m - 1) * d + d;
    }
  }

  /** Division with a remainder in [0, d) has a unique quotient and remainder. */
  lemma DivModUnique(n: int, d: int, q: int, r: int)
    requires d >= 1 && 0 <= r < d && n == q * d + r
    ensures n / d == q && n % d == r
  {
    var q', r' := n / d, n % d;
    assert n == q' * d + r' && 0 <= r' < d;
    assert (q - q') * d == r' - r;
    if q' < q {
      MulAtLeast(q - q', d);
    } else if q' > q {
      MulAtLeast(q' - q, d);
    }
  }

  /**
    The advance of one active edge by one scanline, in closed form: x moves
    by sign times the number of whole dY in sum + dX, and sum keeps the
    remainder. An edge with dX == 0 is left alone.
   */
  function Advance(b: Bucket): (r: Bucket)
    requires Steppable(b)
    ensures Steppable(r) && SameEdge(b, r)
    ensures b.sum < b.dY ==> r.sum < r.dY
    ensures b.dX == 0 ==> r == b
  {
    if b.dX == 0 then b
    else b.(x := b.x + b.sign * ((b.sum + b.dX) / b.dY), sum := (b.sum + b.dX) % b.dY)
  }

  /** The stepping loop of slpfa.cpp:156-163 for one edge. */
  method StepEdge(edge: Bucket) returns (stepped: Bucket)
    requires Steppable(edge)
    ensures stepped == Advance(edge)
  {
    stepped := edge;
    if stepped.dX != 0 {
      stepped := stepped.(sum := stepped.sum + stepped.dX);
      ghost var steps := 0;
      while stepped.sum >= stepped.dY
        invariant SameEdge(edge, stepped) && 0 <= stepped.sum && 0 <= steps
        invariant stepped.x == edge.x + edge.sign * steps
        invariant steps * edge.dY + stepped.sum == edge.sum + edge.dX
        decreases stepped.sum
      {
        stepped := stepped.(x := stepped.x + stepped.sign);
        stepped := stepped.(sum := stepped.sum - stepped.dY);
        steps := steps + 1;
      }
      DivModUnique(edge.sum + edge.dX, edge.dY, steps, stepped.sum);
    }
  }

  /** The edge after k scanlines of advancing. */
  function AdvanceTimes(b: Bucket, k: nat): (r: Bucket)
    requires Steppable(b)
    ensures Steppable(r) && SameEdge(b, r)
  {
    if k == 0 then b else Advance(AdvanceTimes(b, k - 1))
  }

  /** Adding a to n carries the whole multiples of d out of n's remainder. */
  lemma DivStep(n: int, a: int, d: int)
    requires d >= 1
    ensures (n + a) / d == n / d + (n % d + a) / d
    ensures (n + a) % d == (n % d + a) % d
  {
    var q, r := n / d, n % d;
    var t, u := (r + a) / d, (r + a) % d;
    assert n + a == (q + t) * d + u;
    DivModUnique(n + a, d, q + t, u);
  }

  /**
    No drift: after k advances of a fresh edge, x is its start plus sign
    times floor(k * dX / dY) and sum is the remainder, which stays in [0, dY).
   */
  lemma {:induction false} AccumulatorClosedForm(b: Bucket, k: nat)
    requires Steppable(b) && b.sum == 0
    ensures AdvanceTimes(b, k).x == b.x + b.sign * ((k * b.dX) / b.dY)
    ensures AdvanceTimes(b, k).sum == (k * b.dX) % b.dY
    ensures 0 <= AdvanceTimes(b, k).sum < b.dY
  {
    if k == 0 {
      DivModUnique(0, b.dY, 0, 0);
    } else {
      AccumulatorClosedForm(b, k - 1);
      assert k * b.dX == (k - 1) * b.dX + b.dX;
      ClosedFormStep(b, AdvanceTimes(b, k - 1), (k - 1) * b.dX);
    }
  }

  /** One more advance keeps the closed form, with dX more gathered. */
  lemma ClosedFormStep(b: Bucket, prev: Bucket, n: int)
    requires Steppable(b) && Steppable(prev) && SameEdge(b, prev)
    requires prev.x == b.x + b.sign * (n / b.dY) && prev.sum == n % b.dY
    ensures Advance(prev).x == b.x + b.sign * ((n + b.dX) / b.dY)
    ensures Advance(prev).sum == (n + b.dX) % b.dY
  {
    if b.dX == 0 {
      assert n + b.dX == n;
    } else {
      DivStep(n, b.dX, b.dY);
      var t := (n % b.dY + b.dX) / b.dY;
      assert b.sign * (n / b.dY) + b.sign * t == b.sign * (n / b.dY + t);
    }
  }

  /**
    Where an edge meets scanline s, as the accumulator tracks it: the lower
    end's x plus sign times the offset (s - yMin) * dX / dY rounded down.
    The offset is rounded toward the lower end's x, so a right-leaning edge
    meets the scanline at its true intersection rounded down and a
    left-leaning one at it rounded up.
   */
  function CrossingX(b: Bucket, s: int): int
    requires b.dY >= 1 && s >= b.yMin
  {
    b.x + b.sign * (((s - b.yMin) * b.dX) / b.dY)
  }

  /** An edge admitted at yMin and advanced once per scanline is at CrossingX on scanline s. */
  lemma AdvancedToRow(b: Bucket, s: int)
    requires Steppable(b) && b.sum == 0 && s >= b.yMin
    ensures AdvanceTimes(b, s - b.yMin).x == CrossingX(b, s)
  {
    AccumulatorClosedForm(b, s - b.yMin);
  }

  /**
    Advancing a bucket of createEdges across its dY scanlines brings x to
    the upper endpoint exactly.
   */
  lemma ReachesUpperEndpoint(p: Vertex, q: Vertex)
    requires p.y != q.y
    ensures AdvanceTimes(EdgeBucket(p, q).value, EdgeBucket(p, q).value.dY).x == Upper(p, q).x
  {
    var b := EdgeBucket(p, q).value;
    AccumulatorClosedForm(b, b.dY);
    DivModUnique(b.dY * b.dX, b.dY, b.dX, 0);
  }
}
