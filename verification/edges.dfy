/**
  Edge buckets of the scanline polygon fill (slpfa.cpp, createEdges).

  A polygon is given as parallel coordinate sequences; edge i joins vertex
  i-1 to vertex i, and edge 0 joins the last vertex to the first. Every edge
  that is not horizontal becomes one bucket.
 */
module Edges {
  import opened Wrappers

  datatype Vertex = Vertex(x: int, y: int)

  /**
    An edge bucket, with its fields in the order of the source's initializer:
    the scanline just past the edge, the first scanline of the edge, the
    current x, the direction of x as y grows, |Δx|, |Δy| and the error sum.
   */
  datatype Bucket = Bucket(yMax: int, yMin: int, x: int, sign: int, dX: int, dY: int, sum: int)

  function Abs(n: int): nat { if n < 0 then -n else n }

  function Min(a: int, b: int): int { if a < b then a else b }

  function Max(a: int, b: int): int { if a > b then a else b }

  /** A bucket as createEdges builds it. */
  predicate Fresh(b: Bucket) {
    && b.yMin < b.yMax
    && b.dY == b.yMax - b.yMin
    && b.dX >= 0
    && b.sum == 0
    && (b.sign == 1 || b.sign == -1)
  }

  /** The edge is active on scanline s: the half-open range [yMin, yMax). */
  predicate Crosses(b: Bucket, s: int) {
    b.yMin <= s < b.yMax
  }

  /** The endpoint with the smaller y, and the other one. */
  function Lower(p: Vertex, q: Vertex): Vertex { if p.y < q.y then p else q }

  function Upper(p: Vertex, q: Vertex): Vertex { if p.y < q.y then q else p }

  /**
    The bucket of the edge from p to q (slpfa.cpp:63-94): the endpoints are
    put in left-to-right order first, and a horizontal edge gives no bucket.
    The bucket starts at the lower endpoint's x, and stepping it across all
    of its dY scanlines (x += sign per dY of accumulated dX) lands on the
    upper endpoint's x.
   */
  function EdgeBucket(p: Vertex, q: Vertex): (r: Option<Bucket>)
    ensures r.Some? <==> p.y != q.y
    ensures r.Some? ==> Fresh(r.value)
    ensures r.Some? ==> r.value.yMin == Min(p.y, q.y) && r.value.yMax == Max(p.y, q.y)
    ensures r.Some? ==> r.value.dX == Abs(q.x - p.x)
    ensures r.Some? ==> r.value.x == Lower(p, q).x
    ensures r.Some? ==> r.value.x + r.value.sign * r.value.dX == Upper(p, q).x
    ensures r.Some? && p.x == q.x ==> (r.value.sign == -1 <==> q.y < p.y)
  {
    var (v1, v2) := if q.x < p.x then (q, p) else (p, q);
    var yMax := if v1.y > v2.y then v1.y else v2.y;
    var yMin := if v1.y < v2.y then v1.y else v2.y;
    var initialX := if v1.y < v2.y then v1.x else v2.x;
    var sign := if v2.y - v1.y < 0 then -1 else 1;
    var dX := Abs(v2.x - v1.x);
    var dY := Abs(v2.y - v1.y);
    if dY != 0 then Some(Bucket(yMax, yMin, initialX, sign, dX, dY, 0)) else None
  }

  /** A bucket crosses scanline s exactly when its endpoints lie on opposite sides of s + 1/2. */
  lemma EdgeCrossesRow(p: Vertex, q: Vertex, s: int)
    requires p.y != q.y
    ensures Crosses(EdgeBucket(p, q).value, s) <==> ((p.y <= s) != (q.y <= s))
  {
  }

  /** The vertex before vertex i, cyclically. */
  function Prev(n: nat, i: nat): nat
    requires i < n
  {
    if i == 0 then n - 1 else i - 1
  }

  function VertexAt(xs: seq<int>, ys: seq<int>, i: nat): Vertex
    requires |xs| == |ys| && i < |xs|
  {
    Vertex(xs[i], ys[i])
  }

  function AsSeq(o: Option<Bucket>): seq<Bucket> {
    if o.Some? then [o.value] else []
  }

  /** The buckets of edges 0 .. k-1, in vertex order. */
  function EdgesUpTo(xs: seq<int>, ys: seq<int>, k: nat): seq<Bucket>
    requires |xs| == |ys| && k <= |xs|
  {
    if k == 0 then []
    else
      var n := |xs|;
      EdgesUpTo(xs, ys, k - 1) + AsSeq(EdgeBucket(VertexAt(xs, ys, Prev(n, k - 1)), VertexAt(xs, ys, k - 1)))
  }

  /** The edge table createEdges returns, before sorting. */
  function EdgeList(xs: seq<int>, ys: seq<int>): seq<Bucket>
    requires |xs| == |ys|
  {
    EdgesUpTo(xs, ys, |xs|)
  }

  /**
    createEdges (slpfa.cpp:47-98): visit the n edges in vertex order, the
    closing edge from the last vertex first, and keep a bucket for each
    edge that is not horizontal.
   */
  method CreateEdges(xs: seq<int>, ys: seq<int>) returns (edgeTable: seq<Bucket>)
    requires |xs| == |ys|
    ensures edgeTable == EdgeList(xs, ys)
    ensures |edgeTable| <= |xs|
    ensures forall b :: b in edgeTable ==> Fresh(b)
  {
    var n := |xs|;
    var startIndex := n - 1;
    edgeTable := [];
    for i := 0 to n
      invariant edgeTable == EdgesUpTo(xs, ys, i)
      invariant |edgeTable| <= i
      invariant forall b :: b in edgeTable ==> Fresh(b)
      invariant startIndex == if i == 0 then n - 1 else i - 1
    {
      var v1 := Vertex(xs[startIndex], ys[startIndex]);
      var v2 := Vertex(xs[i], ys[i]);
      var bucket := EdgeBucket(v1, v2);
      if bucket.Some? {
        edgeTable := edgeTable + [bucket.value];
      }
      startIndex := i;
    }
  }

  /** Number of buckets of a list that meet a condition. */
  function CountWhere(bs: seq<Bucket>, f: Bucket -> bool): nat {
    if bs == [] then 0
    else CountWhere(bs[..|bs| - 1], f) + (if f(bs[|bs| - 1]) then 1 else 0)
  }

  function CrossesRow(s: int): Bucket -> bool {
    b => Crosses(b, s)
  }

  /** Number of buckets of a list that cross scanline s. */
  function CrossCount(bs: seq<Bucket>, s: int): nat {
    CountWhere(bs, CrossesRow(s))
  }

  /** Whether vertex i lies on or below scanline s. */
  predicate Below(ys: seq<int>, s: int, i: nat)
    requires i < |ys|
  {
    ys[i] <= s
  }

  /** Side changes between consecutive vertices 0 .. k-1 (not wrapping round). */
  function Changes(ys: seq<int>, s: int, k: nat): nat
    requires 1 <= k <= |ys|
  {
    if k == 1 then 0
    else Changes(ys, s, k - 1) + (if Below(ys, s, k - 2) != Below(ys, s, k - 1) then 1 else 0)
  }

  /** Along a chain, the number of side changes is odd exactly when its ends lie on different sides. */
  lemma {:induction false} ChangesParity(ys: seq<int>, s: int, k: nat)
    requires 1 <= k <= |ys|
    ensures Changes(ys, s, k) % 2 == if Below(ys, s, 0) != Below(ys, s, k - 1) then 1 else 0
  {
    if k > 1 {
      ChangesParity(ys, s, k - 1);
    }
  }

  /** The buckets of the first k edges that cross s are the closing edge's change plus the chain's. */
  lemma {:induction false} CrossCountUpTo(xs: seq<int>, ys: seq<int>, s: int, k: nat)
    requires |xs| == |ys| && 1 <= k <= |xs|
    ensures CrossCount(EdgesUpTo(xs, ys, k), s)
         == (if Below(ys, s, |ys| - 1) != Below(ys, s, 0) then 1 else 0) + Changes(ys, s, k)
  {
    var n := |xs|;
    var prefix := EdgesUpTo(xs, ys, k - 1);
    var p, q := VertexAt(xs, ys, Prev(n, k - 1)), VertexAt(xs, ys, k - 1);
    var step := if Below(ys, s, Prev(n, k - 1)) != Below(ys, s, k - 1) then 1 else 0;
    assert CrossCount(EdgesUpTo(xs, ys, k), s) == CrossCount(prefix, s) + step by {
      if p.y != q.y {
        EdgeCrossesRow(p, q, s);
        CountOne(prefix, EdgeBucket(p, q).value, CrossesRow(s));
      } else {
        assert prefix + [] == prefix;
      }
    }
    if k > 1 {
      CrossCountUpTo(xs, ys, s, k - 1);
    }
  }

  /** Counting over one more bucket. */
  lemma CountOne(bs: seq<Bucket>, b: Bucket, f: Bucket -> bool)
    ensures CountWhere(bs + [b], f) == CountWhere(bs, f) + if f(b) then 1 else 0
  {
    assert (bs + [b])[..|bs|] == bs;
  }

  /**
    Every scanline crosses an even number of buckets of a closed polygon:
    going round the polygon, each crossing edge changes side of the
    scanline, and a closed tour ends on the side it began.
   */
  lemma EvenCrossings(xs: seq<int>, ys: seq<int>, s: int)
    requires |xs| == |ys|
    ensures CrossCount(EdgeList(xs, ys), s) % 2 == 0
  {
    if |xs| > 0 {
      CrossCountUpTo(xs, ys, s, |xs|);
      ChangesParity(ys, s, |xs|);
    }
  }

  /** Without any bucket among the first k edges, vertices 0 .. k-1 all share the last vertex's y. */
  lemma {:induction false} NoBucketsFlat(xs: seq<int>, ys: seq<int>, k: nat)
    requires |xs| == |ys| && k <= |xs|
    requires EdgesUpTo(xs, ys, k) == []
    ensures forall i :: 0 <= i < k ==> ys[i] == ys[|ys| - 1]
  {
    if k > 0 {
      NoBucketStep(xs, ys, k);
      NoBucketsFlat(xs, ys, k - 1);
      assert ys[k - 1] == ys[|ys| - 1] by {
        if k > 1 {
          assert ys[k - 1] == ys[k - 2];
        }
      }
    }
  }

  /** Without a bucket for edge k-1, its two vertices share one y. */
  lemma NoBucketStep(xs: seq<int>, ys: seq<int>, k: nat)
    requires |xs| == |ys| && 0 < k <= |xs|
    requires EdgesUpTo(xs, ys, k) == []
    ensures EdgesUpTo(xs, ys, k - 1) == [] && ys[Prev(|xs|, k - 1)] == ys[k - 1]
  {
    var p, q := VertexAt(xs, ys, Prev(|xs|, k - 1)), VertexAt(xs, ys, k - 1);
    assert EdgesUpTo(xs, ys, k) == EdgesUpTo(xs, ys, k - 1) + AsSeq(EdgeBucket(p, q));
  }

  /** A polygon whose vertices do not all share one y has at least one bucket. */
  lemma EdgeListNonEmpty(xs: seq<int>, ys: seq<int>)
    requires |xs| == |ys|
    requires exists i, j :: 0 <= i < |ys| && 0 <= j < |ys| && ys[i] != ys[j]
    ensures EdgeList(xs, ys) != []
  {
    var i, j :| 0 <= i < |ys| && 0 <= j < |ys| && ys[i] != ys[j];
    if EdgeList(xs, ys) == [] {
      NoBucketsFlat(xs, ys, |xs|);
      assert false;
    }
  }
}
