/**
  drawPolygon (slpfa.cpp:178-187): build the edge buckets, sort them by
  yMin and scan-convert them. The result is stated over the polygon's own
  edge list: a pixel is set exactly when an odd number of its non-horizontal
  edges cross its scanline at or left of it.
 */
module Polygon {
  import opened Wrappers
  import opened IndexLists
  import opened Edges
  import opened EdgeOrder
  import opened Accumulator
  import opened ScanFill

  /** The arena indices 0 .. n-1, in the order createEdges produced the buckets. */
  function Range(n: nat): (r: seq<nat>)
    ensures |r| == n && forall k :: 0 <= k < n ==> r[k] == k
  {
    seq(n, k => k)
  }

  lemma {:induction false} RangeDistinct(n: nat)
    ensures Distinct(Range(n))
  {
    if n > 0 {
      RangeDistinct(n - 1);
      assert Range(n) == Range(n - 1) + [n - 1];
      assert n - 1 !in Range(n - 1);
    }
  }

  /** Filtering the arena indices counts the buckets themselves. */
  lemma {:induction false} RangeCount(bs: seq<Bucket>, f: Bucket -> bool, p: nat -> bool, m: nat)
    requires m <= |bs|
    requires forall i: nat :: p(i) == (i < |bs| && f(bs[i]))
    ensures |Filter(Range(m), p)| == CountWhere(bs[..m], f)
  {
    if m > 0 {
      RangeCount(bs, f, p, m - 1);
      assert Range(m)[..m - 1] == Range(m - 1);
      assert bs[..m][..m - 1] == bs[..m - 1];
    }
  }

  /** The edges meeting scanline y at or left of column x. */
  function MeetsRow(y: int, x: int): Bucket -> bool {
    b => Crosses(b, y) && b.dY >= 1 && CrossingX(b, y) <= x
  }

  /** The even-odd rule over the polygon's edges. */
  predicate PolygonInside(xs: seq<int>, ys: seq<int>, p: Pixel)
    requires |xs| == |ys|
  {
    CountWhere(EdgeList(xs, ys), MeetsRow(p.y, p.x)) % 2 == 1
  }

  /** What processEdgeTable needs of the sorted edge table of a polygon. */
  lemma SortedTableReady(bs: seq<Bucket>, et: seq<nat>, xs: seq<int>, ys: seq<int>)
    requires |xs| == |ys| && bs == EdgeList(xs, ys) && bs != []
    requires forall b :: b in bs ==> Fresh(b)
    requires Arena(bs, et) && Sorted(bs, et, ByMinY) && multiset(et) == multiset(Range(|bs|))
    ensures et != [] && FreshTable(bs, et) && Distinct(et)
    ensures forall k :: 0 <= k < |et| ==> bs[et[0]].yMin <= bs[et[k]].yMin
    ensures EvenTable(bs, et)
    ensures forall p: Pixel :: Inside(bs, et, p) <==> PolygonInside(xs, ys, p)
  {
    assert |et| == |multiset(Range(|bs|))| == |bs|;
    forall k | 0 <= k < |et| ensures Fresh(bs[et[k]]) {
      assert bs[et[k]] in bs;
    }
    RangeDistinct(|bs|);
    assert Distinct(et);
    SortedByMinYIncreasing(bs, et);
    forall s ensures |Filter(et, ActiveOn(bs, s))| % 2 == 0 {
      CountPermutation(et, Range(|bs|), ActiveOn(bs, s));
      RangeCount(bs, CrossesRow(s), ActiveOn(bs, s), |bs|);
      assert bs[..|bs|] == bs;
      EvenCrossings(xs, ys, s);
    }
    forall p: Pixel ensures Inside(bs, et, p) <==> PolygonInside(xs, ys, p) {
      CountPermutation(et, Range(|bs|), InsideAt(bs, p.y, p.x));
      RangeCount(bs, MeetsRow(p.y, p.x), InsideAt(bs, p.y, p.x), |bs|);
      assert bs[..|bs|] == bs;
    }
  }

  /**
    drawPolygon (slpfa.cpp:178-187). A polygon whose vertices all share one
    y has no buckets, and processEdgeTable would read the front of an empty
    table; every other polygon is filled by the even-odd rule, each pixel
    once, scanline by scanline and left to right.
   */
  method DrawPolygon(xs: seq<int>, ys: seq<int>) returns (pixels: seq<Pixel>)
    requires |xs| == |ys|
    requires exists i, j :: 0 <= i < |ys| && 0 <= j < |ys| && ys[i] != ys[j]
    ensures forall p :: p in pixels <==> PolygonInside(xs, ys, p)
    ensures Increasing(pixels)
  {
    var edges := CreateEdges(xs, ys);
    EdgeListNonEmpty(xs, ys);
    var buckets := new Bucket[|edges|](k requires 0 <= k < |edges| => edges[k]);
    assert buckets[..] == edges;
    forall k | 0 <= k < |edges| ensures edges[k].dY != 0 {
      assert edges[k] in edges;
    }
    var finalEdgeTable := SortBy(buckets[..], Range(|edges|), ByMinY);
    SortedTableReady(edges, finalEdgeTable, xs, ys);
    ghost var passes: int;
    pixels, passes := ProcessEdgeTable(buckets, finalEdgeTable);
  }

  /** The 4 x 4 square with corners (0, 0) and (4, 4) fills columns 0 .. 3 of scanlines 0 .. 3. */
  lemma SquareFill(p: Pixel)
    ensures PolygonInside([0, 4, 4, 0], [0, 0, 4, 4], p) <==> 0 <= p.x < 4 && 0 <= p.y < 4
  {
    var left, right := Bucket(4, 0, 0, -1, 0, 4, 0), Bucket(4, 0, 4, 1, 0, 4, 0);
    SquareEdges();
    CountTwo(left, right, MeetsRow(p.y, p.x));
    MeetsVertical(left, p);
    MeetsVertical(right, p);
  }

  lemma CountTwo(a: Bucket, b: Bucket, f: Bucket -> bool)
    ensures CountWhere([a, b], f) == (if f(a) then 1 else 0) + (if f(b) then 1 else 0)
  {
    assert [a, b][..1] == [a];
    assert CountWhere([a], f) == if f(a) then 1 else 0 by {
      assert [a][..0] == [];
    }
  }

  /** A vertical edge meets the scanlines it crosses at its own x. */
  lemma MeetsVertical(b: Bucket, p: Pixel)
    requires b.dX == 0 && b.dY >= 1
    ensures MeetsRow(p.y, p.x)(b) <==> Crosses(b, p.y) && b.x <= p.x
  {
    if Crosses(b, p.y) {
      assert (p.y - b.yMin) * b.dX == 0;
    }
  }

  /** The square's buckets: its two vertical sides; the horizontal ones give none. */
  lemma SquareEdges()
    ensures EdgeList([0, 4, 4, 0], [0, 0, 4, 4]) == [Bucket(4, 0, 0, -1, 0, 4, 0), Bucket(4, 0, 4, 1, 0, 4, 0)]
  {
    var left, right := Bucket(4, 0, 0, -1, 0, 4, 0), Bucket(4, 0, 4, 1, 0, 4, 0);
    EdgeListOfFour([0, 4, 4, 0], [0, 0, 4, 4]);
    assert EdgeBucket(Vertex(0, 4), Vertex(0, 0)) == Some(left);
    assert EdgeBucket(Vertex(0, 0), Vertex(4, 0)) == None;
    assert EdgeBucket(Vertex(4, 0), Vertex(4, 4)) == Some(right);
    assert EdgeBucket(Vertex(4, 4), Vertex(0, 4)) == None;
  }

  /** The edges of a quadrilateral: the closing edge first, then the others in vertex order. */
  lemma EdgeListOfFour(xs: seq<int>, ys: seq<int>)
    requires |xs| == |ys| == 4
    ensures var v := (i: nat) requires i < 4 => Vertex(xs[i], ys[i]);
      EdgeList(xs, ys) == AsSeq(EdgeBucket(v(3), v(0))) + AsSeq(EdgeBucket(v(0), v(1)))
                          + AsSeq(EdgeBucket(v(1), v(2))) + AsSeq(EdgeBucket(v(2), v(3)))
  {
    assert EdgesUpTo(xs, ys, 4) == EdgesUpTo(xs, ys, 3) + AsSeq(EdgeBucket(Vertex(xs[2], ys[2]), Vertex(xs[3], ys[3])));
    assert EdgesUpTo(xs, ys, 3) == EdgesUpTo(xs, ys, 2) + AsSeq(EdgeBucket(Vertex(xs[1], ys[1]), Vertex(xs[2], ys[2])));
    assert EdgesUpTo(xs, ys, 2) == EdgesUpTo(xs, ys, 1) + AsSeq(EdgeBucket(Vertex(xs[0], ys[0]), Vertex(xs[1], ys[1])));
    assert EdgesUpTo(xs, ys, 1) == AsSeq(EdgeBucket(Vertex(xs[3], ys[3]), Vertex(xs[0], ys[0])));
  }

  /** The right triangle (0, 0), (4, 0), (0, 4) fills rows of width 4, 3, 2, 1 from column 0. */
  lemma TriangleFill(p: Pixel)
    ensures PolygonInside([0, 4, 0], [0, 0, 4], p) <==> 0 <= p.y < 4 && 0 <= p.x < 4 - p.y
  {
    var left, slant := Bucket(4, 0, 0, -1, 0, 4, 0), Bucket(4, 0, 4, -1, 4, 4, 0);
    TriangleEdges();
    var f := MeetsRow(p.y, p.x);
    CountTwo(left, slant, f);
    MeetsVertical(left, p);
    if 0 <= p.y {
      SlantX(p.y);
    }
    assert f(slant) <==> 0 <= p.y < 4 && 4 - p.y <= p.x;
  }

  lemma SlantX(y: int)
    requires 0 <= y
    ensures CrossingX(Bucket(4, 0, 4, -1, 4, 4, 0), y) == 4 - y
  {
    DivModUnique((y - 0) * 4, 4, y, 0);
  }

  /** The triangle's buckets: the vertical side and the slanted one; the base gives none. */
  lemma TriangleEdges()
    ensures EdgeList([0, 4, 0], [0, 0, 4]) == [Bucket(4, 0, 0, -1, 0, 4, 0), Bucket(4, 0, 4, -1, 4, 4, 0)]
  {
    var left, slant := Bucket(4, 0, 0, -1, 0, 4, 0), Bucket(4, 0, 4, -1, 4, 4, 0);
    EdgeListOfThree([0, 4, 0], [0, 0, 4]);
    assert EdgeBucket(Vertex(0, 4), Vertex(0, 0)) == Some(left);
    assert EdgeBucket(Vertex(0, 0), Vertex(4, 0)) == None;
    assert EdgeBucket(Vertex(4, 0), Vertex(0, 4)) == Some(slant);
  }

  /** The edges of a triangle: the closing edge first, then the others in vertex order. */
  lemma EdgeListOfThree(xs: seq<int>, ys: seq<int>)
    requires |xs| == |ys| == 3
    ensures var v := (i: nat) requires i < 3 => Vertex(xs[i], ys[i]);
      EdgeList(xs, ys) == AsSeq(EdgeBucket(v(2), v(0))) + AsSeq(EdgeBucket(v(0), v(1))) + AsSeq(EdgeBucket(v(1), v(2)))
  {
    assert EdgesUpTo(xs, ys, 3) == EdgesUpTo(xs, ys, 2) + AsSeq(EdgeBucket(Vertex(xs[1], ys[1]), Vertex(xs[2], ys[2])));
    assert EdgesUpTo(xs, ys, 2) == EdgesUpTo(xs, ys, 1) + AsSeq(EdgeBucket(Vertex(xs[0], ys[0]), Vertex(xs[1], ys[1])));
    assert EdgesUpTo(xs, ys, 1) == AsSeq(EdgeBucket(Vertex(xs[2], ys[2]), Vertex(xs[0], ys[0])));
  }
}
