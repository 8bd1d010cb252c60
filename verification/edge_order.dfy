/**
  The two bucket orders of slpfa.cpp (minYCompare, xCompare) and the list
  sort that drawPolygon and processEdgeTable apply with them.

  std::list::sort is a stable sort; it is modelled by a stable insertion
  sort over arena indices.
 */
module EdgeOrder {
  import opened Edges
  import opened IndexLists

  /** minYCompare (slpfa.cpp:18-20): strictly smaller first scanline. */
  predicate MinYCompare(e1: Bucket, e2: Bucket) {
    e1.yMin < e2.yMin
  }

  /** C's integer division, which truncates toward zero. */
  function TruncDiv(a: int, b: int): int
    requires b != 0
  {
    var q := Abs(a) / Abs(b);
    if (a < 0) != (b < 0) then -q else q
  }

  /**
    xCompare (slpfa.cpp:29-37): smaller x first; on equal x, the smaller
    truncated quotient dX / dY first.
   */
  predicate XCompare(e1: Bucket, e2: Bucket)
    requires e1.dY != 0 && e2.dY != 0
  {
    if e1.x < e2.x then true
    else if e1.x > e2.x then false
    else TruncDiv(e1.dX, e1.dY) < TruncDiv(e2.dX, e2.dY)
  }

  /** xCompare is a strict weak order: irreflexive, transitive, and incomparable exactly on equal keys. */
  lemma XCompareStrictWeakOrder(e1: Bucket, e2: Bucket, e3: Bucket)
    requires e1.dY != 0 && e2.dY != 0 && e3.dY != 0
    ensures !XCompare(e1, e1)
    ensures XCompare(e1, e2) && XCompare(e2, e3) ==> XCompare(e1, e3)
    ensures XCompare(e1, e2) ==> !XCompare(e2, e1)
    ensures (!XCompare(e1, e2) && !XCompare(e2, e1))
        <==> (e1.x == e2.x && TruncDiv(e1.dX, e1.dY) == TruncDiv(e2.dX, e2.dY))
  {
  }

  /**
    The tie-break compares truncated quotients, not slopes: an edge with
    slope 1/2 and a vertical edge at the same x are unordered either way.
   */
  lemma XCompareTruncatesSlope()
    ensures !XCompare(Bucket(2, 0, 5, 1, 1, 2, 0), Bucket(1, 0, 5, 1, 0, 1, 0))
    ensures !XCompare(Bucket(1, 0, 5, 1, 0, 1, 0), Bucket(2, 0, 5, 1, 1, 2, 0))
  {
  }

  /** The comparator a sort is called with. */
  datatype Order = ByMinY | ByX

  /** Every index names a bucket of the arena, and its dY can divide. */
  predicate Arena(bs: seq<Bucket>, idx: seq<nat>) {
    forall k :: 0 <= k < |idx| ==> idx[k] < |bs| && bs[idx[k]].dY != 0
  }

  predicate Before(order: Order, e1: Bucket, e2: Bucket)
    requires e1.dY != 0 && e2.dY != 0
  {
    match order
    case ByMinY => MinYCompare(e1, e2)
    case ByX => XCompare(e1, e2)
  }

  /** No bucket comes strictly before the one in front of it. */
  predicate Sorted(bs: seq<Bucket>, idx: seq<nat>, order: Order)
    requires Arena(bs, idx)
  {
    forall k :: 0 < k < |idx| ==> !Before(order, bs[idx[k]], bs[idx[k - 1]])
  }

  /** Insert e in front of the first bucket it comes strictly before (after its equals). */
  function Insert(bs: seq<Bucket>, order: Order, e: nat, sorted: seq<nat>): (r: seq<nat>)
    requires Arena(bs, sorted) && e < |bs| && bs[e].dY != 0 && Sorted(bs, sorted, order)
    ensures multiset(r) == multiset(sorted) + multiset{e}
    ensures Arena(bs, r) && Sorted(bs, r, order)
    ensures |r| == |sorted| + 1 && (r[0] == e || (sorted != [] && r[0] == sorted[0]))
  {
    if sorted == [] then [e]
    else if Before(order, bs[e], bs[sorted[0]]) then
      Prepend(bs, order, e, sorted);
      [e] + sorted
    else
      SortedTail(bs, order, sorted);
      var rest := Insert(bs, order, e, sorted[1..]);
      InsertLater(bs, order, e, sorted, rest);
      [sorted[0]] + rest
  }

  /** The else branch of Insert: e goes into the tail, and the front bucket stays in front. */
  lemma InsertLater(bs: seq<Bucket>, order: Order, e: nat, sorted: seq<nat>, rest: seq<nat>)
    requires Arena(bs, sorted) && Sorted(bs, sorted, order) && sorted != [] && e < |bs| && bs[e].dY != 0
    requires !Before(order, bs[e], bs[sorted[0]])
    requires Arena(bs, rest) && Sorted(bs, rest, order) && multiset(rest) == multiset(sorted[1..]) + multiset{e}
    requires |rest| == |sorted| && (rest[0] == e || (|sorted| > 1 && rest[0] == sorted[1]))
    ensures var r := [sorted[0]] + rest;
      multiset(r) == multiset(sorted) + multiset{e} && Arena(bs, r) && Sorted(bs, r, order)
  {
    SortedTail(bs, order, sorted);
    assert sorted == [sorted[0]] + sorted[1..];
    Prepend(bs, order, sorted[0], rest);
  }

  /** A bucket that nothing in front of a sorted list comes before can lead it. */
  lemma Prepend(bs: seq<Bucket>, order: Order, h: nat, rest: seq<nat>)
    requires Arena(bs, rest) && h < |bs| && bs[h].dY != 0 && Sorted(bs, rest, order)
    requires rest != [] ==> !Before(order, bs[rest[0]], bs[h])
    ensures Arena(bs, [h] + rest) && Sorted(bs, [h] + rest, order)
  {
    var r := [h] + rest;
    forall k | 0 < k < |r| ensures r[k] == rest[k - 1] {
    }
  }

  lemma SortedTail(bs: seq<Bucket>, order: Order, sorted: seq<nat>)
    requires Arena(bs, sorted) && Sorted(bs, sorted, order) && sorted != []
    ensures Arena(bs, sorted[1..]) && Sorted(bs, sorted[1..], order)
    ensures |sorted| > 1 ==> !Before(order, bs[sorted[1]], bs[sorted[0]])
  {
    var t := sorted[1..];
    forall k | 0 <= k < |t| ensures t[k] == sorted[k + 1] {
    }
  }

  /** std::list::sort with the given comparator: a sorted permutation. */
  function SortBy(bs: seq<Bucket>, idx: seq<nat>, order: Order): (r: seq<nat>)
    requires Arena(bs, idx)
    ensures multiset(r) == multiset(idx)
    ensures Arena(bs, r) && Sorted(bs, r, order)
  {
    if idx == [] then []
    else
      var front := idx[..|idx| - 1];
      assert idx == front + [idx[|idx| - 1]];
      var sortedFront := SortBy(bs, front, order);
      Insert(bs, order, idx[|idx| - 1], sortedFront)
  }

  /** After the sort by xCompare, x never decreases along the active list. */
  lemma {:induction false} SortedByXIncreasing(bs: seq<Bucket>, idx: seq<nat>)
    requires Arena(bs, idx) && Sorted(bs, idx, ByX)
    ensures forall j, k :: 0 <= j <= k < |idx| ==> bs[idx[j]].x <= bs[idx[k]].x
  {
    if idx != [] {
      var front := idx[..|idx| - 1];
      SortedByXIncreasing(bs, front);
      var last := |idx| - 1;
      if last > 0 {
        assert !XCompare(bs[idx[last]], bs[idx[last - 1]]);
      }
    }
  }

  /** After the sort by minYCompare, yMin never decreases along the edge table. */
  lemma {:induction false} SortedByMinYIncreasing(bs: seq<Bucket>, idx: seq<nat>)
    requires Arena(bs, idx) && Sorted(bs, idx, ByMinY)
    ensures forall j, k :: 0 <= j <= k < |idx| ==> bs[idx[j]].yMin <= bs[idx[k]].yMin
  {
    if idx != [] {
      var front := idx[..|idx| - 1];
      SortedByMinYIncreasing(bs, front);
      var last := |idx| - 1;
      if last > 0 {
        assert !MinYCompare(bs[idx[last]], bs[idx[last - 1]]);
      }
    }
  }
}
