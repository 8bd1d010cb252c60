/**
  Scan conversion (slpfa.cpp, processEdgeTable and drawPolygon).

  The buckets live in one arena (an array, updated in place as the source
  updates them through pointers); the edge table and the active list are
  lists of arena indices. The canvas is a pixel sink: every setPixel call
  appends one pixel to the returned sequence.

  What the fill computes is stated without the incremental machinery: a
  pixel (x, y) is set exactly when an odd number of the edges that cross
  scanline y meet it at or left of x, where an edge meets scanline y at
  CrossingX, the lower end's x plus sign times the offset rounded down
  (even-odd rule); every pixel is set once, in scanline order and left to
  right.
 */
module ScanFill {
  import opened IndexLists
  import opened Edges
  import opened EdgeOrder
  import opened Accumulator

  datatype Pixel = Pixel(x: int, y: int)

  /** p is set before q: an earlier scanline, or further left on the same one. */
  predicate PixelBefore(p: Pixel, q: Pixel) {
    p.y < q.y || (p.y == q.y && p.x < q.x)
  }

  predicate Increasing(ps: seq<Pixel>) {
    forall i, j :: 0 <= i < j < |ps| ==> PixelBefore(ps[i], ps[j])
  }

  lemma IncreasingAppend(a: seq<Pixel>, b: seq<Pixel>)
    requires Increasing(a) && Increasing(b)
    requires forall p, q :: p in a && q in b ==> PixelBefore(p, q)
    ensures Increasing(a + b)
  {
    forall i, j | 0 <= i < j < |a + b| ensures PixelBefore((a + b)[i], (a + b)[j]) {
      if i < |a| && j >= |a| {
        assert (a + b)[i] in a && (a + b)[j] in b;
      }
    }
  }

  /** The pixels x1 <= x < x2 of scanline y, left to right: the half-open span. */
  function Span(x1: int, x2: int, y: int): (r: seq<Pixel>)
    ensures forall p :: p in r <==> p.y == y && x1 <= p.x < x2
    ensures Increasing(r)
  {
    var r := seq(if x2 > x1 then x2 - x1 else 0, k => Pixel(x1 + k, y));
    assert forall p: Pixel :: p.y == y && x1 <= p.x < x2 ==> r[p.x - x1] == p;
    r
  }

  /** Every index names a bucket of the arena. */
  predicate InArena(bs: seq<Bucket>, idx: seq<nat>) {
    forall k :: 0 <= k < |idx| ==> idx[k] < |bs|
  }

  /** The spans between the 1st and 2nd, 3rd and 4th, ... edges of an active list. */
  function Spans(bs: seq<Bucket>, active: seq<nat>, y: int): seq<Pixel>
    requires InArena(bs, active) && |active| % 2 == 0
  {
    if active == [] then []
    else
      var n := |active|;
      Spans(bs, active[..n - 2], y) + Span(bs[active[n - 2]].x, bs[active[n - 1]].x, y)
  }

  /** The edges at or left of column px. */
  function LeftOf(bs: seq<Bucket>, px: int): nat -> bool {
    (i: nat) => i < |bs| && bs[i].x <= px
  }

  predicate XOrdered(bs: seq<Bucket>, active: seq<nat>)
    requires InArena(bs, active)
  {
    forall j, k :: 0 <= j <= k < |active| ==> bs[active[j]].x <= bs[active[k]].x
  }

  /** Counting the edges at or left of px over a list extended by an x-ordered last pair. */
  lemma PairParity(bs: seq<Bucket>, front: seq<nat>, a: nat, b: nat, px: int)
    requires a < |bs| && b < |bs| && InArena(bs, front + [a, b]) && XOrdered(bs, front + [a, b])
    ensures |Filter(front + [a, b], LeftOf(bs, px))|
         == |Filter(front, LeftOf(bs, px))| + (if bs[a].x <= px then 1 else 0) + (if bs[b].x <= px then 1 else 0)
    ensures bs[a].x <= px ==> |Filter(front, LeftOf(bs, px))| == |front|
  {
    var l := front + [a, b];
    FilterPair(front, a, b, LeftOf(bs, px));
    if bs[a].x <= px {
      forall i | i in front ensures LeftOf(bs, px)(i) {
        var k :| 0 <= k < |front| && front[k] == i;
        assert l[k] == i && l[|front|] == a;
      }
      FilterAll(front, LeftOf(bs, px));
    }
  }

  /** The parity bookkeeping of one more pair: the pixel is in the old spans or in the new one. */
  lemma ParityStep(inRest: bool, inLast: bool, before: int, frontLength: int, xa: int, xb: int, px: int, total: int)
    requires inRest <==> before % 2 == 1
    requires inLast <==> xa <= px < xb
    requires xa <= px ==> !inRest && before == frontLength
    requires frontLength % 2 == 0 && xa <= xb
    requires total == before + (if xa <= px then 1 else 0) + (if xb <= px then 1 else 0)
    ensures (inRest || inLast) <==> total % 2 == 1
  {
  }

  /**
    The spans of an x-ordered active list lie on scanline y, left of its
    last edge, and are painted left to right.
   */
  lemma {:induction false} SpansOrdered(bs: seq<Bucket>, active: seq<nat>, y: int)
    requires InArena(bs, active) && |active| % 2 == 0 && XOrdered(bs, active)
    ensures Increasing(Spans(bs, active, y))
    ensures forall p :: p in Spans(bs, active, y) ==> p.y == y
    ensures active != [] ==> forall p :: p in Spans(bs, active, y) ==> p.x < bs[active[|active| - 1]].x
  {
    if active != [] {
      var n := |active|;
      var front := active[..n - 2];
      var a, b := active[n - 2], active[n - 1];
      LastPair(bs, active);
      SpansOrdered(bs, front, y);
      var rest := Spans(bs, front, y);
      assert Spans(bs, active, y) == rest + Span(bs[a].x, bs[b].x, y);
      assert forall p :: p in rest ==> p.y == y && p.x < bs[a].x;
      JoinSpan(rest, bs[a].x, bs[b].x, y);
    }
  }

  /** The last pair of an x-ordered active list lies right of the rest of it, which is x-ordered too. */
  lemma LastPair(bs: seq<Bucket>, active: seq<nat>)
    requires InArena(bs, active) && |active| >= 2 && XOrdered(bs, active)
    ensures var front := active[..|active| - 2];
      InArena(bs, front) && XOrdered(bs, front)
      && bs[active[|active| - 2]].x <= bs[active[|active| - 1]].x
      && (front != [] ==> bs[front[|front| - 1]].x <= bs[active[|active| - 2]].x)
  {
    var front := active[..|active| - 2];
    forall j, k | 0 <= j <= k < |front| ensures bs[front[j]].x <= bs[front[k]].x {
      assert front[j] == active[j] && front[k] == active[k];
    }
    if front != [] {
      assert front[|front| - 1] == active[|active| - 3];
    }
  }

  /** A span appended right of earlier spans on its scanline keeps the order. */
  lemma JoinSpan(rest: seq<Pixel>, xa: int, xb: int, y: int)
    requires Increasing(rest) && xa <= xb
    requires forall p :: p in rest ==> p.y == y && p.x < xa
    ensures Increasing(rest + Span(xa, xb, y))
    ensures forall p :: p in rest + Span(xa, xb, y) ==> p.y == y && p.x < xb
  {
    var last := Span(xa, xb, y);
    IncreasingAppend(rest, last);
    forall p | p in rest + last ensures p.y == y && p.x < xb {
      if p !in rest {
        assert p in last;
      }
    }
  }

  /**
    Pairing the edges of an x-ordered active list paints exactly the pixels
    that have an odd number of edges at or left of them.
   */
  lemma {:induction false} EvenOddRow(bs: seq<Bucket>, active: seq<nat>, y: int)
    requires InArena(bs, active) && |active| % 2 == 0 && XOrdered(bs, active)
    ensures forall p :: p in Spans(bs, active, y) <==> p.y == y && |Filter(active, LeftOf(bs, p.x))| % 2 == 1
  {
    if active != [] {
      var n := |active|;
      var front := active[..n - 2];
      var a, b := active[n - 2], active[n - 1];
      assert active == front + [a, b];
      EvenOddRow(bs, front, y);
      forall p: Pixel ensures p in Spans(bs, active, y) <==> p.y == y && |Filter(active, LeftOf(bs, p.x))| % 2 == 1 {
        EvenOddStep(bs, front, a, b, y, p);
      }
    }
  }

  /** One more pair of edges: the induction step of EvenOddRow at one pixel. */
  lemma EvenOddStep(bs: seq<Bucket>, front: seq<nat>, a: nat, b: nat, y: int, p: Pixel)
    requires a < |bs| && b < |bs| && InArena(bs, front + [a, b]) && XOrdered(bs, front + [a, b])
    requires |front| % 2 == 0 && InArena(bs, front) && XOrdered(bs, front)
    requires p in Spans(bs, front, y) <==> p.y == y && |Filter(front, LeftOf(bs, p.x))| % 2 == 1
    ensures p in Spans(bs, front + [a, b], y) <==> p.y == y && |Filter(front + [a, b], LeftOf(bs, p.x))| % 2 == 1
  {
    var active := front + [a, b];
    assert active[..|active| - 2] == front;
    SpansOrdered(bs, front, y);
    var rest := Spans(bs, front, y);
    var last := Span(bs[a].x, bs[b].x, y);
    assert Spans(bs, active, y) == rest + last;
    PairParity(bs, front, a, b, p.x);
    var before, total := |Filter(front, LeftOf(bs, p.x))|, |Filter(active, LeftOf(bs, p.x))|;
    assert bs[a].x <= bs[b].x;
    assert bs[a].x <= p.x ==> p !in rest by {
      if front != [] {
        assert bs[front[|front| - 1]].x <= bs[a].x;
      }
    }
    if p.y == y {
      assert p in rest <==> before % 2 == 1;
      assert p in last <==> bs[a].x <= p.x < bs[b].x;
      ParityStep(p in rest, p in last, before, |front|, bs[a].x, bs[b].x, p.x, total);
    } else {
      assert p !in rest && p !in last;
    }
  }

  /** The active list keeps the edges whose yMax is not this scanline. */
  function Unretired(bs: seq<Bucket>, s: int): nat -> bool {
    (i: nat) => i < |bs| && bs[i].yMax != s
  }

  /** The edge table loses the active edges whose yMax is this scanline. */
  function Survives(bs: seq<Bucket>, active: seq<nat>, s: int): nat -> bool {
    (i: nat) => !(i in active && i < |bs| && bs[i].yMax == s)
  }

  /** std::list::remove of one pointer. */
  function Other(j: nat): nat -> bool {
    (i: nat) => i != j
  }

  /**
    Retirement (slpfa.cpp:112-124): walk the active list, erasing each edge
    whose yMax is the scanline, and remove it from the edge table too.
   */
  method RetireEdges(bs: seq<Bucket>, activeList: seq<nat>, edgeTable: seq<nat>, scanLine: int)
    returns (active: seq<nat>, table: seq<nat>)
    requires InArena(bs, activeList)
    ensures active == Filter(activeList, Unretired(bs, scanLine))
    ensures table == Filter(edgeTable, Survives(bs, activeList, scanLine))
  {
    active, table := activeList, edgeTable;
    FilterAll(edgeTable, Survives(bs, [], scanLine));
    var pos := 0;
    for k := 0 to |activeList|
      invariant pos == |Filter(activeList[..k], Unretired(bs, scanLine))|
      invariant active == Filter(activeList[..k], Unretired(bs, scanLine)) + activeList[k..]
      invariant table == Filter(edgeTable, Survives(bs, activeList[..k], scanLine))
    {
      active, table, pos := RetireAt(bs, activeList, edgeTable, scanLine, k, active, table, pos);
    }
    assert activeList[..|activeList|] == activeList;
  }

  /** The body of the retirement loop for the k-th active edge. */
  method RetireAt(bs: seq<Bucket>, activeList: seq<nat>, edgeTable: seq<nat>, scanLine: int, k: nat,
                  active: seq<nat>, table: seq<nat>, pos: nat)
    returns (active': seq<nat>, table': seq<nat>, pos': nat)
    requires InArena(bs, activeList) && k < |activeList|
    requires pos == |Filter(activeList[..k], Unretired(bs, scanLine))|
    requires active == Filter(activeList[..k], Unretired(bs, scanLine)) + activeList[k..]
    requires table == Filter(edgeTable, Survives(bs, activeList[..k], scanLine))
    ensures pos' == |Filter(activeList[..k + 1], Unretired(bs, scanLine))|
    ensures active' == Filter(activeList[..k + 1], Unretired(bs, scanLine)) + activeList[k + 1..]
    ensures table' == Filter(edgeTable, Survives(bs, activeList[..k + 1], scanLine))
  {
    var curr := activeList[k];
    RetireStep(bs, edgeTable, activeList, k, scanLine);
    if bs[curr].yMax == scanLine {
      active' := active[..pos] + active[pos + 1..];
      table' := Filter(table, Other(curr));
      pos' := pos;
    } else {
      active', table', pos' := active, table, pos + 1;
    }
  }

  /** One step of the retirement walk, at position k of the active list. */
  lemma RetireStep(bs: seq<Bucket>, edgeTable: seq<nat>, activeList: seq<nat>, k: nat, s: int)
    requires k < |activeList| && activeList[k] < |bs|
    ensures var curr, kept := activeList[k], Filter(activeList[..k], Unretired(bs, s));
      var l := kept + activeList[k..];
      && Filter(activeList[..k + 1], Unretired(bs, s)) == (if bs[curr].yMax == s then kept else kept + [curr])
      && (bs[curr].yMax == s ==> l[..|kept|] + l[|kept| + 1..] == kept + activeList[k + 1..])
      && (bs[curr].yMax != s ==> l == kept + [curr] + activeList[k + 1..])
      && Filter(edgeTable, Survives(bs, activeList[..k + 1], s))
         == if bs[curr].yMax == s then Filter(Filter(edgeTable, Survives(bs, activeList[..k], s)), Other(curr))
            else Filter(edgeTable, Survives(bs, activeList[..k], s))
  {
    var curr := activeList[k];
    RetireStepList(bs, activeList, k, s);
    assert activeList[..k + 1] == activeList[..k] + [curr];
    assert Filter(edgeTable, Survives(bs, activeList[..k + 1], s))
      == if bs[curr].yMax == s then Filter(Filter(edgeTable, Survives(bs, activeList[..k], s)), Other(curr))
         else Filter(edgeTable, Survives(bs, activeList[..k], s)) by {
      RetireFromTable(bs, edgeTable, activeList[..k], curr, s);
    }
  }

  /** The active-list half of RetireStep. */
  lemma RetireStepList(bs: seq<Bucket>, activeList: seq<nat>, k: nat, s: int)
    requires k < |activeList| && activeList[k] < |bs|
    ensures var curr, kept := activeList[k], Filter(activeList[..k], Unretired(bs, s));
      var l := kept + activeList[k..];
      && Filter(activeList[..k + 1], Unretired(bs, s)) == (if bs[curr].yMax == s then kept else kept + [curr])
      && (bs[curr].yMax == s ==> l[..|kept|] + l[|kept| + 1..] == kept + activeList[k + 1..])
      && (bs[curr].yMax != s ==> l == kept + [curr] + activeList[k + 1..])
  {
    var curr := activeList[k];
    var kept := Filter(activeList[..k], Unretired(bs, s));
    assert activeList[..k + 1] == activeList[..k] + [curr];
    assert activeList[k..] == [curr] + activeList[k + 1..];
    assert Filter(activeList[..k + 1], Unretired(bs, s)) == (if bs[curr].yMax == s then kept else kept + [curr]) by {
      RetireOne(bs, activeList[..k], curr, s);
    }
    EraseAt(kept, curr, activeList[k + 1..]);
  }

  /** std::list::erase at the position of curr. */
  lemma EraseAt(kept: seq<nat>, curr: nat, rest: seq<nat>)
    ensures var l := kept + [curr] + rest; l[..|kept|] + l[|kept| + 1..] == kept + rest
  {
    var l := kept + [curr] + rest;
    assert l[..|kept|] == kept && l[|kept| + 1..] == rest;
  }

  /** One more element of the walked prefix. */
  lemma RetireOne(bs: seq<Bucket>, walked: seq<nat>, curr: nat, s: int)
    requires curr < |bs|
    ensures Filter(walked + [curr], Unretired(bs, s))
         == Filter(walked, Unretired(bs, s)) + (if bs[curr].yMax == s then [] else [curr])
  {
    assert (walked + [curr])[..|walked|] == walked;
  }

  /** Removing one retired pointer from the table. */
  lemma RetireFromTable(bs: seq<Bucket>, edgeTable: seq<nat>, walked: seq<nat>, curr: nat, s: int)
    requires curr < |bs|
    ensures Filter(edgeTable, Survives(bs, walked + [curr], s))
         == if bs[curr].yMax == s then Filter(Filter(edgeTable, Survives(bs, walked, s)), Other(curr))
            else Filter(edgeTable, Survives(bs, walked, s))
  {
    if bs[curr].yMax == s {
      FilterCompose(edgeTable, Survives(bs, walked, s), Other(curr), Survives(bs, walked + [curr], s));
    } else {
      FilterCongruent(edgeTable, Survives(bs, walked, s), Survives(bs, walked + [curr], s));
    }
  }

  /** The edges whose first scanline is s. */
  function StartsAt(bs: seq<Bucket>, s: int): nat -> bool {
    (i: nat) => i < |bs| && bs[i].yMin == s
  }

  /** Admission (slpfa.cpp:127-133): append every edge of the table whose yMin is the scanline. */
  method AdmitEdges(bs: seq<Bucket>, edgeTable: seq<nat>, activeList: seq<nat>, scanLine: int)
    returns (active: seq<nat>)
    requires InArena(bs, edgeTable)
    ensures active == activeList + Filter(edgeTable, StartsAt(bs, scanLine))
  {
    active := activeList;
    for k := 0 to |edgeTable|
      invariant active == activeList + Filter(edgeTable[..k], StartsAt(bs, scanLine))
    {
      var edge := edgeTable[k];
      assert edgeTable[..k + 1][..k] == edgeTable[..k];
      if bs[edge].yMin == scanLine {
        active := active + [edge];
      }
    }
    assert edgeTable[..|edgeTable|] == edgeTable;
  }

  /** Span filling (slpfa.cpp:139-147): set [b1.x, b2.x) for each pair of the sorted active list. */
  method FillSpans(bs: seq<Bucket>, activeList: seq<nat>, scanLine: int) returns (row: seq<Pixel>)
    requires InArena(bs, activeList) && |activeList| % 2 == 0
    ensures row == Spans(bs, activeList, scanLine)
  {
    row := [];
    var k := 0;
    while k < |activeList|
      invariant 0 <= k <= |activeList| && k % 2 == 0
      invariant row == Spans(bs, activeList[..k], scanLine)
    {
      var b1 := bs[activeList[k]];
      var b2 := bs[activeList[k + 1]];
      ghost var before := row;
      var x := b1.x;
      while x < b2.x
        invariant b1.x <= x && (x == b1.x || x <= b2.x)
        invariant row == before + Span(b1.x, x, scanLine)
      {
        SpanExtend(b1.x, x, scanLine);
        row := row + [Pixel(x, scanLine)];
        x := x + 1;
      }
      if b2.x <= b1.x {
        assert Span(b1.x, x, scanLine) == [] == Span(b1.x, b2.x, scanLine);
      }
      SpansPair(bs, activeList, k, scanLine);
      k := k + 2;
    }
    assert activeList[..|activeList|] == activeList;
  }

  lemma SpanExtend(x1: int, x: int, y: int)
    requires x1 <= x
    ensures Span(x1, x + 1, y) == Span(x1, x, y) + [Pixel(x, y)]
  {
    assert Span(x1, x + 1, y)[..x - x1] == Span(x1, x, y);
  }

  /** The spans of the first k + 2 active edges add the pair at k and k + 1 to those of the first k. */
  lemma SpansPair(bs: seq<Bucket>, active: seq<nat>, k: int, y: int)
    requires InArena(bs, active) && 0 <= k && k + 2 <= |active| && k % 2 == 0
    ensures InArena(bs, active[..k]) && InArena(bs, active[..k + 2])
    ensures Spans(bs, active[..k + 2], y) == Spans(bs, active[..k], y) + Span(bs[active[k]].x, bs[active[k + 1]].x, y)
  {
    assert active[..k + 2][..k] == active[..k];
  }

  /**
    Advancing (slpfa.cpp:153-164): every active edge moves to the next
    scanline; the others are untouched.
   */
  method AdvanceEdges(buckets: array<Bucket>, activeList: seq<nat>)
    requires forall k :: 0 <= k < |activeList| ==> activeList[k] < buckets.Length
    requires forall k :: 0 <= k < |activeList| ==> Steppable(buckets[activeList[k]])
    requires Distinct(activeList)
    modifies buckets
    ensures forall i :: 0 <= i < buckets.Length ==>
      buckets[i] == if i in activeList then Advance(old(buckets[i])) else old(buckets[i])
  {
    for k := 0 to |activeList|
      invariant forall i :: 0 <= i < buckets.Length ==>
        buckets[i] == if i in activeList[..k] then Advance(old(buckets[i])) else old(buckets[i])
    {
      var i := activeList[k];
      assert activeList == activeList[..k] + [i] + activeList[k + 1..];
      assert activeList[..k + 1] == activeList[..k] + [i];
      assert multiset(activeList)[i] == multiset(activeList[..k])[i] + 1 + multiset(activeList[k + 1..])[i];
      buckets[i] := StepEdge(buckets[i]);
    }
    assert activeList[..|activeList|] == activeList;
  }

  /** The edges that cross scanline s. */
  function ActiveOn(bs: seq<Bucket>, s: int): nat -> bool {
    (i: nat) => i < |bs| && Crosses(bs[i], s)
  }

  /** The edges not yet retired when scanline s begins. */
  function Remaining(bs: seq<Bucket>, s: int): nat -> bool {
    (i: nat) => i < |bs| && bs[i].yMax >= s
  }

  /** The edges that crossed the scanline before s and still cross s. */
  function Continuing(bs: seq<Bucket>, s: int): nat -> bool {
    (i: nat) => i < |bs| && bs[i].yMin < s < bs[i].yMax
  }

  /** The edges that cross scanline y at or left of column px. */
  function InsideAt(bs: seq<Bucket>, y: int, px: int): nat -> bool {
    (i: nat) => i < |bs| && Crosses(bs[i], y) && bs[i].dY >= 1 && CrossingX(bs[i], y) <= px
  }

  /** The even-odd rule over the edges of a table. */
  predicate Inside(bs: seq<Bucket>, edgeTable: seq<nat>, p: Pixel) {
    |Filter(edgeTable, InsideAt(bs, p.y, p.x))| % 2 == 1
  }

  /** Only x and sum of the arena's buckets have changed. */
  predicate SameGeometry(bs0: seq<Bucket>, bs: seq<Bucket>) {
    |bs| == |bs0| && forall i :: 0 <= i < |bs| ==> SameEdge(bs0[i], bs[i])
  }

  /** Every index of the table names a bucket as createEdges built it. */
  predicate FreshTable(bs: seq<Bucket>, edgeTable: seq<nat>) {
    forall k :: 0 <= k < |edgeTable| ==> edgeTable[k] < |bs| && Fresh(bs[edgeTable[k]])
  }

  lemma InFilter(a: seq<nat>, b: seq<nat>, p: nat -> bool, i: nat)
    requires multiset(a) == multiset(Filter(b, p)) && i in a
    ensures i in b && p(i)
  {
    assert multiset(a)[i] > 0;
    FilterMembers(b, p);
  }

  /** After retirement: the active list holds the continuing edges, the table the unretired ones. */
  lemma AfterRetire(bs0: seq<Bucket>, bs: seq<Bucket>, et0: seq<nat>, active: seq<nat>, table: seq<nat>, s: int)
    requires SameGeometry(bs0, bs) && FreshTable(bs0, et0)
    requires table == Filter(et0, Remaining(bs0, s))
    requires multiset(active) == multiset(Filter(et0, ActiveOn(bs0, s - 1)))
    ensures multiset(Filter(active, Unretired(bs, s))) == multiset(Filter(et0, Continuing(bs0, s)))
    ensures Filter(table, Survives(bs, active, s)) == Filter(et0, Remaining(bs0, s + 1))
  {
    FilterPermutation(active, Filter(et0, ActiveOn(bs0, s - 1)), Unretired(bs, s));
    forall i | i in et0
      ensures Continuing(bs0, s)(i) == (ActiveOn(bs0, s - 1)(i) && Unretired(bs, s)(i))
      ensures Remaining(bs0, s + 1)(i) == (Remaining(bs0, s)(i) && Survives(bs, active, s)(i))
    {
      var k :| 0 <= k < |et0| && et0[k] == i;
      assert i < |bs0| && Fresh(bs0[i]) && SameEdge(bs0[i], bs[i]);
      if bs0[i].yMax == s {
        FilterMembers(et0, ActiveOn(bs0, s - 1));
        assert multiset(active)[i] > 0;
      }
    }
    FilterCompose(et0, ActiveOn(bs0, s - 1), Unretired(bs, s), Continuing(bs0, s));
    FilterCompose(et0, Remaining(bs0, s), Survives(bs, active, s), Remaining(bs0, s + 1));
  }

  /** After admission: the active list holds exactly the edges that cross the scanline. */
  lemma AfterAdmit(bs0: seq<Bucket>, bs: seq<Bucket>, et0: seq<nat>, table: seq<nat>, active: seq<nat>, s: int)
    requires SameGeometry(bs0, bs) && FreshTable(bs0, et0)
    requires table == Filter(et0, Remaining(bs0, s + 1))
    requires multiset(active) == multiset(Filter(et0, Continuing(bs0, s)))
    ensures multiset(active + Filter(table, StartsAt(bs, s))) == multiset(Filter(et0, ActiveOn(bs0, s)))
  {
    forall i | i in et0
      ensures StartsAt(bs0, s)(i) == (Remaining(bs0, s + 1)(i) && StartsAt(bs, s)(i))
    {
      var k :| 0 <= k < |et0| && et0[k] == i;
      assert i < |bs0| && Fresh(bs0[i]) && SameEdge(bs0[i], bs[i]);
    }
    FilterCompose(et0, Remaining(bs0, s + 1), StartsAt(bs, s), StartsAt(bs0, s));
    forall i | i in et0
      ensures ActiveOn(bs0, s)(i) == (Continuing(bs0, s)(i) || StartsAt(bs0, s)(i))
      ensures !(Continuing(bs0, s)(i) && StartsAt(bs0, s)(i))
    {
      var k :| 0 <= k < |et0| && et0[k] == i;
    }
    FilterUnion(et0, Continuing(bs0, s), StartsAt(bs0, s), ActiveOn(bs0, s));
  }

  /** The painted row is the even-odd rule at that scanline. */
  lemma RowIsInside(bs0: seq<Bucket>, bs: seq<Bucket>, et0: seq<nat>, sorted: seq<nat>, s: int)
    requires SameGeometry(bs0, bs) && FreshTable(bs0, et0)
    requires multiset(sorted) == multiset(Filter(et0, ActiveOn(bs0, s)))
    requires InArena(bs, sorted) && |sorted| % 2 == 0 && XOrdered(bs, sorted)
    requires forall i :: i in sorted ==>
      i < |bs0| && bs0[i].dY >= 1 && bs0[i].yMin <= s && bs[i].x == CrossingX(bs0[i], s)
    ensures forall p :: p in Spans(bs, sorted, s) <==> p.y == s && Inside(bs0, et0, p)
  {
    EvenOddRow(bs, sorted, s);
    forall p: Pixel ensures |Filter(sorted, LeftOf(bs, p.x))| == |Filter(et0, InsideAt(bs0, s, p.x))| {
      LeftCount(bs0, bs, et0, sorted, s, p.x);
    }
  }

  /**
    Counting the sorted active edges at or left of px, at their current x,
    is counting the table's edges that cross s at or left of px, at CrossingX.
   */
  lemma LeftCount(bs0: seq<Bucket>, bs: seq<Bucket>, et0: seq<nat>, sorted: seq<nat>, s: int, px: int)
    requires SameGeometry(bs0, bs) && FreshTable(bs0, et0)
    requires multiset(sorted) == multiset(Filter(et0, ActiveOn(bs0, s)))
    requires forall i :: i in sorted ==>
      i < |bs0| && bs0[i].dY >= 1 && bs0[i].yMin <= s && bs[i].x == CrossingX(bs0[i], s)
    ensures |Filter(sorted, LeftOf(bs, px))| == |Filter(et0, InsideAt(bs0, s, px))|
  {
    var crossing := Filter(et0, ActiveOn(bs0, s));
    CountPermutation(sorted, crossing, LeftOf(bs, px));
    FilterMembers(et0, ActiveOn(bs0, s));
    forall i | i in et0
      ensures InsideAt(bs0, s, px)(i) == (ActiveOn(bs0, s)(i) && LeftOf(bs, px)(i))
    {
      var k :| 0 <= k < |et0| && et0[k] == i;
      assert i < |bs0| && Fresh(bs0[i]);
      if Crosses(bs0[i], s) {
        assert i in crossing;
        assert multiset(sorted)[i] > 0;
      }
    }
    FilterCompose(et0, ActiveOn(bs0, s), LeftOf(bs, px), InsideAt(bs0, s, px));
  }

  /** The largest yMax in the table. */
  function MaxYMax(bs: seq<Bucket>, edgeTable: seq<nat>): (m: int)
    requires InArena(bs, edgeTable) && edgeTable != []
    ensures forall k :: 0 <= k < |edgeTable| ==> bs[edgeTable[k]].yMax <= m
  {
    var last := bs[edgeTable[|edgeTable| - 1]].yMax;
    if |edgeTable| == 1 then last
    else
      var m := MaxYMax(bs, edgeTable[..|edgeTable| - 1]);
      if m < last then last else m
  }

  /** How many times a bucket has been advanced when scanline s begins: once per scanline of [yMin, min(s, yMax)). */
  function Steps(b: Bucket, s: int): nat {
    var t := Min(s, b.yMax) - b.yMin;
    if t < 0 then 0 else t
  }

  /** Every scanline crosses an even number of the table's edges. */
  ghost predicate EvenTable(bs: seq<Bucket>, edgeTable: seq<nat>) {
    forall s :: |Filter(edgeTable, ActiveOn(bs, s))| % 2 == 0
  }

  /**
    The state of the edges when scanline s begins: the table holds the
    edges not yet retired, the active list the edges that crossed scanline
    s - 1, and every bucket has been advanced once per scanline it crossed.
   */
  ghost predicate EdgeState(bs0: seq<Bucket>, et0: seq<nat>, bs: seq<Bucket>, table: seq<nat>, active: seq<nat>, s: int) {
    && FreshTable(bs0, et0)
    && SameGeometry(bs0, bs)
    && (forall i :: i in et0 ==> i < |bs0| && Steppable(bs0[i]) && bs[i] == AdvanceTimes(bs0[i], Steps(bs0[i], s)))
    && table == Filter(et0, Remaining(bs0, s))
    && multiset(active) == multiset(Filter(et0, ActiveOn(bs0, s - 1)))
  }

  /** The pixels set before scanline s: those of the earlier scanlines that are inside, in order. */
  ghost predicate PixelState(bs0: seq<Bucket>, et0: seq<nat>, pixels: seq<Pixel>, s: int) {
    && (forall p :: p in pixels <==> p.y < s && Inside(bs0, et0, p))
    && Increasing(pixels)
    && (forall p :: p in pixels ==> p.y < s)
  }

  lemma StartState(bs0: seq<Bucket>, et0: seq<nat>, first: int)
    requires FreshTable(bs0, et0)
    requires forall k :: 0 <= k < |et0| ==> first <= bs0[et0[k]].yMin
    ensures EdgeState(bs0, et0, bs0, et0, [], first)
    ensures PixelState(bs0, et0, [], first)
  {
    forall i | i in et0
      ensures i < |bs0| && Fresh(bs0[i]) && first <= bs0[i].yMin && Steps(bs0[i], first) == 0
    {
      var k :| 0 <= k < |et0| && et0[k] == i;
    }
    FilterAll(et0, Remaining(bs0, first));
    FilterNone(et0, ActiveOn(bs0, first - 1));
    forall p: Pixel | p.y < first ensures !Inside(bs0, et0, p) {
      FilterNone(et0, InsideAt(bs0, p.y, p.x));
    }
  }

  /** While the table is not empty, some edge is still to come: the scan has not passed the largest yMax. */
  lemma TablePending(bs0: seq<Bucket>, et0: seq<nat>, table: seq<nat>, s: int)
    requires InArena(bs0, et0) && et0 != []
    requires table == Filter(et0, Remaining(bs0, s)) && table != []
    ensures s <= MaxYMax(bs0, et0)
  {
    FilterMembers(et0, Remaining(bs0, s));
    assert table[0] in table;
    var k :| 0 <= k < |et0| && et0[k] == table[0];
  }

  /** Some edge of the table has the largest yMax. */
  lemma {:induction false} MaxYMaxAttained(bs: seq<Bucket>, edgeTable: seq<nat>) returns (k: nat)
    requires InArena(bs, edgeTable) && edgeTable != []
    ensures k < |edgeTable| && bs[edgeTable[k]].yMax == MaxYMax(bs, edgeTable)
  {
    var front := edgeTable[..|edgeTable| - 1];
    if |edgeTable| == 1 || MaxYMax(bs, front) < bs[edgeTable[|edgeTable| - 1]].yMax {
      k := |edgeTable| - 1;
    } else {
      k := MaxYMaxAttained(bs, front);
      assert edgeTable[k] == front[k];
    }
  }

  /** The table is empty only once the scan has passed the largest yMax. */
  lemma TableDone(bs0: seq<Bucket>, et0: seq<nat>, table: seq<nat>, s: int, top: int)
    requires InArena(bs0, et0) && et0 != [] && top == MaxYMax(bs0, et0)
    requires table == Filter(et0, Remaining(bs0, s)) && table == []
    ensures s > top
  {
    var k := MaxYMaxAttained(bs0, et0);
    FilterMembers(et0, Remaining(bs0, s));
    assert et0[k] in et0;
  }

  lemma ActiveInArena(bs0: seq<Bucket>, et0: seq<nat>, bs: seq<Bucket>, table: seq<nat>, active: seq<nat>, s: int)
    requires EdgeState(bs0, et0, bs, table, active, s)
    ensures InArena(bs, active)
  {
    forall k | 0 <= k < |active| ensures active[k] < |bs| {
      InFilter(active, et0, ActiveOn(bs0, s - 1), active[k]);
    }
  }

  /** After retirement and admission, the active list holds exactly the edges that cross scanline s. */
  lemma AdmittedState(bs0: seq<Bucket>, et0: seq<nat>, bs: seq<Bucket>, table: seq<nat>, active: seq<nat>, s: int,
                      kept: seq<nat>, remaining: seq<nat>)
    requires EdgeState(bs0, et0, bs, table, active, s)
    requires kept == Filter(active, Unretired(bs, s))
    requires remaining == Filter(table, Survives(bs, active, s))
    ensures remaining == Filter(et0, Remaining(bs0, s + 1))
    ensures InArena(bs, remaining)
    ensures multiset(kept + Filter(remaining, StartsAt(bs, s))) == multiset(Filter(et0, ActiveOn(bs0, s)))
    ensures Arena(bs, kept + Filter(remaining, StartsAt(bs, s)))
  {
    AfterRetire(bs0, bs, et0, active, table, s);
    AfterAdmit(bs0, bs, et0, remaining, kept, s);
    FilterMembers(et0, Remaining(bs0, s + 1));
    forall k | 0 <= k < |remaining| ensures remaining[k] < |bs| {
      assert remaining[k] in et0;
    }
    var admitted := kept + Filter(remaining, StartsAt(bs, s));
    forall k | 0 <= k < |admitted| ensures admitted[k] < |bs| && bs[admitted[k]].dY != 0 {
      InFilter(admitted, et0, ActiveOn(bs0, s), admitted[k]);
      var j :| 0 <= j < |et0| && et0[j] == admitted[k];
      assert SameEdge(bs0[admitted[k]], bs[admitted[k]]);
    }
  }

  /** The buckets that cross scanline s are at CrossingX on it. */
  lemma AtRow(bs0: seq<Bucket>, et0: seq<nat>, bs: seq<Bucket>, table: seq<nat>, active: seq<nat>, s: int, i: nat)
    requires EdgeState(bs0, et0, bs, table, active, s)
    requires i in et0 && i < |bs0| && Crosses(bs0[i], s)
    ensures bs0[i].dY >= 1 && bs0[i].yMin <= s && bs[i].x == CrossingX(bs0[i], s)
  {
    var k :| 0 <= k < |et0| && et0[k] == i;
    assert Steps(bs0[i], s) == s - bs0[i].yMin;
    AdvancedToRow(bs0[i], s);
  }

  /** Every edge of the sorted active list crosses s, at CrossingX, and occurs once. */
  lemma SortedAtRow(bs0: seq<Bucket>, et0: seq<nat>, bs: seq<Bucket>, table: seq<nat>, active: seq<nat>, s: int,
                    sorted: seq<nat>)
    requires EdgeState(bs0, et0, bs, table, active, s) && Distinct(et0)
    requires multiset(sorted) == multiset(Filter(et0, ActiveOn(bs0, s)))
    ensures forall i :: i in sorted ==>
      i < |bs0| && bs0[i].dY >= 1 && bs0[i].yMin <= s && bs[i].x == CrossingX(bs0[i], s)
    ensures Distinct(sorted)
    ensures forall k :: 0 <= k < |sorted| ==> sorted[k] < |bs| && Steppable(bs[sorted[k]])
  {
    FilterMultiset(et0, ActiveOn(bs0, s));
    forall i | i in sorted
      ensures i < |bs0| && bs0[i].dY >= 1 && bs0[i].yMin <= s && bs[i].x == CrossingX(bs0[i], s)
      ensures Steppable(bs[i])
    {
      InFilter(sorted, et0, ActiveOn(bs0, s), i);
      AtRow(bs0, et0, bs, table, active, s, i);
    }
    forall k | 0 <= k < |sorted| ensures sorted[k] < |bs| && Steppable(bs[sorted[k]]) {
      assert sorted[k] in sorted;
    }
  }

  /** The sorted active list paints the scanline by the even-odd rule and can be advanced. */
  lemma RowState(bs0: seq<Bucket>, et0: seq<nat>, bs: seq<Bucket>, table: seq<nat>, active: seq<nat>, s: int,
                 sorted: seq<nat>)
    requires EdgeState(bs0, et0, bs, table, active, s) && EvenTable(bs0, et0) && Distinct(et0)
    requires multiset(sorted) == multiset(Filter(et0, ActiveOn(bs0, s)))
    requires Arena(bs, sorted) && Sorted(bs, sorted, ByX)
    ensures InArena(bs, sorted) && |sorted| % 2 == 0
    ensures forall p :: p in Spans(bs, sorted, s) <==> p.y == s && Inside(bs0, et0, p)
    ensures Increasing(Spans(bs, sorted, s)) && forall p :: p in Spans(bs, sorted, s) ==> p.y == s
    ensures Distinct(sorted)
    ensures forall k :: 0 <= k < |sorted| ==> sorted[k] < |bs| && Steppable(bs[sorted[k]])
  {
    assert |multiset(sorted)| == |multiset(Filter(et0, ActiveOn(bs0, s)))|;
    SortedAtRow(bs0, et0, bs, table, active, s, sorted);
    SortedByXIncreasing(bs, sorted);
    RowIsInside(bs0, bs, et0, sorted, s);
    SpansOrdered(bs, sorted, s);
  }

  /** Advancing the sorted active list gives the edge state of the next scanline. */
  lemma AdvancedState(bs0: seq<Bucket>, et0: seq<nat>, bs: seq<Bucket>, table: seq<nat>, active: seq<nat>, s: int,
                      remaining: seq<nat>, sorted: seq<nat>, next: seq<Bucket>)
    requires EdgeState(bs0, et0, bs, table, active, s)
    requires remaining == Filter(et0, Remaining(bs0, s + 1))
    requires multiset(sorted) == multiset(Filter(et0, ActiveOn(bs0, s)))
    requires |next| == |bs|
    requires forall i :: 0 <= i < |bs| && i in sorted ==> Steppable(bs[i])
    requires forall i :: 0 <= i < |bs| ==> next[i] == if i in sorted then Advance(bs[i]) else bs[i]
    ensures EdgeState(bs0, et0, next, remaining, sorted, s + 1)
  {
    forall i | 0 <= i < |next| ensures SameEdge(bs0[i], next[i]) {
      assert SameEdge(bs0[i], bs[i]);
    }
    forall i | i in et0
      ensures i < |bs0| && Steppable(bs0[i]) && next[i] == AdvanceTimes(bs0[i], Steps(bs0[i], s + 1))
    {
      AdvanceOne(bs0, et0, bs, table, active, s, sorted, next, i);
    }
  }

  /** One bucket moves on exactly when it crosses scanline s. */
  lemma AdvanceOne(bs0: seq<Bucket>, et0: seq<nat>, bs: seq<Bucket>, table: seq<nat>, active: seq<nat>, s: int,
                   sorted: seq<nat>, next: seq<Bucket>, i: nat)
    requires EdgeState(bs0, et0, bs, table, active, s)
    requires multiset(sorted) == multiset(Filter(et0, ActiveOn(bs0, s)))
    requires |next| == |bs|
    requires forall i :: 0 <= i < |bs| && i in sorted ==> Steppable(bs[i])
    requires forall i :: 0 <= i < |bs| ==> next[i] == if i in sorted then Advance(bs[i]) else bs[i]
    requires i in et0
    ensures i < |bs0| && Steppable(bs0[i]) && next[i] == AdvanceTimes(bs0[i], Steps(bs0[i], s + 1))
  {
    var b := bs0[i];
    assert Fresh(b) && bs[i] == AdvanceTimes(b, Steps(b, s));
    SortedMember(bs0, et0, sorted, s, i);
    AdvanceStep(b, bs[i], next[i], s, i in sorted);
  }

  /** An edge of the table is in the sorted active list exactly when it crosses scanline s. */
  lemma SortedMember(bs0: seq<Bucket>, et0: seq<nat>, sorted: seq<nat>, s: int, i: nat)
    requires multiset(sorted) == multiset(Filter(et0, ActiveOn(bs0, s)))
    requires i in et0 && i < |bs0|
    ensures i in sorted <==> Crosses(bs0[i], s)
  {
    FilterMultiset(et0, ActiveOn(bs0, s));
    assert multiset(et0)[i] > 0;
    assert multiset(sorted)[i] == multiset(Filter(et0, ActiveOn(bs0, s)))[i];
  }

  /** One scanline later, an edge has advanced once more exactly when it crossed the scanline. */
  lemma AdvanceStep(b: Bucket, cur: Bucket, nxt: Bucket, s: int, crossed: bool)
    requires Fresh(b) && Steppable(b) && cur == AdvanceTimes(b, Steps(b, s))
    requires crossed <==> Crosses(b, s)
    requires nxt == if crossed then Advance(cur) else cur
    ensures nxt == AdvanceTimes(b, Steps(b, s + 1))
  {
    StepsOnce(b, s);
  }

  lemma StepsOnce(b: Bucket, s: int)
    requires Fresh(b)
    ensures Crosses(b, s) ==> Steps(b, s + 1) == Steps(b, s) + 1
    ensures !Crosses(b, s) ==> Steps(b, s + 1) == Steps(b, s)
  {
  }

  /** The row of scanline s extends the pixels set so far. */
  lemma PixelStep(bs0: seq<Bucket>, et0: seq<nat>, pixels: seq<Pixel>, row: seq<Pixel>, s: int)
    requires PixelState(bs0, et0, pixels, s)
    requires forall p :: p in row <==> p.y == s && Inside(bs0, et0, p)
    requires Increasing(row)
    ensures PixelState(bs0, et0, pixels + row, s + 1)
  {
    IncreasingAppend(pixels, row);
  }

  /** Once the table is empty, no edge crosses a later scanline: nothing is left inside. */
  lemma EndState(bs0: seq<Bucket>, et0: seq<nat>, bs: seq<Bucket>, active: seq<nat>, pixels: seq<Pixel>, s: int)
    requires EdgeState(bs0, et0, bs, [], active, s) && PixelState(bs0, et0, pixels, s)
    ensures forall p :: p in pixels <==> Inside(bs0, et0, p)
  {
    FilterMembers(et0, Remaining(bs0, s));
    forall p: Pixel | p.y >= s ensures !Inside(bs0, et0, p) {
      forall i | i in et0 ensures !InsideAt(bs0, p.y, p.x)(i) {
        assert i !in Filter(et0, Remaining(bs0, s));
      }
      FilterNone(et0, InsideAt(bs0, p.y, p.x));
    }
  }

  /**
    processEdgeTable (slpfa.cpp:104-166). Each bucket enters the active
    list once, at its yMin, and leaves it once, at its yMax; when spans are
    filled every active edge crosses the scanline and sits at CrossingX,
    so the pixels set are those inside by the even-odd rule, each once,
    scanline by scanline and left to right. The outer loop makes one pass
    per scanline from the front's yMin to the largest yMax.
   */
  method ProcessEdgeTable(buckets: array<Bucket>, edgeTable: seq<nat>) returns (pixels: seq<Pixel>, ghost passes: int)
    requires edgeTable != []
    requires FreshTable(buckets[..], edgeTable) && Distinct(edgeTable)
    requires forall k :: 0 <= k < |edgeTable| ==> buckets[edgeTable[0]].yMin <= buckets[edgeTable[k]].yMin
    requires EvenTable(buckets[..], edgeTable)
    modifies buckets
    ensures forall p :: p in pixels <==> Inside(old(buckets[..]), edgeTable, p)
    ensures Increasing(pixels)
    ensures passes == MaxYMax(old(buckets[..]), edgeTable) + 1 - old(buckets[..])[edgeTable[0]].yMin
  {
    ghost var bs0 := buckets[..];
    ghost var top := MaxYMax(bs0, edgeTable);
    var scanLine := buckets[edgeTable[0]].yMin;
    ghost var first := scanLine;
    var table := edgeTable;
    var activeList: seq<nat> := [];
    pixels := [];
    StartState(bs0, edgeTable, scanLine);

    while table != []
      invariant EdgeState(bs0, edgeTable, buckets[..], table, activeList, scanLine)
      invariant PixelState(bs0, edgeTable, pixels, scanLine)
      invariant scanLine <= top + 1
      decreases top + 1 - scanLine
    {
      TablePending(bs0, edgeTable, table, scanLine);
      var remaining, sorted, row := ScanLine(buckets, bs0, edgeTable, table, activeList, scanLine);
      PixelStep(bs0, edgeTable, pixels, row, scanLine);
      pixels := pixels + row;
      table, activeList, scanLine := remaining, sorted, scanLine + 1;
    }
    assert bs0 == old(buckets[..]);
    EndState(bs0, edgeTable, buckets[..], activeList, pixels, scanLine);
    assert scanLine == top + 1 by {
      TableDone(bs0, edgeTable, table, scanLine, top);
    }
    passes := scanLine - first;
  }

  /**
    One pass of the loop of processEdgeTable: retire (slpfa.cpp:111-124),
    admit (127-133), sort by x (136), fill (139-147) and advance (153-164).
    The row painted is scanline s under the even-odd rule, and the edges
    are left in the state of scanline s + 1.
   */
  method ScanLine(buckets: array<Bucket>, ghost bs0: seq<Bucket>, ghost et0: seq<nat>,
                  table: seq<nat>, activeList: seq<nat>, scanLine: int)
    returns (remaining: seq<nat>, sorted: seq<nat>, row: seq<Pixel>)
    requires EdgeState(bs0, et0, buckets[..], table, activeList, scanLine)
    requires EvenTable(bs0, et0) && Distinct(et0)
    modifies buckets
    ensures EdgeState(bs0, et0, buckets[..], remaining, sorted, scanLine + 1)
    ensures forall p :: p in row <==> p.y == scanLine && Inside(bs0, et0, p)
    ensures Increasing(row)
  {
    var bs := buckets[..];
    ActiveInArena(bs0, et0, bs, table, activeList, scanLine);
    var kept;
    kept, remaining := RetireEdges(bs, activeList, table, scanLine);
    AdmittedState(bs0, et0, bs, table, activeList, scanLine, kept, remaining);
    var admitted := AdmitEdges(bs, remaining, kept, scanLine);
    sorted := SortBy(bs, admitted, ByX);
    RowState(bs0, et0, bs, table, activeList, scanLine, sorted);
    row := FillSpans(bs, sorted, scanLine);
    AdvanceEdges(buckets, sorted);
    AdvancedState(bs0, et0, bs, table, activeList, scanLine, remaining, sorted, buckets[..]);
  }
}
