/**
  Index lists. The rasterizer keeps its buckets in one arena and refers to
  them from the edge table and the active list by index, so both lists are
  sequences of arena indices. Erasing the elements of such a list that meet
  a condition (std::list::erase in a loop, std::list::remove) is `Filter`.
 */
module IndexLists {

  /** The elements of `a` that satisfy `p`, in their original order. */
  function Filter(a: seq<nat>, p: nat -> bool): (r: seq<nat>)
    ensures |r| <= |a|
  {
    if a == [] then []
    else Filter(a[..|a| - 1], p) + (if p(a[|a| - 1]) then [a[|a| - 1]] else [])
  }

  /** The filter keeps exactly the elements that meet the condition. */
  lemma {:induction false} FilterMembers(a: seq<nat>, p: nat -> bool)
    ensures forall i :: i in Filter(a, p) <==> i in a && p(i)
  {
    if a != [] {
      var front := a[..|a| - 1];
      assert a == front + [a[|a| - 1]];
      FilterMembers(front, p);
    }
  }

  /** How often an index occurs in a filtered list. */
  lemma {:induction false} FilterMultiset(a: seq<nat>, p: nat -> bool)
    ensures forall i :: multiset(Filter(a, p))[i] == if p(i) then multiset(a)[i] else 0
  {
    if a != [] {
      var front := a[..|a| - 1];
      assert a == front + [a[|a| - 1]];
      FilterMultiset(front, p);
    }
  }

  /** No index occurs twice (every bucket pointer is allocated once). */
  ghost predicate Distinct(a: seq<nat>) {
    forall i :: multiset(a)[i] <= 1
  }

  /** Filtering with two conditions in turn is filtering with their conjunction. */
  lemma {:induction false} FilterCompose(a: seq<nat>, p: nat -> bool, q: nat -> bool, r: nat -> bool)
    requires forall i :: i in a ==> r(i) == (p(i) && q(i))
    ensures Filter(Filter(a, p), q) == Filter(a, r)
  {
    if a != [] {
      var front := a[..|a| - 1];
      assert a == front + [a[|a| - 1]];
      FilterCompose(front, p, q, r);
      var last := a[|a| - 1];
      var fp := Filter(front, p);
      if p(last) {
        assert Filter(a, p) == fp + [last];
        assert (fp + [last])[..|fp + [last]| - 1] == fp;
      } else {
        assert Filter(a, p) == fp + [];
        assert fp + [] == fp;
      }
    }
  }

  /** The filter only depends on the condition at the elements of the list. */
  lemma {:induction false} FilterCongruent(a: seq<nat>, p: nat -> bool, q: nat -> bool)
    requires forall i :: i in a ==> p(i) == q(i)
    ensures Filter(a, p) == Filter(a, q)
  {
    if a != [] {
      var front := a[..|a| - 1];
      assert a == front + [a[|a| - 1]];
      FilterCongruent(front, p, q);
    }
  }

  /** A list whose every element meets the condition is kept whole. */
  lemma {:induction false} FilterAll(a: seq<nat>, p: nat -> bool)
    requires forall i :: i in a ==> p(i)
    ensures Filter(a, p) == a
  {
    if a != [] {
      var front := a[..|a| - 1];
      assert a == front + [a[|a| - 1]];
      FilterAll(front, p);
    }
  }

  /** Filtering appended lists is appending the filtered lists. */
  lemma {:induction false} FilterAppend(a: seq<nat>, b: seq<nat>, p: nat -> bool)
    ensures Filter(a + b, p) == Filter(a, p) + Filter(b, p)
    decreases |b|
  {
    if b == [] {
      assert a + b == a;
    } else {
      var last := b[|b| - 1];
      var bf := b[..|b| - 1];
      var tail := if p(last) then [last] else [];
      assert b == bf + [last];
      assert a + b == (a + bf) + [last];
      assert (a + b)[..|a + b| - 1] == a + bf;
      calc {
        Filter(a + b, p);
        Filter(a + bf, p) + tail;
        { FilterAppend(a, bf, p); }
        Filter(a, p) + Filter(bf, p) + tail;
        Filter(a, p) + (Filter(bf, p) + tail);
      }
    }
  }

  /** Filtering permuted lists gives permuted results. */
  lemma FilterPermutation(a: seq<nat>, b: seq<nat>, p: nat -> bool)
    requires multiset(a) == multiset(b)
    ensures multiset(Filter(a, p)) == multiset(Filter(b, p))
  {
    var fa, fb := Filter(a, p), Filter(b, p);
    FilterMultiset(a, p);
    FilterMultiset(b, p);
    forall i ensures multiset(fa)[i] == multiset(fb)[i] { }
  }

  /** The number of elements meeting a condition depends only on the multiset. */
  lemma CountPermutation(a: seq<nat>, b: seq<nat>, p: nat -> bool)
    requires multiset(a) == multiset(b)
    ensures |Filter(a, p)| == |Filter(b, p)|
  {
    FilterPermutation(a, b, p);
    assert |multiset(Filter(a, p))| == |Filter(a, p)| && |multiset(Filter(b, p))| == |Filter(b, p)|;
  }

  /** Filtering with either of two exclusive conditions joins the two filters. */
  lemma FilterUnion(a: seq<nat>, p: nat -> bool, q: nat -> bool, r: nat -> bool)
    requires forall i :: i in a ==> r(i) == (p(i) || q(i)) && !(p(i) && q(i))
    ensures multiset(Filter(a, p)) + multiset(Filter(a, q)) == multiset(Filter(a, r))
  {
    FilterMultiset(a, p);
    FilterMultiset(a, q);
    FilterMultiset(a, r);
    var lhs := multiset(Filter(a, p)) + multiset(Filter(a, q));
    forall i ensures lhs[i] == multiset(Filter(a, r))[i] {
      if i in a {
        assert r(i) == (p(i) || q(i)) && !(p(i) && q(i));
      }
    }
  }

  /** Nothing is kept when no element meets the condition. */
  lemma {:induction false} FilterNone(a: seq<nat>, p: nat -> bool)
    requires forall i :: i in a ==> !p(i)
    ensures Filter(a, p) == []
  {
    if a != [] {
      var front := a[..|a| - 1];
      assert a == front + [a[|a| - 1]];
      FilterNone(front, p);
    }
  }

  /** Filtering a list extended by two elements. */
  lemma FilterPair(front: seq<nat>, a: nat, b: nat, p: nat -> bool)
    ensures |Filter(front + [a, b], p)| == |Filter(front, p)| + (if p(a) then 1 else 0) + (if p(b) then 1 else 0)
  {
    var l := front + [a, b];
    assert l[..|l| - 1] == front + [a];
    assert (front + [a])[..|front|] == front;
  }
}
