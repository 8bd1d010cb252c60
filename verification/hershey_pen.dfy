/**
  The coordinate stream of one Hershey glyph (priv/hershey/hershey.cpp:251-314):
  the pairs that follow the bearings, and the pen state machine that turns
  them into line segments of four ints each.
 */
module HersheyPen {
  import opened HersheyScan

  /** Every coordinate is written as its offset from 'R'. */
  const ORIGIN: Byte := 82

  function Offset(b: Byte): int {
    b - ORIGIN
  }

  /** Why the reader stopped without output. */
  datatype Failure =
    | BadGlyphNumber(glyph: nat, col: int)  // no digit, or only zeros, where a glyph number belongs
    | Truncated                             // the terminator where a byte of a glyph belongs
    | Overrun(pos: nat)                     // a read beyond the terminator (only the reader as written)

  datatype Result<T> = Ok(value: T) | Fail(failure: Failure)

  /** A coordinate pair: first is x, second is y. */
  datatype Pair = Pair(first: int, second: int)

  /** The pen-up code: the bytes ' ' and 'R'. */
  const LIFT: Pair := Pair(SPACE - ORIGIN, 0)

  datatype PairsRead = PairsRead(pairs: seq<Pair>, next: Cursor)

  /**
    The pair reader (hershey.cpp:259-274): n pairs, each byte followed by
    any number of CR or LF, which reset the column; other bytes, spaces
    included, are coordinates. The terminator where a first or a second
    byte belongs aborts.
   */
  function ReadPairs(buf: seq<Byte>, cur: Cursor, n: nat, read: seq<Pair>): (r: Result<PairsRead>)
    ensures r.Ok? ==> cur.pos <= r.value.next.pos && (cur.col >= 0 ==> r.value.next.col >= 0)
    decreases n
  {
    if n == 0 then Ok(PairsRead(read, cur))
    else if At(buf, cur.pos) == NUL then Fail(Truncated)
    else
      var first := Offset(At(buf, cur.pos));
      var mid := SkipNewLines(buf, Cursor(cur.pos + 1, cur.col));
      if At(buf, mid.pos) == NUL then Fail(Truncated)
      else
        var second := Offset(At(buf, mid.pos));
        var next := SkipNewLines(buf, Cursor(mid.pos + 1, mid.col));
        ReadPairs(buf, next, n - 1, read + [Pair(first, second)])
  }

  /**
    The pair reader as written: it reads the first byte of a pair without
    looking for the terminator, so a pair count larger than the data steps
    the cursor past the terminator, where the next read falls outside the
    buffer; that read is reported as Overrun.
   */
  function ReadPairsAsWritten(buf: seq<Byte>, cur: Cursor, n: nat, read: seq<Pair>): Result<PairsRead>
    decreases n
  {
    if n == 0 then Ok(PairsRead(read, cur))
    else if cur.pos + 1 > |buf| then Fail(Overrun(cur.pos + 1))
    else
      var first := Offset(At(buf, cur.pos));
      var mid := SkipNewLines(buf, Cursor(cur.pos + 1, cur.col));
      if At(buf, mid.pos) == NUL then Fail(Truncated)
      else
        var second := Offset(At(buf, mid.pos));
        var next := SkipNewLines(buf, Cursor(mid.pos + 1, mid.col));
        ReadPairsAsWritten(buf, next, n - 1, read + [Pair(first, second)])
  }

  /**
    A glyph that promises one more pair than the file holds: the reader as
    written steps past the terminator, the corrected one aborts.
   */
  lemma FirstReadPastTerminator()
    ensures ReadPairsAsWritten([82, 82], Cursor(0, 0), 2, []) == Fail(Overrun(3))
    ensures ReadPairs([82, 82], Cursor(0, 0), 2, []) == Fail(Truncated)
  {
    var buf: seq<Byte> := [82, 82];
    assert SkipNewLines(buf, Cursor(1, 0)) == Cursor(1, 0);
    assert SkipNewLines(buf, Cursor(2, 0)) == Cursor(2, 0);
    assert At(buf, 2) == NUL;
  }

  /** The corrected reader never steps past the terminator. */
  lemma {:induction false} ReadPairsStaysInBuffer(buf: seq<Byte>, cur: Cursor, n: nat, read: seq<Pair>)
    requires cur.pos <= |buf|
    ensures ReadPairs(buf, cur, n, read).Ok? ==> ReadPairs(buf, cur, n, read).value.next.pos <= |buf|
    decreases n
  {
    if n > 0 && At(buf, cur.pos) != NUL {
      var mid := SkipNewLines(buf, Cursor(cur.pos + 1, cur.col));
      SkipNewLinesInBuffer(buf, Cursor(cur.pos + 1, cur.col));
      if At(buf, mid.pos) != NUL {
        var next := SkipNewLines(buf, Cursor(mid.pos + 1, mid.col));
        SkipNewLinesInBuffer(buf, Cursor(mid.pos + 1, mid.col));
        var first, second := Offset(At(buf, cur.pos)), Offset(At(buf, mid.pos));
        ReadPairsStaysInBuffer(buf, next, n - 1, read + [Pair(first, second)]);
      }
    }
  }

  /**
    On a file without NUL bytes, the corrected reader aborts exactly where
    the reader as written overruns, and agrees with it everywhere else.
   */
  lemma {:induction false} ReadPairsCorrected(buf: seq<Byte>, cur: Cursor, n: nat, read: seq<Pair>)
    requires cur.pos <= |buf| && forall i :: 0 <= i < |buf| ==> buf[i] != NUL
    ensures var w := ReadPairsAsWritten(buf, cur, n, read);
      if w.Fail? && w.failure.Overrun? then ReadPairs(buf, cur, n, read) == Fail(Truncated)
      else ReadPairs(buf, cur, n, read) == w
    decreases n
  {
    if n > 0 && At(buf, cur.pos) != NUL {
      var mid := SkipNewLines(buf, Cursor(cur.pos + 1, cur.col));
      SkipNewLinesInBuffer(buf, Cursor(cur.pos + 1, cur.col));
      if At(buf, mid.pos) != NUL {
        var next := SkipNewLines(buf, Cursor(mid.pos + 1, mid.col));
        SkipNewLinesInBuffer(buf, Cursor(mid.pos + 1, mid.col));
        var first, second := Offset(At(buf, cur.pos)), Offset(At(buf, mid.pos));
        ReadPairsCorrected(buf, next, n - 1, read + [Pair(first, second)]);
      }
    }
  }

  /** A successful read returns the pairs already read followed by exactly n more. */
  lemma {:induction false} ReadPairsCount(buf: seq<Byte>, cur: Cursor, n: nat, read: seq<Pair>)
    ensures var r := ReadPairs(buf, cur, n, read);
      (r.Ok? ==> |r.value.pairs| == |read| + n && r.value.pairs[..|read|] == read)
      && (r.Fail? ==> r.failure == Truncated)
    decreases n
  {
    if n > 0 && At(buf, cur.pos) != NUL {
      var mid := SkipNewLines(buf, Cursor(cur.pos + 1, cur.col));
      if At(buf, mid.pos) != NUL {
        var next := SkipNewLines(buf, Cursor(mid.pos + 1, mid.col));
        var p := Pair(Offset(At(buf, cur.pos)), Offset(At(buf, mid.pos)));
        ReadPairsCount(buf, next, n - 1, read + [p]);
        var r := ReadPairs(buf, cur, n, read);
        if r.Ok? {
          assert r.value.pairs[..|read|] == r.value.pairs[..|read| + 1][..|read|];
        }
      }
    }
  }

  /** The pen: up or down, and the last point it moved to. */
  datatype Pen = Pen(up: bool, x: int, y: int)

  /** The pen starts up at (0, 0). */
  const START: Pen := Pen(true, 0, 0)

  /** The pen-up code read while the pen is down. */
  predicate Lifts(pen: Pen, p: Pair) {
    !pen.up && p == LIFT
  }

  /** The pen after reading p: it lifts on the pen-up code, otherwise it goes down at p. */
  function Step(pen: Pen, p: Pair): Pen {
    if Lifts(pen, p) then pen.(up := true) else Pen(false, p.first, p.second)
  }

  /** What reading p emits: a segment from the pen to p if the pen was down and p is not the pen-up code. */
  function Segment(pen: Pen, p: Pair): seq<int> {
    if pen.up || Lifts(pen, p) then [] else [pen.x, pen.y, p.first, p.second]
  }

  function PenAfter(pairs: seq<Pair>): Pen {
    if pairs == [] then START else Step(PenAfter(pairs[..|pairs| - 1]), pairs[|pairs| - 1])
  }

  /** The glyph's data: the segments emitted along the pairs (hershey.cpp:276-312). */
  function Strokes(pairs: seq<Pair>): (s: seq<int>)
    ensures |s| % 4 == 0
  {
    if pairs == [] then []
    else
      var front := pairs[..|pairs| - 1];
      Strokes(front) + Segment(PenAfter(front), pairs[|pairs| - 1])
  }

  /** The points the pen moved to: every pair except the pen-up codes. */
  function Moves(pairs: seq<Pair>): seq<Pair> {
    if pairs == [] then []
    else
      var front := pairs[..|pairs| - 1];
      Moves(front) + (if Lifts(PenAfter(front), pairs[|pairs| - 1]) then [] else [pairs[|pairs| - 1]])
  }

  /**
    The pen stays at the last point it moved to, and is up at (0, 0) before
    the first; the first pair is always a move. After that the pen is up
    exactly when the last pair read was not a move, and such a pair is the
    pen-up code: only that code lifts the pen.
   */
  lemma {:induction false} PenAtLastMove(pairs: seq<Pair>)
    ensures var pen, ms := PenAfter(pairs), Moves(pairs);
      (ms == [] <==> pairs == [])
      && (ms == [] ==> pen == START)
      && (ms != [] ==> Pair(pen.x, pen.y) == ms[|ms| - 1])
    ensures pairs != [] ==>
      var pen, front := PenAfter(pairs), pairs[..|pairs| - 1];
      (pen.up <==> Moves(pairs) == Moves(front))
      && (pen.up ==> pairs[|pairs| - 1] == LIFT)
  {
    if pairs != [] {
      var front := pairs[..|pairs| - 1];
      PenAtLastMove(front);
      if !Lifts(PenAfter(front), pairs[|pairs| - 1]) {
        assert |Moves(pairs)| == |Moves(front)| + 1;
      }
    }
  }

  /**
    Each segment joins two points the pen moved to: the point it stood on
    and the next one.
   */
  lemma {:induction false} StrokesJoinMoves(pairs: seq<Pair>)
    ensures var s, ms := Strokes(pairs), Moves(pairs);
      forall k :: 0 <= k && 4 * k + 3 < |s| ==>
           Pair(s[4 * k], s[4 * k + 1]) in ms && Pair(s[4 * k + 2], s[4 * k + 3]) in ms
  {
    if pairs != [] {
      var front, p := pairs[..|pairs| - 1], pairs[|pairs| - 1];
      StrokesJoinMoves(front);
      PenAtLastMove(front);
      var s0, ms0 := Strokes(front), Moves(front);
      var s, ms := Strokes(pairs), Moves(pairs);
      assert ms0 <= ms;
      var seg := Segment(PenAfter(front), p);
      forall k | 0 <= k && 4 * k + 3 < |s|
        ensures Pair(s[4 * k], s[4 * k + 1]) in ms && Pair(s[4 * k + 2], s[4 * k + 3]) in ms
      {
        if 4 * k < |s0| {
          assert s[4 * k + 3] == s0[4 * k + 3] && s[4 * k] == s0[4 * k];
        } else {
          assert seg != [] && 4 * k == |s0|;
          assert s[4 * k..] == seg;
          assert ms0 != [] && ms0[|ms0| - 1] in ms;
        }
      }
    }
  }

  /** The x and the y of each point. */
  function Xs(ms: seq<Pair>): seq<int> {
    if ms == [] then [] else Xs(ms[..|ms| - 1]) + [ms[|ms| - 1].first]
  }

  function Ys(ms: seq<Pair>): seq<int> {
    if ms == [] then [] else Ys(ms[..|ms| - 1]) + [ms[|ms| - 1].second]
  }

  lemma {:induction false} CoordinatesOf(ms: seq<Pair>, p: Pair)
    requires p in ms
    ensures p.first in Xs(ms) && p.second in Ys(ms)
  {
    var front := ms[..|ms| - 1];
    if p != ms[|ms| - 1] {
      assert p in front;
      CoordinatesOf(front, p);
    }
  }

  /** Every coordinate is a byte's offset from 'R', so it lies in -82 .. 173. */
  predicate OnGrid(ps: seq<Pair>) {
    forall i :: 0 <= i < |ps| ==>
      Offset(0) <= ps[i].first <= Offset(255) && Offset(0) <= ps[i].second <= Offset(255)
  }

  /** The pairs the reader returns are on the grid. */
  lemma {:induction false} ReadPairsOnGrid(buf: seq<Byte>, cur: Cursor, n: nat, read: seq<Pair>)
    requires OnGrid(read)
    ensures ReadPairs(buf, cur, n, read).Ok? ==> OnGrid(ReadPairs(buf, cur, n, read).value.pairs)
    decreases n
  {
    if n > 0 && At(buf, cur.pos) != NUL {
      var mid := SkipNewLines(buf, Cursor(cur.pos + 1, cur.col));
      if At(buf, mid.pos) != NUL {
        var next := SkipNewLines(buf, Cursor(mid.pos + 1, mid.col));
        var p := Pair(Offset(At(buf, cur.pos)), Offset(At(buf, mid.pos)));
        ReadPairsOnGrid(buf, next, n - 1, read + [p]);
      }
    }
  }

  /** The points the pen moved to are pairs read, so they are on the grid too. */
  lemma {:induction false} MovesOnGrid(pairs: seq<Pair>)
    requires OnGrid(pairs)
    ensures OnGrid(Moves(pairs))
  {
    if pairs != [] {
      var front := pairs[..|pairs| - 1];
      assert OnGrid(front) by {
        forall i | 0 <= i < |front| ensures front[i] == pairs[i] { }
      }
      MovesOnGrid(front);
    }
  }

  /** Xs takes the x of each point, in order. */
  lemma {:induction false} XsOf(ms: seq<Pair>)
    ensures |Xs(ms)| == |ms| && forall i :: 0 <= i < |ms| ==> Xs(ms)[i] == ms[i].first
  {
    if ms != [] {
      XsOf(ms[..|ms| - 1]);
    }
  }

  /** The x of the points moved to along pairs on the grid lie in -82 .. 173. */
  lemma VisitedOnGrid(pairs: seq<Pair>)
    requires OnGrid(pairs)
    ensures forall v :: v in Xs(Moves(pairs)) ==> Offset(0) <= v <= Offset(255)
  {
    var ms := Moves(pairs);
    MovesOnGrid(pairs);
    XsOf(ms);
    forall v | v in Xs(ms) ensures Offset(0) <= v <= Offset(255) {
      var i :| 0 <= i < |Xs(ms)| && Xs(ms)[i] == v;
    }
  }

  /** The running minimum from start; a value it never drops below is a lower bound of all of s. */
  function Least(start: int, s: seq<int>): int {
    if s == [] then start
    else
      var m := Least(start, s[..|s| - 1]);
      if m > s[|s| - 1] then s[|s| - 1] else m
  }

  /** The running maximum from start. */
  function Greatest(start: int, s: seq<int>): int {
    if s == [] then start
    else
      var m := Greatest(start, s[..|s| - 1]);
      if m < s[|s| - 1] then s[|s| - 1] else m
  }

  /** Least is the minimum of start and s; Greatest the maximum. */
  lemma {:induction false} LeastGreatest(start: int, s: seq<int>)
    ensures Least(start, s) <= start && forall v :: v in s ==> Least(start, s) <= v
    ensures Least(start, s) == start || Least(start, s) in s
    ensures Greatest(start, s) >= start && forall v :: v in s ==> Greatest(start, s) >= v
    ensures Greatest(start, s) == start || Greatest(start, s) in s
  {
    if s != [] {
      var front := s[..|s| - 1];
      LeastGreatest(start, front);
      assert s == front + [s[|s| - 1]];
    }
  }

  /** Everything the pair loop keeps for one glyph. */
  datatype Trace = Trace(next: Cursor, data: seq<int>, minX: int, maxX: int, minY: int, maxY: int)

  /**
    What the pair loop yields after reading `pairs` from the glyph's
    running start values: its segments, the extent in x of the points
    visited (from 200 and -200) and the font's extent in y so far.
   */
  function TraceOf(pr: PairsRead, minY: int, maxY: int): Trace {
    var ys := Ys(Moves(pr.pairs));
    Trace(pr.next, Strokes(pr.pairs), Least(200, Xs(Moves(pr.pairs))), Greatest(-200, Xs(Moves(pr.pairs))),
          Least(minY, ys), Greatest(maxY, ys))
  }

  /**
    The pair loop (hershey.cpp:251-314) with its pen state machine and the
    running extents, proved to read the pairs ReadPairs reads and to emit
    their Strokes.
   */
  method ScanPairs(buf: seq<Byte>, cur: Cursor, pairs: int, miny: int, maxy: int) returns (r: Result<Trace>)
    ensures var n := if pairs > 0 then pairs else 0;
      match ReadPairs(buf, cur, n, [])
      case Fail(f) => r == Fail(f)
      case Ok(pr) => r == Ok(TraceOf(pr, miny, maxy))
  {
    var remaining := pairs;
    var c := cur;
    var penup, x, y := true, 0, 0;
    var lminx, lmaxx := 200, -200;
    var gd: seq<int> := [];
    var minY, maxY := miny, maxy;
    ghost var read: seq<Pair> := [];
    ghost var n: nat := if pairs > 0 then pairs else 0;
    while remaining > 0
      invariant ReadPairs(buf, c, if remaining > 0 then remaining else 0, read) == ReadPairs(buf, cur, n, [])
      invariant Pen(penup, x, y) == PenAfter(read) && gd == Strokes(read)
      invariant lminx == Least(200, Xs(Moves(read))) && lmaxx == Greatest(-200, Xs(Moves(read)))
      invariant minY == Least(miny, Ys(Moves(read))) && maxY == Greatest(maxy, Ys(Moves(read)))
      decreases remaining
    {
      if At(buf, c.pos) == NUL {
        return Fail(Truncated);
      }
      var first := Offset(At(buf, c.pos));
      c := c.(pos := c.pos + 1);
      c := ScanNewLines(buf, c);
      if At(buf, c.pos) == NUL {
        return Fail(Truncated);
      }
      var second := Offset(At(buf, c.pos));
      c := c.(pos := c.pos + 1);
      c := ScanNewLines(buf, c);
      remaining := remaining - 1;
      ghost var p := Pair(first, second);
      PairStep(read, p);
      read := read + [p];
      if !penup {
        if first == SPACE - ORIGIN && second == 0 {
          penup := true;
        } else {
          gd := gd + [x, y, first, second];
          x, y := first, second;
          if minY > y { minY := y; }
          if maxY < y { maxY := y; }
          if lminx > x { lminx := x; }
          if lmaxx < x { lmaxx := x; }
        }
      } else {
        penup := false;
        x, y := first, second;
        if minY > y { minY := y; }
        if maxY < y { maxY := y; }
        if lminx > x { lminx := x; }
        if lmaxx < x { lmaxx := x; }
      }
    }
    return Ok(Trace(c, gd, lminx, lmaxx, minY, maxY));
  }

  /** Reading one more pair extends every fold by one step. */
  lemma PairStep(read: seq<Pair>, p: Pair)
    ensures var pen, all := PenAfter(read), read + [p];
      all[..|all| - 1] == read
      && PenAfter(all) == Step(pen, p)
      && Strokes(all) == Strokes(read) + Segment(pen, p)
      && Moves(all) == Moves(read) + (if Lifts(pen, p) then [] else [p])
      && (Lifts(pen, p) ==> Xs(Moves(all)) == Xs(Moves(read)) && Ys(Moves(all)) == Ys(Moves(read)))
      && (!Lifts(pen, p) ==> Xs(Moves(all)) == Xs(Moves(read)) + [p.first] && Ys(Moves(all)) == Ys(Moves(read)) + [p.second])
  {
    var all := read + [p];
    assert all[..|all| - 1] == read;
    if !Lifts(PenAfter(read), p) {
      var ms := Moves(read) + [p];
      assert ms[..|ms| - 1] == Moves(read);
    } else {
      assert Moves(all) == Moves(read) + [] == Moves(read);
    }
  }
}
