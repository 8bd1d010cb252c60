/**
  The Hershey font reader's main loop (priv/hershey/hershey.cpp:157-350), its
  normalisation pass (354-361) and the totals it prints (394-396).

  The reader walks the zero-terminated file glyph by glyph. Each glyph is
  read as follows:
  - a glyph number in the first five columns;
  - a pair count before column eight;
  - two bearing bytes;
  - the coordinate pairs.
  Each glyph pushes one entry onto the parallel vectors glyph, width, minx,
  realwidth and gd (the data). Here one Glyph value holds one such entry.
 */
module HersheyFont {
  import opened HersheyScan
  import opened HersheyPen

  /** C's abs. */
  function Abs(v: int): nat {
    if v < 0 then -v else v
  }

  /** One glyph: its number, the width from its bearings, minx, realwidth and its segment data. */
  datatype Glyph = Glyph(number: int, width: int, minx: int, realwidth: int, data: seq<int>)

  /** A glyph whose data is one segment of length zero. */
  predicate Degenerate(data: seq<int>) {
    |data| == 4 && data[0] == data[2] && data[1] == data[3]
  }

  /**
    The end of a glyph (hershey.cpp:318-338). A glyph that drew nothing gets
    the segment (0, 0, 0, 0). A degenerate glyph reports minx 0 and its
    bearing width as its extent; any other glyph reports the extent in x of
    the points its pen visited.
   */
  function Complete(number: int, width: int, t: Trace): (g: Glyph)
    requires |t.data| % 4 == 0 && width >= 0
    ensures |g.data| % 4 == 0 && |g.data| >= 4
    ensures g.number == number && g.width == width
    ensures Degenerate(g.data) ==> g.minx == 0 && g.realwidth == width
  {
    var data := if |t.data| < 4 then t.data + [0, 0, 0, 0] else t.data;
    var lminx := if Degenerate(data) then 0 else t.minX;
    var lmaxx := if Degenerate(data) then width else t.maxX;
    Glyph(number, width, lminx, Abs(lmaxx) + Abs(lminx), data)
  }

  /** The pair count includes the bearings; the loop reads the rest (hershey.cpp:251, 259). */
  function PairsAfterBearings(count: int): nat {
    if count - 1 > 0 then count - 1 else 0
  }

  /** A glyph's header: its number, its pair count, its width and where its pairs start. */
  datatype Header = Header(number: int, count: int, width: int, next: Cursor)

  /**
    The header of a glyph (hershey.cpp:177-242): blanks, the glyph number
    (columns below 5), blanks, the pair count (columns below 8), blanks that
    do not count columns, then the two bearing bytes, whose offsets from 'R'
    give the width. A glyph number of 0 (no digit) is an error, and the
    terminator at a bearing or right after them aborts.
   */
  function HeaderAt(buf: seq<Byte>, cur: Cursor, index: nat): (r: Result<Header>)
    ensures r.Ok? ==> cur.pos < r.value.next.pos && r.value.number >= 1 && r.value.width >= 0
    ensures r.Ok? && cur.col >= 0 ==> r.value.next.col >= 0
  {
    var numbered := ReadDigits(buf, SkipBlanks(buf, cur), 5, 0);
    if numbered.value == 0 then Fail(BadGlyphNumber(index, numbered.next.col))
    else
      var counted := ReadDigits(buf, SkipBlanks(buf, numbered.next), 8, 0);
      var p := SkipBlanksQuietly(buf, counted.next.pos);
      if At(buf, p) == NUL || At(buf, p + 1) == NUL || At(buf, p + 2) == NUL then Fail(Truncated)
      else
        var width := Abs(Offset(At(buf, p + 1))) + Abs(Offset(At(buf, p)));
        Ok(Header(numbered.value, counted.value, width, Cursor(p + 2, counted.next.col)))
  }

  /** One glyph read, with where the cursor stopped and the font's extent in y so far. */
  datatype Parsed = Parsed(glyph: Glyph, next: Cursor, minY: int, maxY: int)

  /**
    One pass of the main loop (hershey.cpp:177-347) at cursor cur, with index
    glyphs already read and the font's running extent in y.
   */
  function GlyphAt(buf: seq<Byte>, cur: Cursor, index: nat, minY: int, maxY: int): (r: Result<Parsed>)
    ensures r.Ok? ==> cur.pos < r.value.next.pos
    ensures r.Ok? ==> |r.value.glyph.data| % 4 == 0 && |r.value.glyph.data| >= 4
    ensures r.Ok? && cur.col >= 0 ==> r.value.next.col >= 0
  {
    match HeaderAt(buf, cur, index)
    case Fail(f) => Fail(f)
    case Ok(h) =>
      match ReadPairs(buf, h.next, PairsAfterBearings(h.count), [])
      case Fail(f) => Fail(f)
      case Ok(pr) =>
        var t := TraceOf(pr, minY, maxY);
        Ok(Parsed(Complete(h.number, h.width, t), SkipControls(buf, t.next), t.minY, t.maxY))
  }

  /** The glyphs read so far and the font's extent in y. */
  datatype Scan = Scan(glyphs: seq<Glyph>, minY: int, maxY: int)

  /** The main loop (hershey.cpp:173-350): glyph after glyph until the terminator. */
  function Glyphs(buf: seq<Byte>, cur: Cursor, glyphs: seq<Glyph>, minY: int, maxY: int): Result<Scan>
    decreases |buf| - cur.pos
  {
    if At(buf, cur.pos) == NUL then Ok(Scan(glyphs, minY, maxY))
    else
      match GlyphAt(buf, cur, |glyphs|, minY, maxY)
      case Fail(f) => Fail(f)
      case Ok(st) => Glyphs(buf, st.next, glyphs + [st.glyph], st.minY, st.maxY)
  }

  /** A glyph's data moved by (-dx, -dy): x at even positions, y at odd ones. */
  function ShiftedData(data: seq<int>, dx: int, dy: int): (r: seq<int>)
    ensures |r| == |data|
  {
    seq(|data|, i requires 0 <= i < |data| => data[i] - (if i % 2 == 0 then dx else dy))
  }

  /** The normalisation of one glyph (hershey.cpp:356-360): its own minx, the font's miny. */
  function Shifted(g: Glyph, minY: int): Glyph {
    g.(data := ShiftedData(g.data, g.minx, minY))
  }

  /** The tables the reader prints: the normalised glyphs, their count and the font's height. */
  datatype Font = Font(glyphs: seq<Glyph>, count: nat, height: int)

  /** Normalisation and totals (hershey.cpp:354-361, 394-396) over what the main loop read. */
  function Normalised(s: Scan): (f: Font)
    ensures f.count == |f.glyphs| == |s.glyphs| && f.height == Abs(s.minY) + Abs(s.maxY)
    ensures forall i :: 0 <= i < |s.glyphs| ==> f.glyphs[i] == Shifted(s.glyphs[i], s.minY)
  {
    Font(seq(|s.glyphs|, i requires 0 <= i < |s.glyphs| => Shifted(s.glyphs[i], s.minY)),
         |s.glyphs|, Abs(s.minY) + Abs(s.maxY))
  }

  /** The whole reader: from 200 and -200 as the font's extent in y, then normalisation and totals. */
  function Decode(buf: seq<Byte>): Result<Font> {
    match Glyphs(buf, Cursor(0, 0), [], 200, -200)
    case Fail(f) => Fail(f)
    case Ok(s) => Ok(Normalised(s))
  }

  /** The header part of the main loop's body (hershey.cpp:177-242). */
  method ScanHeader(buf: seq<Byte>, cur: Cursor, index: nat) returns (r: Result<Header>)
    ensures r == HeaderAt(buf, cur, index)
  {
    var c := ScanBlanks(buf, cur);
    var glyphno, c1 := ScanDigits(buf, c, 5);
    if glyphno == 0 {
      return Fail(BadGlyphNumber(index, c1.col));
    }
    c := ScanBlanks(buf, c1);
    var pairs, c2 := ScanDigits(buf, c, 8);
    var p := ScanBlanksQuietly(buf, c2.pos);
    if At(buf, p) == NUL {
      return Fail(Truncated);
    }
    var left := Offset(At(buf, p));
    p := p + 1;
    if At(buf, p) == NUL {
      return Fail(Truncated);
    }
    var right := Offset(At(buf, p));
    p := p + 1;
    if At(buf, p) == NUL {
      return Fail(Truncated);
    }
    return Ok(Header(glyphno, pairs, Abs(right) + Abs(left), Cursor(p, c2.col)));
  }

  /** The body of the main loop for one glyph (hershey.cpp:177-347). */
  method DecodeGlyph(buf: seq<Byte>, cur: Cursor, index: nat, miny: int, maxy: int) returns (r: Result<Parsed>)
    ensures r == GlyphAt(buf, cur, index, miny, maxy)
  {
    var header := ScanHeader(buf, cur, index);
    if header.Fail? {
      return Fail(header.failure);
    }
    var h := header.value;
    var traced := ScanPairs(buf, h.next, h.count - 1, miny, maxy);
    if traced.Fail? {
      return Fail(traced.failure);
    }
    var t := traced.value;
    var g := Complete(h.number, h.width, t);
    var next := ScanControls(buf, t.next);
    return Ok(Parsed(g, next, t.minY, t.maxY));
  }

  /** The glyphs held in the reader's parallel vectors. */
  predicate Holds(glyphs: seq<Glyph>, glyph: seq<int>, width: seq<int>, minx: seq<int>,
                  realwidth: seq<int>, gd: seq<seq<int>>)
  {
    |glyph| == |width| == |minx| == |realwidth| == |gd| == |glyphs|
    && forall i :: 0 <= i < |glyphs| ==>
         glyphs[i] == Glyph(glyph[i], width[i], minx[i], realwidth[i], gd[i])
  }

  /**
    The normalisation loop (hershey.cpp:354-361), rewriting every glyph's
    data in place: x less the glyph's minx, y less the font's miny.
   */
  method Normalise(gd: seq<seq<int>>, minx: seq<int>, miny: int) returns (out: seq<seq<int>>)
    requires |minx| == |gd| && forall g :: 0 <= g < |gd| ==> |gd[g]| % 2 == 0
    ensures |out| == |gd| && forall g :: 0 <= g < |gd| ==> out[g] == ShiftedData(gd[g], minx[g], miny)
  {
    out := gd;
    var gc := 0;
    while gc < |out|
      invariant gc <= |out| == |gd|
      invariant forall g :: 0 <= g < gc ==> out[g] == ShiftedData(gd[g], minx[g], miny)
      invariant forall g :: gc <= g < |gd| ==> out[g] == gd[g]
    {
      var d := out[gc];
      var i := 0;
      while i < |d|
        invariant i % 2 == 0 && i <= |d| == |gd[gc]|
        invariant forall j :: 0 <= j < i ==> d[j] == ShiftedData(gd[gc], minx[gc], miny)[j]
        invariant forall j :: i <= j < |d| ==> d[j] == gd[gc][j]
      {
        d := d[i := d[i] - minx[gc]];
        d := d[i + 1 := d[i + 1] - miny];
        i := i + 2;
      }
      out := out[gc := d];
      gc := gc + 1;
    }
  }

  /** What Decode makes of the main loop's result. */
  lemma DecodeOfScan(buf: seq<Byte>, glyphs: seq<Glyph>, miny: int, maxy: int)
    requires Glyphs(buf, Cursor(0, 0), [], 200, -200) == Ok(Scan(glyphs, miny, maxy))
    ensures var d := Decode(buf);
      d.Ok? && d.value.count == |d.value.glyphs| == |glyphs| && d.value.height == Abs(miny) + Abs(maxy)
      && forall i :: 0 <= i < |glyphs| ==> d.value.glyphs[i] == Shifted(glyphs[i], miny)
  {
  }

  /** Appending a decoded glyph to every table keeps them in step. */
  lemma HoldsAppend(glyphs: seq<Glyph>, glyph: seq<int>, width: seq<int>, minx: seq<int>,
                    realwidth: seq<int>, gd: seq<seq<int>>, g: Glyph)
    requires Holds(glyphs, glyph, width, minx, realwidth, gd)
    requires forall k :: 0 <= k < |gd| ==> |gd[k]| % 2 == 0
    requires |g.data| % 4 == 0
    ensures Holds(glyphs + [g], glyph + [g.number], width + [g.width], minx + [g.minx],
                  realwidth + [g.realwidth], gd + [g.data])
    ensures forall k :: 0 <= k < |gd| + 1 ==> |(gd + [g.data])[k]| % 2 == 0
  {
    FourIsEven(|g.data|);
  }

  lemma FourIsEven(n: int)
    requires n % 4 == 0
    ensures n % 2 == 0
  {
    var k := n / 4;
    assert n == 4 * k;
    assert n == 2 * (2 * k);
  }

  /** The reader's parallel vectors and the font's extent in y. */
  datatype Tables = Tables(glyph: seq<int>, width: seq<int>, minx: seq<int>, realwidth: seq<int>,
                           gd: seq<seq<int>>, miny: int, maxy: int)

  /** The main loop (hershey.cpp:157-350), pushing each glyph onto the parallel vectors. */
  method ScanGlyphs(buf: seq<Byte>) returns (r: Result<Tables>)
    ensures match Glyphs(buf, Cursor(0, 0), [], 200, -200)
      case Fail(f) => r == Fail(f)
      case Ok(s) =>
        r.Ok? && Holds(s.glyphs, r.value.glyph, r.value.width, r.value.minx, r.value.realwidth, r.value.gd)
        && r.value.miny == s.minY && r.value.maxy == s.maxY
    ensures r.Ok? ==> forall g :: 0 <= g < |r.value.gd| ==> |r.value.gd[g]| % 2 == 0
  {
    var c := Cursor(0, 0);
    var gd: seq<seq<int>> := [];
    var glyph, width, minx, realwidth: seq<int> := [], [], [], [];
    var miny, maxy := 200, -200;
    ghost var glyphs: seq<Glyph> := [];
    while At(buf, c.pos) != NUL
      invariant Holds(glyphs, glyph, width, minx, realwidth, gd)
      invariant forall g :: 0 <= g < |gd| ==> |gd[g]| % 2 == 0
      invariant Glyphs(buf, c, glyphs, miny, maxy) == Glyphs(buf, Cursor(0, 0), [], 200, -200)
      decreases |buf| - c.pos
    {
      var step := DecodeGlyph(buf, c, |gd|, miny, maxy);
      match step {
        case Fail(f) =>
          return Fail(f);
        case Ok(st) =>
          HoldsAppend(glyphs, glyph, width, minx, realwidth, gd, st.glyph);
          glyphs := glyphs + [st.glyph];
          gd := gd + [st.glyph.data];
          glyph := glyph + [st.glyph.number];
          width := width + [st.glyph.width];
          minx := minx + [st.glyph.minx];
          realwidth := realwidth + [st.glyph.realwidth];
          c, miny, maxy := st.next, st.minY, st.maxY;
      }
    }
    assert Glyphs(buf, c, glyphs, miny, maxy) == Ok(Scan(glyphs, miny, maxy));
    return Ok(Tables(glyph, width, minx, realwidth, gd, miny, maxy));
  }

  /**
    The reader (hershey.cpp:157-361, 394-396): the main loop, then the
    normalisation of the data in place, the glyph count and the height.
   */
  method DecodeFont(buf: seq<Byte>) returns (r: Result<Font>)
    ensures r == Decode(buf)
  {
    var scanned := ScanGlyphs(buf);
    if scanned.Fail? {
      return Fail(scanned.failure);
    }
    var t := scanned.value;
    var gd := Normalise(t.gd, t.minx, t.miny);
    DecodeOfTables(buf, t, gd);
    r := Ok(Font(Assemble(t, gd), |gd|, Abs(t.miny) + Abs(t.maxy)));
  }

  /** The glyphs as the tables print them, with the normalised data gd. */
  function Assemble(t: Tables, gd: seq<seq<int>>): (r: seq<Glyph>)
    requires |t.glyph| == |t.width| == |t.minx| == |t.realwidth| == |gd|
    ensures |r| == |gd|
  {
    seq(|gd|, i requires 0 <= i < |gd| => Glyph(t.glyph[i], t.width[i], t.minx[i], t.realwidth[i], gd[i]))
  }

  /** The tables of a successful main loop, normalised, are what Decode returns. */
  lemma DecodeOfTables(buf: seq<Byte>, t: Tables, gd: seq<seq<int>>)
    requires Glyphs(buf, Cursor(0, 0), [], 200, -200).Ok?
    requires var s := Glyphs(buf, Cursor(0, 0), [], 200, -200).value;
      Holds(s.glyphs, t.glyph, t.width, t.minx, t.realwidth, t.gd) && t.miny == s.minY && t.maxy == s.maxY
    requires |gd| == |t.gd| && forall g :: 0 <= g < |gd| ==> gd[g] == ShiftedData(t.gd[g], t.minx[g], t.miny)
    ensures Decode(buf) == Ok(Font(Assemble(t, gd), |gd|, Abs(t.miny) + Abs(t.maxy)))
  {
    var glyphs := Glyphs(buf, Cursor(0, 0), [], 200, -200).value.glyphs;
    DecodeOfScan(buf, glyphs, t.miny, t.maxy);
    var d := Decode(buf).value;
    var a := Assemble(t, gd);
    forall i | 0 <= i < |gd| ensures d.glyphs[i] == a[i] {
      assert glyphs[i] == Glyph(t.glyph[i], t.width[i], t.minx[i], t.realwidth[i], t.gd[i]);
    }
    assert d.glyphs == a;
  }

  /** Every glyph's data comes in segments of four. */
  lemma {:induction false} GlyphsInFours(buf: seq<Byte>, cur: Cursor, glyphs: seq<Glyph>, minY: int, maxY: int)
    requires forall i :: 0 <= i < |glyphs| ==> |glyphs[i].data| % 4 == 0 && |glyphs[i].data| >= 4
    ensures var r := Glyphs(buf, cur, glyphs, minY, maxY);
      r.Ok? ==> forall i :: 0 <= i < |r.value.glyphs| ==> |r.value.glyphs[i].data| % 4 == 0 && |r.value.glyphs[i].data| >= 4
    decreases |buf| - cur.pos
  {
    if At(buf, cur.pos) != NUL {
      var step := GlyphAt(buf, cur, |glyphs|, minY, maxY);
      if step.Ok? {
        var st := step.value;
        var more := glyphs + [st.glyph];
        forall i | 0 <= i < |more| ensures |more[i].data| % 4 == 0 && |more[i].data| >= 4 {
          if i < |glyphs| {
            assert more[i] == glyphs[i];
          }
        }
        GlyphsInFours(buf, st.next, more, st.minY, st.maxY);
      }
    }
  }

  /**
    A glyph number is one to five digits read before column 5; a header
    read from a column >= 0 has a number in 1 .. 99999.
   */
  lemma GlyphNumberDigits(buf: seq<Byte>, cur: Cursor, index: nat)
    requires cur.pos <= |buf| && cur.col >= 0
    ensures HeaderAt(buf, cur, index).Ok? ==> 1 <= HeaderAt(buf, cur, index).value.number < 100000
  {
    var c1 := SkipBlanks(buf, cur);
    SkipBlanksMeaning(buf, cur);
    if c1.col <= 5 {
      NumberBound(buf, c1, 5);
      assert Pow10(5 - c1.col) <= Pow10(5) by { Pow10Monotone(5 - c1.col, 5); }
    }
  }

  /**
    After normalisation nothing is left of a glyph's x below its minx or of
    a y below the font's miny, unless the glyph is degenerate.
   */
  predicate Grounded(g: Glyph, minY: int) {
    !Degenerate(g.data) ==>
      forall j :: 0 <= j < |g.data| ==> g.data[j] >= (if j % 2 == 0 then g.minx else minY)
  }

  /**
    A glyph that is not degenerate holds only segments between points its
    pen visited: its x are at least its minx, its y at least the font's
    running miny after it, which never grows.
   */
  lemma GlyphGrounded(buf: seq<Byte>, cur: Cursor, index: nat, minY: int, maxY: int)
    ensures var r := GlyphAt(buf, cur, index, minY, maxY);
      r.Ok? ==> Grounded(r.value.glyph, r.value.minY) && r.value.minY <= minY && r.value.maxY >= maxY
  {
    var r := GlyphAt(buf, cur, index, minY, maxY);
    if r.Ok? {
      var h := HeaderAt(buf, cur, index).value;
      var pr := ReadPairs(buf, h.next, PairsAfterBearings(h.count), []).value;
      TraceGrounded(pr, minY, maxY, h.number, h.width);
    }
  }

  /**
    The extent a glyph that is not degenerate reports (hershey.cpp:297-338):
    minx is the least x its pen moved to, and realwidth is abs of the
    greatest such x plus abs of minx. The start values 200 and -200 never
    survive, since every x is a byte's offset from 'R'.
   */
  lemma GlyphExtent(buf: seq<Byte>, cur: Cursor, index: nat, minY: int, maxY: int)
    ensures var r := GlyphAt(buf, cur, index, minY, maxY);
      r.Ok? && !Degenerate(r.value.glyph.data) ==>
        var h := HeaderAt(buf, cur, index).value;
        var xs := Xs(Moves(ReadPairs(buf, h.next, PairsAfterBearings(h.count), []).value.pairs));
        var g, hi := r.value.glyph, Greatest(-200, xs);
        g.minx in xs && hi in xs
        && (forall v :: v in xs ==> g.minx <= v <= hi)
        && g.realwidth == Abs(hi) + Abs(g.minx)
  {
    var r := GlyphAt(buf, cur, index, minY, maxY);
    if r.Ok? && !Degenerate(r.value.glyph.data) {
      var h := HeaderAt(buf, cur, index).value;
      var pr := ReadPairs(buf, h.next, PairsAfterBearings(h.count), []).value;
      ReadPairsOnGrid(buf, h.next, PairsAfterBearings(h.count), []);
      TraceExtent(pr, minY, maxY, h.number, h.width);
    }
  }

  /** GlyphExtent for the glyph completed from one trace of pairs on the grid. */
  lemma TraceExtent(pr: PairsRead, minY: int, maxY: int, number: int, width: int)
    requires width >= 0 && OnGrid(pr.pairs)
    ensures var g, xs := Complete(number, width, TraceOf(pr, minY, maxY)), Xs(Moves(pr.pairs));
      !Degenerate(g.data) ==>
        var hi := Greatest(-200, xs);
        g.minx in xs && hi in xs
        && (forall v :: v in xs ==> g.minx <= v <= hi)
        && g.realwidth == Abs(hi) + Abs(g.minx)
  {
    var t := TraceOf(pr, minY, maxY);
    var g := Complete(number, width, t);
    var ms := Moves(pr.pairs);
    var xs := Xs(ms);
    if !Degenerate(g.data) {
      assert |t.data| >= 4 && g.data == t.data == Strokes(pr.pairs);
      assert g.minx == Least(200, xs) && g.realwidth == Abs(Greatest(-200, xs)) + Abs(g.minx);
      SegmentVisited(pr.pairs, 0);
      VisitedOnGrid(pr.pairs);
      LeastGreatest(200, xs);
      LeastGreatest(-200, xs);
      assert g.data[0] in xs;
    }
  }

  /** GlyphGrounded for the glyph completed from one trace. */
  lemma TraceGrounded(pr: PairsRead, minY: int, maxY: int, number: int, width: int)
    requires width >= 0
    ensures var t := TraceOf(pr, minY, maxY);
      Grounded(Complete(number, width, t), t.minY) && t.minY <= minY && t.maxY >= maxY
  {
    var t := TraceOf(pr, minY, maxY);
    var ms := Moves(pr.pairs);
    LeastGreatest(minY, Ys(ms));
    LeastGreatest(maxY, Ys(ms));
    LeastGreatest(200, Xs(ms));
    var g := Complete(number, width, t);
    if !Degenerate(g.data) {
      assert |t.data| >= 4 && g.data == t.data && g.minx == Least(200, Xs(ms));
      forall j | 0 <= j < |g.data| ensures g.data[j] >= (if j % 2 == 0 then g.minx else t.minY) {
        EntryFromMove(pr.pairs, j);
      }
    }
  }

  /** Each entry of the data is a coordinate of a point the pen visited: x at even positions, y at odd. */
  lemma EntryFromMove(pairs: seq<Pair>, j: nat)
    requires j < |Strokes(pairs)|
    ensures var s, ms := Strokes(pairs), Moves(pairs);
      if j % 2 == 0 then s[j] in Xs(ms) else s[j] in Ys(ms)
  {
    var s, ms := Strokes(pairs), Moves(pairs);
    var k := Quarter(j, |s|);
    SegmentVisited(pairs, k);
    if j == 4 * k {
      assert s[j] == s[4 * k];
    } else if j == 4 * k + 1 {
      assert s[j] == s[4 * k + 1];
    } else if j == 4 * k + 2 {
      assert s[j] == s[4 * k + 2];
    } else {
      assert s[j] == s[4 * k + 3];
    }
  }

  /** Both ends of the k-th segment are points the pen moved to. */
  lemma SegmentVisited(pairs: seq<Pair>, k: nat)
    requires 4 * k + 3 < |Strokes(pairs)|
    ensures var s, ms := Strokes(pairs), Moves(pairs);
      s[4 * k] in Xs(ms) && s[4 * k + 1] in Ys(ms) && s[4 * k + 2] in Xs(ms) && s[4 * k + 3] in Ys(ms)
  {
    var s, ms := Strokes(pairs), Moves(pairs);
    StrokesJoinMoves(pairs);
    CoordinatesOf(ms, Pair(s[4 * k], s[4 * k + 1]));
    CoordinatesOf(ms, Pair(s[4 * k + 2], s[4 * k + 3]));
  }

  /** Index j below a multiple of four lies in the k-th group of four, and is even at its ends. */
  lemma {:induction false} Quarter(j: nat, n: nat) returns (k: nat)
    requires j < n && n % 4 == 0
    ensures 4 * k + 3 < n
    ensures j == 4 * k || j == 4 * k + 1 || j == 4 * k + 2 || j == 4 * k + 3
    ensures j % 2 == 0 <==> j == 4 * k || j == 4 * k + 2
    decreases j
  {
    if j < 4 {
      k := 0;
      assert n != 1 && n != 2 && n != 3;
    } else {
      var k' := Quarter(j - 4, n - 4);
      k := k' + 1;
      assert (j - 4) % 2 == j % 2;
    }
  }

  /** Every glyph the main loop reads is grounded on the font's final miny. */
  lemma {:induction false} GlyphsGrounded(buf: seq<Byte>, cur: Cursor, glyphs: seq<Glyph>, minY: int, maxY: int)
    requires forall i :: 0 <= i < |glyphs| ==> Grounded(glyphs[i], minY)
    ensures var r := Glyphs(buf, cur, glyphs, minY, maxY);
      r.Ok? ==> (r.value.minY <= minY && r.value.maxY >= maxY
                 && forall i :: 0 <= i < |r.value.glyphs| ==> Grounded(r.value.glyphs[i], r.value.minY))
    decreases |buf| - cur.pos
  {
    if At(buf, cur.pos) != NUL {
      var step := GlyphAt(buf, cur, |glyphs|, minY, maxY);
      if step.Ok? {
        var st := step.value;
        GlyphGrounded(buf, cur, |glyphs|, minY, maxY);
        var more := glyphs + [st.glyph];
        forall i | 0 <= i < |more| ensures Grounded(more[i], st.minY) {
          if i < |glyphs| {
            assert Grounded(glyphs[i], minY);
          }
        }
        GlyphsGrounded(buf, st.next, more, st.minY, st.maxY);
      }
    }
  }

  /**
    After normalisation every coordinate of a glyph that is not degenerate
    is at least 0.
   */
  lemma DecodeNonNegative(buf: seq<Byte>)
    ensures Decode(buf).Ok? ==>
      forall g :: g in Decode(buf).value.glyphs ==> !Degenerate(g.data) ==> forall v :: v in g.data ==> v >= 0
  {
    GlyphsGrounded(buf, Cursor(0, 0), [], 200, -200);
    var scan := Glyphs(buf, Cursor(0, 0), [], 200, -200);
    if scan.Ok? {
      var s := scan.value;
      DecodeOfScan(buf, s.glyphs, s.minY, s.maxY);
      var d := Decode(buf).value;
      forall g | g in d.glyphs && !Degenerate(g.data) ensures forall v :: v in g.data ==> v >= 0 {
        var i :| 0 <= i < |d.glyphs| && d.glyphs[i] == g;
        ShiftedNonNegative(s.glyphs[i], s.minY);
      }
    }
  }

  /** Shifting a grounded glyph leaves no coordinate below 0, and keeps it degenerate or not. */
  lemma ShiftedNonNegative(raw: Glyph, minY: int)
    requires Grounded(raw, minY)
    ensures Degenerate(Shifted(raw, minY).data) == Degenerate(raw.data)
    ensures !Degenerate(raw.data) ==> forall v :: v in Shifted(raw, minY).data ==> v >= 0
  {
    var g := Shifted(raw, minY);
    if |raw.data| == 4 {
      assert g.data[0] == raw.data[0] - raw.minx && g.data[2] == raw.data[2] - raw.minx;
      assert g.data[1] == raw.data[1] - minY && g.data[3] == raw.data[3] - minY;
    }
    if !Degenerate(raw.data) {
      forall v | v in g.data ensures v >= 0 {
        var j :| 0 <= j < |g.data| && g.data[j] == v;
        assert g.data[j] == raw.data[j] - (if j % 2 == 0 then raw.minx else minY);
      }
    }
  }

  /** Every glyph the reader reports has the shape Shaped states, and count is their number. */
  lemma DecodeShape(buf: seq<Byte>)
    ensures Decode(buf).Ok? ==> var f := Decode(buf).value;
      f.count == |f.glyphs| && forall g :: g in f.glyphs ==> Shaped(g)
  {
    GlyphsShaped(buf, Cursor(0, 0), []);
    var scan := Glyphs(buf, Cursor(0, 0), [], 200, -200);
    if scan.Ok? {
      var s := scan.value;
      DecodeOfScan(buf, s.glyphs, s.minY, s.maxY);
      var d := Decode(buf).value;
      forall g | g in d.glyphs ensures Shaped(g) {
        var i :| 0 <= i < |d.glyphs| && d.glyphs[i] == g;
        ShiftedShaped(s.glyphs[i], s.minY);
      }
    }
  }

  /** Normalisation changes coordinates only: a glyph keeps its shape. */
  lemma ShiftedShaped(raw: Glyph, minY: int)
    requires Shaped(raw)
    ensures Shaped(Shifted(raw, minY))
  {
    var g := Shifted(raw, minY);
    if |raw.data| == 4 {
      assert g.data[0] == raw.data[0] - raw.minx && g.data[2] == raw.data[2] - raw.minx;
      assert g.data[1] == raw.data[1] - minY && g.data[3] == raw.data[3] - minY;
    }
  }

  /**
    What the reader reports for every glyph: data in segments of four ints,
    at least one segment, a glyph number of one to five digits, and for a
    degenerate glyph minx 0 and its bearing width as realwidth.
   */
  predicate Shaped(g: Glyph) {
    |g.data| % 4 == 0 && |g.data| >= 4 && 1 <= g.number < 100000
    && (Degenerate(g.data) ==> g.minx == 0 && g.realwidth == g.width)
  }

  lemma {:induction false} GlyphsShaped(buf: seq<Byte>, cur: Cursor, glyphs: seq<Glyph>)
    requires cur.col >= 0
    requires forall i :: 0 <= i < |glyphs| ==> Shaped(glyphs[i])
    ensures forall minY, maxY :: var r := Glyphs(buf, cur, glyphs, minY, maxY);
      r.Ok? ==> forall i :: 0 <= i < |r.value.glyphs| ==> Shaped(r.value.glyphs[i])
    decreases |buf| - cur.pos
  {
    forall minY: int, maxY: int ensures var r := Glyphs(buf, cur, glyphs, minY, maxY);
      r.Ok? ==> forall i :: 0 <= i < |r.value.glyphs| ==> Shaped(r.value.glyphs[i])
    {
      if At(buf, cur.pos) != NUL {
        var step := GlyphAt(buf, cur, |glyphs|, minY, maxY);
        if step.Ok? {
          GlyphNumberDigits(buf, cur, |glyphs|);
          var st := step.value;
          assert Shaped(st.glyph);
          GlyphsShaped(buf, st.next, glyphs + [st.glyph]);
        }
      }
    }
  }
}
