/**
  Small fonts decoded by hand: a glyph with a stroke and a pen-up code, an
  empty glyph, a missing glyph number and a glyph cut off by the end of the
  file.
 */
module HersheyExamples {
  import opened HersheyScan
  import opened HersheyPen
  import opened HersheyFont

  /** A run of spaces from pos up to a byte that is no blank: the column counts each space. */
  lemma {:induction false} SpacesTo(buf: seq<Byte>, pos: nat, col: int, stop: nat)
    requires pos <= stop < |buf| && !Blank(buf[stop])
    requires forall i :: pos <= i < stop ==> buf[i] == SPACE
    ensures SkipBlanks(buf, Cursor(pos, col)) == Cursor(stop, col + stop - pos)
    decreases stop - pos
  {
    if pos < stop {
      SpacesTo(buf, pos + 1, col + 1, stop);
    }
  }

  /** A single digit in the last column a field allows. */
  lemma LastColumnDigit(buf: seq<Byte>, pos: nat, limit: int)
    requires pos < |buf| && Digit(buf[pos])
    ensures ReadDigits(buf, Cursor(pos, limit - 1), limit, 0) == Number(buf[pos] - DIGIT_ZERO, Cursor(pos + 1, limit))
  {
  }

  /**
    The header laid out as the font files lay it out for numbers below ten:
    the number in column 4, the count in column 7, the bearings in columns 8
    and 9.
   */
  predicate Columns(buf: seq<Byte>) {
    10 <= |buf| && buf[0] == SPACE && buf[1] == SPACE && buf[2] == SPACE && buf[3] == SPACE
    && Digit(buf[4]) && buf[5] == SPACE && buf[6] == SPACE && Digit(buf[7])
    && !Blank(buf[8]) && buf[8] != NUL && buf[9] != NUL
  }

  lemma HeaderColumns(buf: seq<Byte>)
    requires Columns(buf)
    ensures var numbered := ReadDigits(buf, SkipBlanks(buf, Cursor(0, 0)), 5, 0);
      numbered == Number(buf[4] - DIGIT_ZERO, Cursor(5, 5))
      && ReadDigits(buf, SkipBlanks(buf, numbered.next), 8, 0) == Number(buf[7] - DIGIT_ZERO, Cursor(8, 8))
      && SkipBlanksQuietly(buf, 8) == 8
  {
    SpacesTo(buf, 0, 0, 4);
    LastColumnDigit(buf, 4, 5);
    SpacesTo(buf, 5, 5, 7);
    LastColumnDigit(buf, 7, 8);
  }

  /** The header of such a glyph: its number, count and width, and its pairs start at column 8 of byte 10. */
  lemma HeaderOfColumns(buf: seq<Byte>, index: nat)
    requires Columns(buf) && buf[4] != DIGIT_ZERO && At(buf, 10) != NUL
    ensures HeaderAt(buf, Cursor(0, 0), index)
         == Ok(Header(buf[4] - DIGIT_ZERO, buf[7] - DIGIT_ZERO, Abs(Offset(buf[9])) + Abs(Offset(buf[8])), Cursor(10, 8)))
  {
    HeaderColumns(buf);
  }

  /** A pair written on one line: two bytes, neither followed by a newline. */
  lemma PairOnOneLine(buf: seq<Byte>, pos: nat, col: int, n: nat, read: seq<Pair>)
    requires pos + 1 < |buf| && buf[pos] != NUL && buf[pos + 1] != NUL && n > 0
    requires !NewLine(buf[pos + 1]) && !NewLine(At(buf, pos + 2))
    ensures ReadPairs(buf, Cursor(pos, col), n, read)
         == ReadPairs(buf, Cursor(pos + 2, col), n - 1, read + [Pair(Offset(buf[pos]), Offset(buf[pos + 1]))])
  {
    assert SkipNewLines(buf, Cursor(pos + 1, col)) == Cursor(pos + 1, col);
    assert SkipNewLines(buf, Cursor(pos + 2, col)) == Cursor(pos + 2, col);
  }

  /** A file holding one glyph: the main loop reads it and stops at the terminator after it. */
  lemma OnlyGlyph(buf: seq<Byte>, g: Glyph, next: Cursor, minY: int, maxY: int)
    requires At(buf, 0) != NUL && At(buf, next.pos) == NUL
    requires GlyphAt(buf, Cursor(0, 0), 0, 200, -200) == Ok(Parsed(g, next, minY, maxY))
    ensures Glyphs(buf, Cursor(0, 0), [], 200, -200) == Ok(Scan([g], minY, maxY))
  {
    assert [] + [g] == [g];
  }

  /** A font of one glyph: the tables hold that glyph, normalised, and the font's height. */
  lemma OnlyFont(buf: seq<Byte>, g: Glyph, minY: int, maxY: int, out: Glyph)
    requires Glyphs(buf, Cursor(0, 0), [], 200, -200) == Ok(Scan([g], minY, maxY))
    requires Shifted(g, minY) == out
    ensures Decode(buf) == Ok(Font([out], 1, Abs(minY) + Abs(maxY)))
  {
    NormalisedOne(g, minY, maxY, out);
  }

  lemma NormalisedOne(g: Glyph, minY: int, maxY: int, out: Glyph)
    requires Shifted(g, minY) == out
    ensures Normalised(Scan([g], minY, maxY)) == Font([out], 1, Abs(minY) + Abs(maxY))
  {
    var f := Normalised(Scan([g], minY, maxY));
    assert f.glyphs == [out] by {
      assert |f.glyphs| == 1 && f.glyphs[0] == out;
    }
  }

  /** "    1  4LXRRTR R": glyph 1, four pairs, bearings "LX", then "RR", "TR" and " R". */
  const STROKE: seq<Byte> := [32, 32, 32, 32, 49, 32, 32, 52, 76, 88, 82, 82, 84, 82, 32, 82]

  /** The bytes of STROKE, one by one. */
  predicate StrokeFile(buf: seq<Byte>) {
    |buf| == 16 && Columns(buf) && buf[4] == 49 && buf[7] == 52
    && buf[8] == 76 && buf[9] == 88 && buf[10] == 82 && buf[11] == 82
    && buf[12] == 84 && buf[13] == 82 && buf[14] == 32 && buf[15] == 82
  }

  lemma StrokeBytes()
    ensures StrokeFile(STROKE)
  {
  }

  lemma StrokeHeader(buf: seq<Byte>)
    requires StrokeFile(buf)
    ensures HeaderAt(buf, Cursor(0, 0), 0) == Ok(Header(1, 4, 12, Cursor(10, 8)))
  {
    HeaderOfColumns(buf, 0);
  }

  /** Each pair is two bytes on one line; the cursor's column stays where the bearings left it. */
  lemma StrokePairs(buf: seq<Byte>)
    requires StrokeFile(buf)
    ensures ReadPairs(buf, Cursor(10, 8), 3, []) == Ok(PairsRead([Pair(0, 0), Pair(2, 0), LIFT], Cursor(16, 8)))
  {
    PairOnOneLine(buf, 10, 8, 3, []);
    PairOnOneLine(buf, 12, 8, 2, [Pair(0, 0)]);
    PairOnOneLine(buf, 14, 8, 1, [Pair(0, 0), Pair(2, 0)]);
    assert [] + [Pair(0, 0)] == [Pair(0, 0)];
    assert [Pair(0, 0)] + [Pair(2, 0)] == [Pair(0, 0), Pair(2, 0)];
    assert [Pair(0, 0), Pair(2, 0)] + [LIFT] == [Pair(0, 0), Pair(2, 0), LIFT];
  }

  /** The pen goes down at (0, 0), draws to (2, 0) and lifts: one segment, two points visited. */
  lemma StrokeMoves()
    ensures var ps := [Pair(0, 0), Pair(2, 0), LIFT];
      Strokes(ps) == [0, 0, 2, 0] && Moves(ps) == [Pair(0, 0), Pair(2, 0)]
  {
    var one, two := [Pair(0, 0)], [Pair(0, 0), Pair(2, 0)];
    PairStep([], Pair(0, 0));
    assert [] + [Pair(0, 0)] == one;
    PairStep(one, Pair(2, 0));
    assert one + [Pair(2, 0)] == two;
    PairStep(two, LIFT);
    assert two + [LIFT] == [Pair(0, 0), Pair(2, 0), LIFT];
  }

  lemma StrokeCoordinates()
    ensures Xs([Pair(0, 0), Pair(2, 0)]) == [0, 2] && Ys([Pair(0, 0), Pair(2, 0)]) == [0, 0]
  {
    assert [Pair(0, 0), Pair(2, 0)][..1] == [Pair(0, 0)];
    assert [Pair(0, 0)][..0] == [];
  }

  lemma StrokeExtent()
    ensures Least(200, [0, 2]) == 0 && Greatest(-200, [0, 2]) == 2
    ensures Least(200, [0, 0]) == 0 && Greatest(-200, [0, 0]) == 0
  {
    assert [0, 2][..1] == [0] && [0, 0][..1] == [0] && [0][..0] == [];
  }

  lemma StrokeTrace()
    ensures TraceOf(PairsRead([Pair(0, 0), Pair(2, 0), LIFT], Cursor(16, 8)), 200, -200)
         == Trace(Cursor(16, 8), [0, 0, 2, 0], 0, 2, 0, 0)
  {
    StrokeMoves();
    StrokeCoordinates();
    StrokeExtent();
  }

  lemma StrokeGlyph(buf: seq<Byte>)
    requires StrokeFile(buf)
    ensures GlyphAt(buf, Cursor(0, 0), 0, 200, -200) == Ok(Parsed(Glyph(1, 12, 0, 2, [0, 0, 2, 0]), Cursor(16, 8), 0, 0))
  {
    StrokeHeader(buf);
    StrokePairs(buf);
    StrokeTrace();
    assert PairsAfterBearings(4) == 3;
    assert Complete(1, 12, Trace(Cursor(16, 8), [0, 0, 2, 0], 0, 2, 0, 0)) == Glyph(1, 12, 0, 2, [0, 0, 2, 0]);
    assert SkipControls(buf, Cursor(16, 8)) == Cursor(16, 8);
  }

  lemma StrokeScan(buf: seq<Byte>)
    requires StrokeFile(buf)
    ensures Glyphs(buf, Cursor(0, 0), [], 200, -200) == Ok(Scan([Glyph(1, 12, 0, 2, [0, 0, 2, 0])], 0, 0))
  {
    StrokeGlyph(buf);
    OnlyGlyph(buf, Glyph(1, 12, 0, 2, [0, 0, 2, 0]), Cursor(16, 8), 0, 0);
  }

  /** The whole font: one glyph, drawn from x = 0 at y = 0, so normalisation moves nothing and the height is 0. */
  lemma StrokeAndLift(buf: seq<Byte>)
    requires StrokeFile(buf)
    ensures Decode(buf) == Ok(Font([Glyph(1, 12, 0, 2, [0, 0, 2, 0])], 1, 0))
  {
    var g := Glyph(1, 12, 0, 2, [0, 0, 2, 0]);
    StrokeScan(buf);
    assert Shifted(g, 0) == g by {
      assert ShiftedData(g.data, 0, 0) == g.data;
    }
    OnlyFont(buf, g, 0, 0, g);
  }

  lemma StrokeDecoded()
    ensures Decode(STROKE) == Ok(Font([Glyph(1, 12, 0, 2, [0, 0, 2, 0])], 1, 0))
  {
    StrokeBytes();
    StrokeAndLift(STROKE);
  }

  /** "    1  1JZ\n": glyph 1 with bearings only. */
  const EMPTY: seq<Byte> := [32, 32, 32, 32, 49, 32, 32, 49, 74, 90, 10]

  /** The bytes of EMPTY, one by one. */
  predicate EmptyFile(buf: seq<Byte>) {
    |buf| == 11 && Columns(buf) && buf[4] == 49 && buf[7] == 49
    && buf[8] == 74 && buf[9] == 90 && buf[10] == LF
  }

  lemma EmptyBytes()
    ensures EmptyFile(EMPTY)
  {
  }

  /** The glyph: no pairs, so the data is padded; the line feed after it resets the column. */
  lemma EmptyGlyphAt(buf: seq<Byte>)
    requires EmptyFile(buf)
    ensures GlyphAt(buf, Cursor(0, 0), 0, 200, -200) == Ok(Parsed(Glyph(1, 16, 0, 16, [0, 0, 0, 0]), Cursor(11, 0), 200, -200))
  {
    HeaderOfColumns(buf, 0);
    assert PairsAfterBearings(1) == 0;
    assert ReadPairs(buf, Cursor(10, 8), 0, []) == Ok(PairsRead([], Cursor(10, 8)));
    NoPairs();
    assert SkipControls(buf, Cursor(10, 8)) == Cursor(11, 0) by {
      assert SkipControls(buf, Cursor(11, 0)) == Cursor(11, 0);
    }
  }

  /** No pairs: no point visited, so the extents keep their start values and the data is padded. */
  lemma NoPairs()
    ensures var t := TraceOf(PairsRead([], Cursor(10, 8)), 200, -200);
      t == Trace(Cursor(10, 8), [], 200, -200, 200, -200) && Complete(1, 16, t) == Glyph(1, 16, 0, 16, [0, 0, 0, 0])
  {
  }

  lemma EmptyScan(buf: seq<Byte>)
    requires EmptyFile(buf)
    ensures Glyphs(buf, Cursor(0, 0), [], 200, -200) == Ok(Scan([Glyph(1, 16, 0, 16, [0, 0, 0, 0])], 200, -200))
  {
    EmptyGlyphAt(buf);
    OnlyGlyph(buf, Glyph(1, 16, 0, 16, [0, 0, 0, 0]), Cursor(11, 0), 200, -200);
  }

  /**
    A glyph without pairs is padded to one segment from (0, 0) to (0, 0);
    that degenerate segment keeps the full width, and since no point set the
    font's extent in y, it is shifted by the start value 200.
   */
  lemma EmptyGlyph(buf: seq<Byte>)
    requires EmptyFile(buf)
    ensures Decode(buf) == Ok(Font([Glyph(1, 16, 0, 16, [0, -200, 0, -200])], 1, 400))
  {
    EmptyScan(buf);
    PaddingShifted();
    OnlyFont(buf, Glyph(1, 16, 0, 16, [0, 0, 0, 0]), 200, -200, Glyph(1, 16, 0, 16, [0, -200, 0, -200]));
  }

  lemma EmptyDecoded()
    ensures Decode(EMPTY) == Ok(Font([Glyph(1, 16, 0, 16, [0, -200, 0, -200])], 1, 400))
  {
    EmptyBytes();
    EmptyGlyph(EMPTY);
  }

  /** Only the y values move: the padded segment's x is already at its glyph's minimum. */
  lemma PaddingShifted()
    ensures Shifted(Glyph(1, 16, 0, 16, [0, 0, 0, 0]), 200) == Glyph(1, 16, 0, 16, [0, -200, 0, -200])
  {
    var r := ShiftedData([0, 0, 0, 0], 0, 200);
    assert r[0] == 0 && r[1] == -200 && r[2] == 0 && r[3] == -200;
    assert r == [0, -200, 0, -200];
  }

  /** A file whose first glyph number is "0" (for instance "    0  1JZ\n") is refused, with the column reached. */
  lemma NumberZero(buf: seq<Byte>)
    requires Columns(buf) && buf[4] == DIGIT_ZERO
    ensures Decode(buf) == Fail(BadGlyphNumber(0, 5))
  {
    HeaderColumns(buf);
    assert HeaderAt(buf, Cursor(0, 0), 0) == Fail(BadGlyphNumber(0, 5));
    assert GlyphAt(buf, Cursor(0, 0), 0, 200, -200) == Fail(BadGlyphNumber(0, 5));
    assert At(buf, 0) != NUL;
  }

  /** A file that ends right after the first bearings (for instance "    1  1JZ"): the header reads past them. */
  lemma EndsAfterBearings(buf: seq<Byte>)
    requires Columns(buf) && buf[4] != DIGIT_ZERO && |buf| == 10
    ensures Decode(buf) == Fail(Truncated)
  {
    HeaderColumns(buf);
    assert At(buf, 10) == NUL;
    assert HeaderAt(buf, Cursor(0, 0), 0) == Fail(Truncated);
    assert GlyphAt(buf, Cursor(0, 0), 0, 200, -200) == Fail(Truncated);
    assert At(buf, 0) != NUL;
  }
}
