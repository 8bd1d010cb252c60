# Polygon fill and Hershey font reader, modelled in Dafny

This project models two parts of the vivid graphics library.

**The scanline polygon fill (`slpfa.cpp`).**
- `createEdges` turns each edge of a polygon that is not horizontal into a bucket.
- `drawPolygon` sorts the buckets by their first scanline (`minYCompare`).
- `processEdgeTable` walks the scanlines. On each one it:
  - retires the edges that end there;
  - admits the edges that start there;
  - sorts the active list by x and slope (`xCompare`);
  - sets the pixels between the 1st and 2nd, 3rd and 4th, … active edges;
  - moves every active edge's x on with an integer error accumulator.

The buckets live in an `array<Bucket>` that the advancing step updates in place. The edge table and the active list are sequences of indices into that array. The canvas is a sink: each `setPixel` appends one pixel to the returned sequence.

The main result is `Polygon.DrawPolygon`. For every polygon whose vertices do not all share one y, the pixels set are exactly those of the even-odd rule: pixel (x, y) is set when an odd number of the polygon's edges cross scanline y at or left of x, where an edge meets the scanline at `CrossingX`: the lower end's x plus sign times the offset `(y - yMin) * dX / dY` rounded down. That is the true intersection rounded down for an edge leaning right and rounded up for one leaning left. Every pixel is set once, scanline by scanline and left to right. The outer loop makes one pass per scanline, from the least yMin to the greatest yMax.

**The Hershey font reader (`priv/hershey/hershey.cpp`).** It reads a whole `.jhf` font file into a zero-terminated buffer. Its main loop goes glyph by glyph:
- a glyph number in the first five columns;
- a pair count before column eight;
- two bearing bytes;
- the coordinate pairs, which a pen state machine turns into line segments.

Then it moves every glyph to its own minimum x and the font's minimum y, and prints tables. It also prints the glyph count, the font height and a name prefix derived from the file name.

The model works as follows:
- The file is a `seq<Byte>`; a read at or past its end is the terminator.
- The reader is `HersheyFont.Decode`, a function proved equal to the imperative `HersheyFont.DecodeFont`.
- Every loop of the source is a method proved against a specification function.
- The prefix derivation is `HersheyPrefix.Prefix`.

## Model

| member | source | states |
|---|---|---|
| EdgeOrder.XCompareStrictWeakOrder | slpfa.cpp:29-37 | xCompare is irreflexive, transitive and asymmetric, and two buckets are incomparable exactly when they have the same x and the same truncated slope, so it is a valid comparator for the list sort |
| EdgeOrder.XCompareTruncatesSlope | slpfa.cpp:35 | the slope tie-break divides integers, truncating: slopes 1/2 and 0/1 at the same x compare equal in both directions |
| EdgeOrder.Insert | slpfa.cpp:136 | inserting one index into a sorted list gives a sorted list holding the old indices plus the new one |
| EdgeOrder.SortBy | slpfa.cpp:183 | the list sort returns a permutation of its input that is sorted by the comparator |
| EdgeOrder.SortedByXIncreasing | slpfa.cpp:136 | after the sort by xCompare, x never decreases along the active list |
| EdgeOrder.SortedByMinYIncreasing | slpfa.cpp:183 | after the sort by minYCompare, yMin never decreases along the edge table, so the front has the smallest yMin |
| Edges.EdgeBucket | slpfa.cpp:63-94 | an edge gets a bucket exactly when its end points differ in y; the bucket spans yMin = min y to yMax = max y, starts at the x of the lower end, and sign times dX leads from there to the x of the upper end |
| Edges.EdgeCrossesRow | slpfa.cpp:72-79 | a bucket is active on scanline s exactly when its two end points lie on opposite sides of s + 1/2 |
| Edges.CreateEdges | slpfa.cpp:47-98 | the loop over the vertices, with edge i joining vertex i-1 to vertex i and edge 0 closing the polygon, returns the buckets of the edges in vertex order; there are at most n, each as freshly built |
| Edges.ChangesParity | slpfa.cpp:62-96 | along an open chain of vertices, the number of side changes around a scanline is odd exactly when the chain's ends lie on different sides |
| Edges.CrossCountUpTo | slpfa.cpp:62-96 | the buckets of the first k edges crossing scanline s are the chain's side changes plus the closing edge's |
| Edges.EvenCrossings | slpfa.cpp:47-98 | every scanline crosses an even number of a closed polygon's buckets, so the active list always pairs up |
| Edges.NoBucketsFlat | slpfa.cpp:79-94 | if none of the first k edges produced a bucket, vertices 0 .. k-1 all have the last vertex's y |
| Edges.EdgeListNonEmpty | slpfa.cpp:105 | a polygon whose vertices do not all share one y has a non-empty edge table, so the front of the table exists |
| Accumulator.Advance | slpfa.cpp:156-163 | advancing a bucket changes only x and sum, keeps sum below dY, and leaves a vertical edge unchanged |
| Accumulator.StepEdge | slpfa.cpp:156-163 | the stepping loop for one edge computes Advance |
| Accumulator.AccumulatorClosedForm | slpfa.cpp:153-164 | after k advances from sum 0, x has moved sign * floor(k*dX/dY) and sum is k*dX mod dY |
| Accumulator.ClosedFormStep | slpfa.cpp:157-162 | one advance adds dX to the accumulated numerator of the closed form |
| Accumulator.AdvancedToRow | slpfa.cpp:150-164 | an edge advanced once per scanline since its yMin is at CrossingX on the current scanline: the lower end's x plus sign times the offset rounded down |
| Accumulator.ReachesUpperEndpoint | slpfa.cpp:74-77 | after dY advances, a bucket's x is the x of the edge's upper end point |
| ScanFill.Span | slpfa.cpp:144-146 | the inner fill loop's pixels are exactly (x, y) for b1.x <= x < b2.x, left to right |
| ScanFill.SpansOrdered | slpfa.cpp:139-147 | the spans of an x-ordered active list lie on the scanline in increasing x |
| ScanFill.EvenOddRow | slpfa.cpp:139-147 | pairing off an x-ordered active list sets a pixel exactly when an odd number of active edges are at or left of it |
| ScanFill.RetireEdges | slpfa.cpp:112-124 | the retirement walk keeps in the active list exactly the edges whose yMax is not the scanline, in order, and removes the retired ones from the edge table |
| ScanFill.RetireAt | slpfa.cpp:114-122 | one step of the walk: the k-th active edge is erased from both lists or kept, and the cursor moves on |
| ScanFill.RetireStep | slpfa.cpp:113-123 | erasing at the walk position and removing that pointer from the table keep both lists equal to their filters |
| ScanFill.AdmitEdges | slpfa.cpp:127-133 | admission appends, in table order, every edge of the table whose yMin is the scanline |
| ScanFill.FillSpans | slpfa.cpp:139-147 | the fill loop sets the spans of consecutive pairs of the active list, pair after pair |
| ScanFill.AdvanceEdges | slpfa.cpp:153-164 | every active bucket is advanced once and every other bucket of the arena is untouched |
| ScanFill.AfterRetire | slpfa.cpp:111-124 | after retirement, the active list holds the edges that were active and continue, and the table holds the edges not yet ended |
| ScanFill.AfterAdmit | slpfa.cpp:126-133 | after admission, the active list holds exactly the edges that cross the scanline |
| ScanFill.RowIsInside | slpfa.cpp:135-147 | the pixels painted on scanline s are exactly the pixels of s that the even-odd rule puts inside the polygon |
| ScanFill.LeftCount | slpfa.cpp:139-147 | the active edges at or left of x are, in number, the polygon's edges crossing the scanline at or left of x |
| ScanFill.TablePending | slpfa.cpp:110 | while the edge table is not empty, the scanline has not passed the largest yMax, so the outer loop terminates |
| ScanFill.StartState | slpfa.cpp:105-108 | starting at the front's yMin with an empty active list satisfies the loop invariant |
| ScanFill.AdmittedState | slpfa.cpp:111-136 | retirement and admission leave the active list as a permutation of the edges crossing the scanline and the table as the edges not yet ended |
| ScanFill.AtRow | slpfa.cpp:150-164 | every edge crossing scanline s holds CrossingX for s in x |
| ScanFill.SortedAtRow | slpfa.cpp:136-147 | every edge of the sorted active list crosses s, holds CrossingX for s in x, and occurs once |
| ScanFill.RowState | slpfa.cpp:135-147 | the sorted active list has even length, and its spans are the scanline's inside pixels in order |
| ScanFill.AdvancedState | slpfa.cpp:149-164 | advancing the active list and moving to s + 1 restores the loop invariant |
| ScanFill.AdvanceOne | slpfa.cpp:153-164 | a bucket of the table has been advanced once per scanline it has crossed |
| ScanFill.SortedMember | slpfa.cpp:127-136 | an edge is in the sorted active list exactly when it crosses the scanline |
| ScanFill.AdvanceStep | slpfa.cpp:150-164 | one scanline later, an edge has advanced once more exactly when it crossed the scanline |
| ScanFill.StepsOnce | slpfa.cpp:150-164 | the advance count grows by one on the scanlines an edge crosses and stays the same on the others |
| ScanFill.PixelStep | slpfa.cpp:139-150 | appending scanline s's row keeps the pixels set so far equal to the inside pixels below s + 1, in order |
| ScanFill.EndState | slpfa.cpp:110 | once the table is empty no later scanline has an inside pixel, so the pixels set are all the inside pixels |
| ScanFill.ScanLine | slpfa.cpp:111-164 | one pass of the outer loop paints exactly the inside pixels of the scanline, left to right, and advances the state to the next scanline |
| ScanFill.ProcessEdgeTable | slpfa.cpp:104-166 | for a non-empty table sorted so the front has the least yMin, with every scanline crossing an even number of edges, the pixels set are exactly the even-odd inside pixels, each once, in scanline then x order; the outer loop makes one pass per scanline from the front's yMin up to the largest yMax, so it stops on the largest yMax plus 1 |
| Polygon.SortedTableReady | slpfa.cpp:180-186 | the edges of a polygon, sorted by minYCompare, meet processEdgeTable's needs, and the even-odd rule over the table is the even-odd rule over the polygon's edges |
| Polygon.DrawPolygon | slpfa.cpp:178-187 | for a polygon whose vertices do not all share one y, the pixels set are exactly those an odd number of its edges cross at or left of, in scanline then x order |
| Polygon.SquareFill | slpfa.cpp:178-187 | the square with corners (0, 0) and (4, 4) fills x in 0 .. 3 on scanlines 0 .. 3: right and top edges are excluded |
| Polygon.SquareEdges | slpfa.cpp:47-98 | the square's two horizontal edges produce no bucket, and its vertical ones produce the two expected buckets |
| Polygon.TriangleFill | slpfa.cpp:178-187 | the triangle (0, 0), (4, 0), (0, 4) fills 4, 3, 2, 1 pixels from x = 0 on scanlines 0 .. 3 |
| Polygon.TriangleEdges | slpfa.cpp:47-98 | the triangle's base produces no bucket; the vertical side and the slanted side produce the expected buckets |
| HersheyScan.SkipBlanks | priv/hershey/hershey.cpp:177-184 | the blank skipper never moves back and never makes the column negative |
| HersheyScan.ScanBlanks | priv/hershey/hershey.cpp:177-184 | the blank-skipping loop computes SkipBlanks |
| HersheyScan.SkipBlanksMeaning | priv/hershey/hershey.cpp:177-184 | the skipper steps over exactly the blanks (space, tab, CR, LF) in front of the cursor and stops on the first other byte or the terminator; the column is then as counted from the last CR or LF |
| HersheyScan.ColumnAfterLine | priv/hershey/hershey.cpp:179-182 | after a CR or LF, the column counts only the bytes that follow the last one |
| HersheyScan.ColumnAfterNoLine | priv/hershey/hershey.cpp:181-182 | without CR or LF, every byte stepped over adds one column |
| HersheyScan.SkipBlanksQuietly | priv/hershey/hershey.cpp:232 | the skipper before the bearings only moves forward |
| HersheyScan.ScanBlanksQuietly | priv/hershey/hershey.cpp:232 | that loop computes SkipBlanksQuietly |
| HersheyScan.SkipBlanksQuietlyMeaning | priv/hershey/hershey.cpp:232 | it steps over exactly the blanks in front of it and stops on the first other byte |
| HersheyScan.SkipNewLines | priv/hershey/hershey.cpp:262-266 | the newline skipper only moves forward and keeps the column non-negative |
| HersheyScan.ScanNewLines | priv/hershey/hershey.cpp:262-266 | the newline-skipping loop computes SkipNewLines |
| HersheyScan.SkipNewLinesMeaning | priv/hershey/hershey.cpp:262-266 | it steps over exactly the CR and LF bytes in front of it; the column is reset to 0 if it stepped over any and is kept otherwise |
| HersheyScan.SkipControls | priv/hershey/hershey.cpp:340-347 | the trailing skipper only moves forward and keeps the column non-negative |
| HersheyScan.ScanControls | priv/hershey/hershey.cpp:340-347 | the trailing loop computes SkipControls |
| HersheyScan.SkipControlsMeaning | priv/hershey/hershey.cpp:340-347 | it steps over exactly the bytes 1 .. 32 in front of it and stops at the terminator or a printable byte, with the column counted from the last CR or LF |
| HersheyScan.ReadDigits | priv/hershey/hershey.cpp:188-194 | the digit reader never moves back; without a digit the value is unchanged; it never lowers a non-negative value |
| HersheyScan.ScanDigits | priv/hershey/hershey.cpp:188-194 | the digit loop computes ReadDigits from 0 |
| HersheyScan.ReadDigitsMeaning | priv/hershey/hershey.cpp:188-194 | the reader takes the longest run of digits that stays below the column limit, one column per digit, and its value is the decimal value of that run |
| HersheyScan.ReadDigitsRun | priv/hershey/hershey.cpp:224-230 | the bytes consumed are all digits; the reader stops at the column limit or at a non-digit; the column grows by the run's length |
| HersheyScan.ReadDigitsValue | priv/hershey/hershey.cpp:190-191 | the value read is acc * 10^n plus the place value of the n digits read |
| HersheyScan.ReadDigitsHorner | priv/hershey/hershey.cpp:188-194 | the reader folds the digits it consumes in from the left, multiplying by ten each time |
| HersheyScan.HornerPlaces | priv/hershey/hershey.cpp:190-191 | folding digits in by ten-times-plus-digit gives their place value |
| HersheyScan.DecimalBound | priv/hershey/hershey.cpp:188-194 | a run of n digits is worth at least 0 and less than 10^n |
| HersheyScan.NumberBound | priv/hershey/hershey.cpp:188-194 | a number read from column c under limit L is less than 10^(L-c) |
| HersheyPen.ReadPairs | priv/hershey/hershey.cpp:259-274 | the corrected pair reader never moves back and keeps the column non-negative |
| HersheyPen.FirstReadPastTerminator | priv/hershey/hershey.cpp:259-267 | with a pair count one larger than the data, the reader as written reads past the terminator, where the corrected reader aborts |
| HersheyPen.ReadPairsStaysInBuffer | priv/hershey/hershey.cpp:259-274 | the corrected reader never moves its cursor past the terminator |
| HersheyPen.ReadPairsCorrected | priv/hershey/hershey.cpp:259-274 | on a file with no NUL byte, the corrected reader gives the same result as the reader as written, except that it aborts exactly where the one as written overruns |
| HersheyPen.ReadPairsCount | priv/hershey/hershey.cpp:259-274 | a successful read returns exactly n pairs after those already read; the only failure is Truncated |
| HersheyPen.Strokes | priv/hershey/hershey.cpp:290-293 | the glyph data grows in segments of four ints |
| HersheyPen.PenAtLastMove | priv/hershey/hershey.cpp:276-312 | the first pair is always a move; the pen stands on the last point it moved to and is up at (0, 0) before the first; after that it is up exactly when the last pair was not a move, and such a pair is the pen-up code |
| HersheyPen.ReadPairsOnGrid | priv/hershey/hershey.cpp:259-274 | every coordinate read is a byte's offset from 'R', so it lies in -82 .. 173 |
| HersheyPen.StrokesJoinMoves | priv/hershey/hershey.cpp:290-296 | each segment joins two points the pen moved to |
| HersheyPen.LeastGreatest | priv/hershey/hershey.cpp:297-311 | the running minimum and maximum updates compute the minimum and maximum of their start value and every coordinate seen |
| HersheyPen.ScanPairs | priv/hershey/hershey.cpp:251-314 | the pair loop with its pen state machine reads the pairs ReadPairs reads, emits their Strokes, and tracks the extents of the points visited; a truncated file fails exactly as ReadPairs does |
| HersheyPen.PairStep | priv/hershey/hershey.cpp:276-312 | one more pair moves the pen one step, appends that step's segment, and adds the point to the visited ones unless it is the pen-up code |
| HersheyFont.Complete | priv/hershey/hershey.cpp:318-338 | a finished glyph has at least one four-int segment; a degenerate glyph reports minx 0 and its bearing width as realwidth |
| HersheyFont.HeaderAt | priv/hershey/hershey.cpp:177-242 | a successful header has a glyph number of at least 1 and a non-negative width, and the cursor has moved past the bearings |
| HersheyFont.GlyphAt | priv/hershey/hershey.cpp:177-347 | a glyph read moves the cursor forward and yields data in segments of four, at least one |
| HersheyFont.ShiftedData | priv/hershey/hershey.cpp:356-360 | normalisation keeps the length of the data |
| HersheyFont.Normalised | priv/hershey/hershey.cpp:354-361 | after the main loop, every glyph is moved by its own minx and the font's miny; count is the number of glyphs and height is abs(miny) + abs(maxy) |
| HersheyFont.ScanHeader | priv/hershey/hershey.cpp:177-242 | the header part of the loop body computes HeaderAt |
| HersheyFont.DecodeGlyph | priv/hershey/hershey.cpp:177-347 | the loop body computes GlyphAt |
| HersheyFont.Normalise | priv/hershey/hershey.cpp:354-361 | the in-place normalisation loop moves every x by its glyph's minx and every y by the font's miny |
| HersheyFont.ScanGlyphs | priv/hershey/hershey.cpp:157-350 | the main loop fills the parallel vectors with exactly the glyphs Glyphs reads, plus the font's miny and maxy, or fails as Glyphs does |
| HersheyFont.DecodeFont | priv/hershey/hershey.cpp:157-396 | the reader as a program computes Decode |
| HersheyFont.DecodeOfScan | priv/hershey/hershey.cpp:354-396 | what Decode reports for a successful main loop |
| HersheyFont.DecodeOfTables | priv/hershey/hershey.cpp:354-396 | the normalised tables of the main loop are the glyphs, count and height that Decode returns |
| HersheyFont.GlyphsInFours | priv/hershey/hershey.cpp:290-325 | every glyph the main loop reads has data in segments of four ints, at least one |
| HersheyFont.GlyphNumberDigits | priv/hershey/hershey.cpp:188-205 | a glyph number that is accepted lies between 1 and 99999 |
| HersheyFont.GlyphExtent | priv/hershey/hershey.cpp:297-338 | for a glyph that is not degenerate, minx is the least x the pen moved to and realwidth is abs of the greatest such x plus abs of minx; the start values 200 and -200 never remain |
| HersheyFont.TraceExtent | priv/hershey/hershey.cpp:318-338 | the same for the glyph completed from one pass of the pair loop |
| HersheyFont.GlyphGrounded | priv/hershey/hershey.cpp:297-338 | in a glyph that is not degenerate every x is at least its minx and every y at least the font's running miny; that miny never grows and the maxy never shrinks |
| HersheyFont.TraceGrounded | priv/hershey/hershey.cpp:290-338 | the same for the glyph built from one pass of the pair loop |
| HersheyFont.EntryFromMove | priv/hershey/hershey.cpp:290-296 | each entry of the data is a coordinate of a point the pen visited: x at even positions, y at odd ones |
| HersheyFont.GlyphsGrounded | priv/hershey/hershey.cpp:173-350 | every glyph of the main loop is grounded on the font's final miny |
| HersheyFont.DecodeNonNegative | priv/hershey/hershey.cpp:354-361 | after normalisation, every coordinate of a glyph that is not degenerate is at least 0 |
| HersheyFont.ShiftedNonNegative | priv/hershey/hershey.cpp:356-360 | shifting a grounded glyph leaves no coordinate below 0 and keeps it degenerate or not |
| HersheyFont.DecodeShape | priv/hershey/hershey.cpp:318-396 | every reported glyph has at least one four-int segment and a number of 1 .. 99999; a degenerate one has minx 0 and realwidth equal to its width; count is the number of glyphs |
| HersheyFont.ShiftedShaped | priv/hershey/hershey.cpp:356-360 | normalisation only moves coordinates, so a glyph keeps that shape |
| HersheyFont.GlyphsShaped | priv/hershey/hershey.cpp:173-350 | every glyph the main loop reads has that shape, whatever the running extents |
| HersheyExamples.SpacesTo | priv/hershey/hershey.cpp:177-184 | a run of spaces is skipped with one column per space |
| HersheyExamples.LastColumnDigit | priv/hershey/hershey.cpp:188-194 | a digit in the last column a field allows is read alone |
| HersheyExamples.HeaderColumns | priv/hershey/hershey.cpp:177-230 | in a line laid out in columns, the glyph number is the digit in column 4 and the pair count is the digit in column 7 |
| HersheyExamples.HeaderOfColumns | priv/hershey/hershey.cpp:177-242 | such a header gives its number, its pair count, the width abs(right) + abs(left), and pairs from byte 10 |
| HersheyExamples.PairOnOneLine | priv/hershey/hershey.cpp:259-274 | two bytes not followed by a newline are read as one pair, column unchanged |
| HersheyExamples.OnlyGlyph | priv/hershey/hershey.cpp:173-350 | a file that ends after one glyph scans to that single glyph |
| HersheyExamples.OnlyFont | priv/hershey/hershey.cpp:354-396 | a single-glyph font reports that glyph normalised, count 1, and height abs(miny) + abs(maxy) |
| HersheyExamples.StrokeHeader | priv/hershey/hershey.cpp:177-242 | "    1  4LX…" is glyph 1 with four pairs and width 12 |
| HersheyExamples.StrokePairs | priv/hershey/hershey.cpp:259-274 | its three pairs after the bearings are (0, 0), (2, 0) and the pen-up code |
| HersheyExamples.StrokeMoves | priv/hershey/hershey.cpp:276-312 | the pen goes down at (0, 0), draws to (2, 0) and lifts: one segment, two points |
| HersheyExamples.StrokeGlyph | priv/hershey/hershey.cpp:177-347 | the glyph read is number 1, width 12, minx 0, realwidth 2, data (0, 0, 2, 0) |
| HersheyExamples.StrokeAndLift | priv/hershey/hershey.cpp:157-396 | a file laid out like that one decodes to that glyph, unmoved, with height 0 |
| HersheyExamples.StrokeDecoded | priv/hershey/hershey.cpp:157-396 | the concrete file "    1  4LXRRTR R" decodes to that font |
| HersheyExamples.NoPairs | priv/hershey/hershey.cpp:318-338 | a glyph without pairs keeps the start extents (200, -200) and no data |
| HersheyExamples.EmptyGlyphAt | priv/hershey/hershey.cpp:318-347 | an empty glyph is padded to the segment (0, 0, 0, 0), reported with minx 0 and realwidth equal to its width, and the line feed after it resets the column |
| HersheyExamples.EmptyGlyph | priv/hershey/hershey.cpp:354-396 | a font whose only glyph is empty keeps miny 200 and maxy -200: its data moves to (0, -200, 0, -200) and its height is 400 |
| HersheyExamples.EmptyDecoded | priv/hershey/hershey.cpp:157-396 | the concrete file "    1  1JZ\n" decodes to that font |
| HersheyExamples.PaddingShifted | priv/hershey/hershey.cpp:356-360 | only the y values of the padded segment move |
| HersheyExamples.NumberZero | priv/hershey/hershey.cpp:196-205 | a glyph number written as "0" is refused as a bad glyph number, with index 0 and the column reached |
| HersheyExamples.EndsAfterBearings | priv/hershey/hershey.cpp:232-239 | a file that ends right after the first glyph's bearings aborts |
| HersheyPrefix.LastIndex | priv/hershey/hershey.cpp:131 | strrchr finds the last occurrence of the character, or none exactly when it does not occur |
| HersheyPrefix.CutAtDot | priv/hershey/hershey.cpp:131-132 | the path is cut just before its last '.', or kept whole when it has none |
| HersheyPrefix.PrefixOverride | priv/hershey/hershey.cpp:152-153 | a prefix given as the second argument is used unchanged |
| HersheyPrefix.PrefixShape | priv/hershey/hershey.cpp:131-148 | without an override, the prefix is the tail of the cut path after its last backslash, or, with no backslash, after its last slash, or the whole cut path |
| HersheyPrefix.UnixPath | priv/hershey/hershey.cpp:131-148 | "fonts/rowmans.jhf" gives "rowmans" |
| HersheyPrefix.WindowsPath | priv/hershey/hershey.cpp:131-148 | "C:\fonts\futural.jhf" gives "futural" |
| HersheyPrefix.DotInDirectory | priv/hershey/hershey.cpp:131-148 | "../fonts/rowmans", whose only dots are in a directory, gives "." |
| HersheyPrefix.SlashAfterBackslash | priv/hershey/hershey.cpp:137-148 | "fonts\v1/rowmans.jhf" gives "v1/rowmans", which holds a slash |
| HersheyPrefix.Base | priv/hershey/hershey.cpp:137-148 | the file name is the tail of the path after its last separator and holds no separator |
| HersheyPrefix.BasenamePrefixShape | priv/hershey/hershey.cpp:131-148 | the corrected prefix holds no separator and is the file name up to the file name's last '.' |
| HersheyPrefix.RelativePath | priv/hershey/hershey.cpp:131-148 | the corrected prefix of "../fonts/rowmans" is "rowmans" |
| HersheyPrefix.MixedSeparators | priv/hershey/hershey.cpp:137-148 | the corrected prefix of "fonts\v1/rowmans.jhf" is "rowmans" |
| HersheyPrefix.CutKeepsDirectories | priv/hershey/hershey.cpp:131-132 | cutting at the last '.' leaves the directories alone when that '.' is in the file name or there is none |
| HersheyPrefix.SeparatorEndsDirectories | priv/hershey/hershey.cpp:137-148 | when no slash follows a backslash in the directories, the text after the last separator is the file name |
| HersheyPrefix.BasenameAgrees | priv/hershey/hershey.cpp:131-148 | when the last '.' lies in the file name (or there is none) and no slash follows a backslash, the prefix as derived equals the corrected one |

## Left out

- Reading the font file (hershey.cpp:98-120): the file's bytes are the parameter of `Decode`, followed by an implicit terminator. A NUL byte inside the file ends it wherever the source tests for the terminator. The source does not test at the first byte of a pair (hershey.cpp:261, the first Findings row). There `HersheyPen.ReadPairsAsWritten` reads a NUL as the coordinate -82 and goes on, as the source does. The corrected `HersheyPen.ReadPairs`, which the model uses, stops with `Truncated`.
- The licence text (hershey.cpp:38-91, 126), the debug lines (246-249) and all table printing (365-432): the model stops at the values printed, which are the glyph tables, count, height and prefix.
- The diagnostic dump after a bad glyph number (hershey.cpp:199-203): it only prints, and it reads up to ten bytes before the cursor. The model returns `BadGlyphNumber` with the glyph index and column.
- The silent exits at hershey.cpp:233, 236, 239 and 267 are the `Truncated` failure. No table has been printed before such an exit: tables are printed only after the main loop (365-432). What has been printed by then is the licence text and the debug lines (246-249), and neither is modelled.
- Bytes are taken at their unsigned value 0 .. 255, and a pair's offsets are not truncated to the `char` the source stores them in (hershey.cpp:261, 267). For the ASCII bytes 0 .. 127 of font files the two agree. Where `char` is signed, a byte above 127 would differ in three places: its offset from 'R' in a pair, the bearing width (235-241), and the trailing skipper (340), whose test `*c <= ' '` would also step over it.
- The printed tables store width, realwidth, height and coordinates as `char`. That truncation happens only at printing and is not modelled.
- Integer overflow of `int` in either file is not modelled; Dafny integers are unbounded. This covers the pair count, glyph numbers, polygon coordinates and the accumulator sum.
- `Canvas` is not part of this model: each `setPixel` call appends its pixel to the returned sequence, and what the canvas does with it is not modelled.
- `delete` of retired buckets is not modelled. Retired indices simply leave both lists, and the arena keeps their buckets.
- `std::list::sort` is library code. It is modelled as a stable insertion sort, and only the sortedness and permutation the library promises are used.
- processEdgeTable's guard `if (!activeList.empty())` (slpfa.cpp:112) is dropped: on an empty list the walk does nothing anyway.
- Polygon.DrawPolygon: requires that the vertices do not all share one y. Otherwise the edge table is empty and `front()` at slpfa.cpp:105 is undefined behaviour.
- ScanFill.ProcessEdgeTable: requires the following of its table, which `drawPolygon` always meets (`Polygon.SortedTableReady`):
  - the table is non-empty, for the same `front()`;
  - the front has the least yMin, or the loop would never reach the edges below its start;
  - every scanline crosses an even number of edges, or the fill loop would step past the end of the active list.
- The number of vertices is the length of the coordinate sequences, not a separate `n`.

## Findings

| source | as written | input that shows it | evidently intended | confidence | as-written member | corrected member |
|---|---|---|---|---|---|---|
| priv/hershey/hershey.cpp:259-267 | the first byte of each pair is read and stepped over with no check for the terminator; only the second byte is checked | a glyph whose pair count is one more than the pairs it holds, e.g. the pairs "RR" with 2 pairs left: the cursor steps past the terminator and the next read is outside the buffer | check for the terminator before the first byte too, and abort as for the second | not executed | HersheyPen.FirstReadPastTerminator | HersheyPen.ReadPairsStaysInBuffer |
| priv/hershey/hershey.cpp:131-148 | the path is cut at the last '.' of the whole path before the directories are stripped | "../fonts/rowmans" (no extension) gives the prefix ".", which is not a C identifier | cut the file name at its own last '.' after stripping the directories | not executed | HersheyPrefix.DotInDirectory | HersheyPrefix.RelativePath |
| priv/hershey/hershey.cpp:137-148 | the last slash is looked for only when the path has no backslash at all | "fonts\v1/rowmans.jhf" gives "v1/rowmans", which holds a slash | strip everything up to the last separator of either kind | not executed | HersheyPrefix.SlashAfterBackslash | HersheyPrefix.MixedSeparators |

`HersheyPen.ReadPairsAsWritten` models the reader as written. `HersheyPen.ReadPairs` is the corrected reader; `HersheyFont.GlyphAt` uses it. `HersheyPen.ReadPairsCorrected` proves that the two agree on every file without NUL bytes, except that the corrected reader aborts where the one as written overruns.

`HersheyPrefix.Prefix` models the prefix as written. `HersheyPrefix.BasenamePrefix` is the corrected one, and `HersheyPrefix.BasenamePrefixShape` proves that it never holds a separator. `HersheyPrefix.BasenameAgrees` proves that the two agree on every path the source handles correctly.
