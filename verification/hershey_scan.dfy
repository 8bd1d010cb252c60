/**
  The byte-level scanning of the Hershey font reader (priv/hershey/hershey.cpp):
  the zero-terminated buffer, the blank skippers and the column-limited digit
  reader. The reader keeps a cursor into the buffer and a column counter,
  which counts the bytes since the last CR or LF that the skippers and the
  digit reader stepped over.

  Bytes are taken at their unsigned value 0 .. 255.
 */
module HersheyScan {
  type Byte = b: int | 0 <= b < 256

  const NUL: Byte := 0
  const TAB: Byte := 9
  const LF: Byte := 10
  const CR: Byte := 13
  const SPACE: Byte := 32
  const DIGIT_ZERO: Byte := 48
  const DIGIT_NINE: Byte := 57

  /** The cursor into the buffer and the current column. */
  datatype Cursor = Cursor(pos: nat, col: int)

  /**
    The byte at position i of the buffer the reader builds: the file's bytes
    followed by the NUL terminator.
   */
  function At(buf: seq<Byte>, i: nat): Byte {
    if i < |buf| then buf[i] else NUL
  }

  predicate NewLine(b: Byte) {
    b == LF || b == CR
  }

  /** The bytes the whitespace skippers step over. */
  predicate Blank(b: Byte) {
    b == SPACE || b == TAB || NewLine(b)
  }

  predicate Digit(b: Byte) {
    DIGIT_ZERO <= b <= DIGIT_NINE
  }

  /** The column after stepping over b: CR and LF start a new line. */
  function NextCol(b: Byte, col: int): int {
    if NewLine(b) then 0 else col + 1
  }

  /** The blank skipper that keeps the column (hershey.cpp:177-184, 212-219). */
  function SkipBlanks(buf: seq<Byte>, cur: Cursor): (r: Cursor)
    ensures cur.pos <= r.pos && (cur.col >= 0 ==> r.col >= 0)
    decreases |buf| - cur.pos
  {
    var b := At(buf, cur.pos);
    if Blank(b) then SkipBlanks(buf, Cursor(cur.pos + 1, NextCol(b, cur.col))) else cur
  }

  method ScanBlanks(buf: seq<Byte>, cur: Cursor) returns (next: Cursor)
    ensures next == SkipBlanks(buf, cur)
  {
    next := cur;
    while Blank(At(buf, next.pos))
      invariant SkipBlanks(buf, next) == SkipBlanks(buf, cur)
      decreases |buf| - next.pos
    {
      var b := At(buf, next.pos);
      if NewLine(b) {
        next := next.(col := 0);
      } else {
        next := next.(col := next.col + 1);
      }
      next := next.(pos := next.pos + 1);
    }
  }

  /**
    The column a run of stepped-over bytes leaves: the number of bytes after
    the last CR or LF of the run, or, without one, the old column plus the
    length of the run.
   */
  function ColumnAfter(col: int, run: seq<Byte>): int {
    if run == [] then col
    else if NewLine(run[|run| - 1]) then 0
    else ColumnAfter(col, run[..|run| - 1]) + 1
  }

  /** A new line resets the column: only the bytes after the last one count. */
  lemma {:induction false} ColumnAfterLine(col: int, run: seq<Byte>, j: nat)
    requires j < |run| && NewLine(run[j])
    requires forall i :: j < i < |run| ==> !NewLine(run[i])
    ensures ColumnAfter(col, run) == |run| - 1 - j
  {
    if j < |run| - 1 {
      ColumnAfterLine(col, run[..|run| - 1], j);
    }
  }

  /** Without a new line, every byte of the run adds one column. */
  lemma {:induction false} ColumnAfterNoLine(col: int, run: seq<Byte>)
    requires forall i :: 0 <= i < |run| ==> !NewLine(run[i])
    ensures ColumnAfter(col, run) == col + |run|
  {
    if run != [] {
      ColumnAfterNoLine(col, run[..|run| - 1]);
    }
  }

  /**
    SkipBlanks steps over exactly the blanks in front of the cursor, stops on
    the first other byte (possibly the terminator), and leaves the column as
    ColumnAfter says.
   */
  lemma {:induction false} SkipBlanksMeaning(buf: seq<Byte>, cur: Cursor)
    requires cur.pos <= |buf|
    ensures var r := SkipBlanks(buf, cur);
      cur.pos <= r.pos <= |buf|
      && (forall i :: cur.pos <= i < r.pos ==> Blank(buf[i]))
      && !Blank(At(buf, r.pos))
      && r.col == ColumnAfter(cur.col, buf[cur.pos..r.pos])
    decreases |buf| - cur.pos
  {
    var b := At(buf, cur.pos);
    if Blank(b) {
      var step := Cursor(cur.pos + 1, NextCol(b, cur.col));
      SkipBlanksMeaning(buf, step);
      var r := SkipBlanks(buf, cur);
      ColumnShift(cur.col, buf[cur.pos..r.pos]);
      assert buf[cur.pos..r.pos][1..] == buf[cur.pos + 1..r.pos];
    }
  }

  /** Stepping over the first byte of a run first gives the same column. */
  lemma {:induction false} ColumnShift(col: int, run: seq<Byte>)
    requires run != []
    ensures ColumnAfter(col, run) == ColumnAfter(NextCol(run[0], col), run[1..])
  {
    if |run| > 1 {
      ColumnShift(col, run[..|run| - 1]);
      assert run[..|run| - 1][1..] == run[1..][..|run[1..]| - 1];
    }
  }

  /** The blank skipper that does not count columns (hershey.cpp:232). */
  function SkipBlanksQuietly(buf: seq<Byte>, pos: nat): (r: nat)
    ensures pos <= r
    decreases |buf| - pos
  {
    if Blank(At(buf, pos)) then SkipBlanksQuietly(buf, pos + 1) else pos
  }

  method ScanBlanksQuietly(buf: seq<Byte>, pos: nat) returns (next: nat)
    ensures next == SkipBlanksQuietly(buf, pos)
  {
    next := pos;
    while Blank(At(buf, next))
      invariant SkipBlanksQuietly(buf, next) == SkipBlanksQuietly(buf, pos)
      decreases |buf| - next
    {
      next := next + 1;
    }
  }

  lemma {:induction false} SkipBlanksQuietlyMeaning(buf: seq<Byte>, pos: nat)
    requires pos <= |buf|
    ensures var r := SkipBlanksQuietly(buf, pos);
      pos <= r <= |buf| && (forall i :: pos <= i < r ==> Blank(buf[i])) && !Blank(At(buf, r))
    decreases |buf| - pos
  {
    if Blank(At(buf, pos)) {
      SkipBlanksQuietlyMeaning(buf, pos + 1);
    }
  }

  /**
    The newline skipper after each coordinate byte (hershey.cpp:262-266,
    269-273): CR and LF only, each resetting the column.
   */
  function SkipNewLines(buf: seq<Byte>, cur: Cursor): (r: Cursor)
    ensures cur.pos <= r.pos && (cur.col >= 0 ==> r.col >= 0)
    decreases |buf| - cur.pos
  {
    if NewLine(At(buf, cur.pos)) then SkipNewLines(buf, Cursor(cur.pos + 1, 0)) else cur
  }

  method ScanNewLines(buf: seq<Byte>, cur: Cursor) returns (next: Cursor)
    ensures next == SkipNewLines(buf, cur)
  {
    next := cur;
    while NewLine(At(buf, next.pos))
      invariant SkipNewLines(buf, next) == SkipNewLines(buf, cur)
      decreases |buf| - next.pos
    {
      next := Cursor(next.pos + 1, 0);
    }
  }

  /** The newline skipper stays within the buffer. */
  lemma SkipNewLinesInBuffer(buf: seq<Byte>, cur: Cursor)
    requires cur.pos <= |buf|
    ensures cur.pos <= SkipNewLines(buf, cur).pos <= |buf|
  {
    SkipNewLinesMeaning(buf, cur);
  }

  /**
    SkipNewLines steps over exactly the CR and LF bytes in front of the
    cursor; the column is reset if it stepped over any and kept otherwise.
   */
  lemma {:induction false} SkipNewLinesMeaning(buf: seq<Byte>, cur: Cursor)
    requires cur.pos <= |buf|
    ensures var r := SkipNewLines(buf, cur);
      cur.pos <= r.pos <= |buf|
      && (forall i :: cur.pos <= i < r.pos ==> NewLine(buf[i]))
      && !NewLine(At(buf, r.pos))
      && r.col == (if r.pos == cur.pos then cur.col else 0)
    decreases |buf| - cur.pos
  {
    if NewLine(At(buf, cur.pos)) {
      SkipNewLinesMeaning(buf, Cursor(cur.pos + 1, 0));
    }
  }

  /**
    The trailing skipper after a glyph (hershey.cpp:340-347): every byte up
    to the space, control bytes included, but not the terminator.
   */
  function SkipControls(buf: seq<Byte>, cur: Cursor): (r: Cursor)
    ensures cur.pos <= r.pos && (cur.col >= 0 ==> r.col >= 0)
    decreases |buf| - cur.pos
  {
    var b := At(buf, cur.pos);
    if b != NUL && b <= SPACE then SkipControls(buf, Cursor(cur.pos + 1, NextCol(b, cur.col))) else cur
  }

  method ScanControls(buf: seq<Byte>, cur: Cursor) returns (next: Cursor)
    ensures next == SkipControls(buf, cur)
  {
    next := cur;
    while At(buf, next.pos) != NUL && At(buf, next.pos) <= SPACE
      invariant SkipControls(buf, next) == SkipControls(buf, cur)
      decreases |buf| - next.pos
    {
      var b := At(buf, next.pos);
      if NewLine(b) {
        next := next.(col := 0);
      } else {
        next := next.(col := next.col + 1);
      }
      next := next.(pos := next.pos + 1);
    }
  }

  lemma {:induction false} SkipControlsMeaning(buf: seq<Byte>, cur: Cursor)
    requires cur.pos <= |buf|
    ensures var r := SkipControls(buf, cur);
      cur.pos <= r.pos <= |buf|
      && (forall i :: cur.pos <= i < r.pos ==> NUL < buf[i] <= SPACE)
      && (At(buf, r.pos) == NUL || At(buf, r.pos) > SPACE)
      && r.col == ColumnAfter(cur.col, buf[cur.pos..r.pos])
    decreases |buf| - cur.pos
  {
    var b := At(buf, cur.pos);
    if b != NUL && b <= SPACE {
      SkipControlsMeaning(buf, Cursor(cur.pos + 1, NextCol(b, cur.col)));
      var r := SkipControls(buf, cur);
      ColumnShift(cur.col, buf[cur.pos..r.pos]);
      assert buf[cur.pos..r.pos][1..] == buf[cur.pos + 1..r.pos];
    }
  }

  function Pow10(n: nat): nat {
    if n == 0 then 1 else 10 * Pow10(n - 1)
  }

  /** The value of a run of decimal digits, by place value. */
  function Decimal(s: seq<Byte>): int {
    if s == [] then 0 else (s[0] - DIGIT_ZERO) * Pow10(|s| - 1) + Decimal(s[1..])
  }

  /** A number read from digits. */
  datatype Number = Number(value: int, next: Cursor)

  /**
    The digit reader (hershey.cpp:188-194, 224-230): digits are taken while
    the column is below limit, each multiplying the value so far by ten.
   */
  function ReadDigits(buf: seq<Byte>, cur: Cursor, limit: int, acc: int): (r: Number)
    ensures cur.pos <= r.next.pos && (r.next.pos == cur.pos ==> r.value == acc)
    ensures (cur.col >= 0 ==> r.next.col >= 0) && (acc >= 0 ==> r.value >= acc)
    decreases |buf| - cur.pos
  {
    var b := At(buf, cur.pos);
    if cur.col < limit && Digit(b) then
      ReadDigits(buf, Cursor(cur.pos + 1, cur.col + 1), limit, acc * 10 + (b - DIGIT_ZERO))
    else Number(acc, cur)
  }

  method ScanDigits(buf: seq<Byte>, cur: Cursor, limit: int) returns (value: int, next: Cursor)
    ensures Number(value, next) == ReadDigits(buf, cur, limit, 0)
  {
    value, next := 0, cur;
    while next.col < limit && Digit(At(buf, next.pos))
      invariant ReadDigits(buf, next, limit, value) == ReadDigits(buf, cur, limit, 0)
      decreases |buf| - next.pos
    {
      value := value * 10 + (At(buf, next.pos) - DIGIT_ZERO);
      next := Cursor(next.pos + 1, next.col + 1);
    }
  }

  /**
    The digit reader takes the longest run of digits that stays below the
    column limit, one column per digit, and its value is that run's decimal
    value (after the digits already accumulated in acc).
   */
  lemma ReadDigitsMeaning(buf: seq<Byte>, cur: Cursor, limit: int, acc: int)
    requires cur.pos <= |buf|
    ensures var r := ReadDigits(buf, cur, limit, acc);
      cur.pos <= r.next.pos <= |buf|
      && r.next.col == cur.col + (r.next.pos - cur.pos)
      && (forall i :: cur.pos <= i < r.next.pos ==> Digit(buf[i]))
      && (r.next.col >= limit || !Digit(At(buf, r.next.pos)))
      && (r.next.pos > cur.pos ==> r.next.col <= limit)
      && r.value == acc * Pow10(r.next.pos - cur.pos) + Decimal(buf[cur.pos..r.next.pos])
  {
    ReadDigitsRun(buf, cur, limit, acc);
    ReadDigitsValue(buf, cur, limit, acc);
  }

  /** The run of digits ReadDigits steps over. */
  lemma {:induction false} ReadDigitsRun(buf: seq<Byte>, cur: Cursor, limit: int, acc: int)
    requires cur.pos <= |buf|
    ensures var r := ReadDigits(buf, cur, limit, acc);
      cur.pos <= r.next.pos <= |buf|
      && r.next.col == cur.col + (r.next.pos - cur.pos)
      && (forall i :: cur.pos <= i < r.next.pos ==> Digit(buf[i]))
      && (r.next.col >= limit || !Digit(At(buf, r.next.pos)))
      && (r.next.pos > cur.pos ==> r.next.col <= limit)
    decreases |buf| - cur.pos
  {
    var b := At(buf, cur.pos);
    if cur.col < limit && Digit(b) {
      ReadDigitsRun(buf, Cursor(cur.pos + 1, cur.col + 1), limit, acc * 10 + (b - DIGIT_ZERO));
    }
  }

  /** Digits folded in from the left onto acc, as the reader does. */
  function Horner(acc: int, s: seq<Byte>): int
    decreases |s|
  {
    if s == [] then acc else Horner(acc * 10 + (s[0] - DIGIT_ZERO), s[1..])
  }

  /** The value ReadDigits accumulates over its run, by place value. */
  lemma {:induction false} ReadDigitsValue(buf: seq<Byte>, cur: Cursor, limit: int, acc: int)
    requires cur.pos <= |buf|
    ensures var r := ReadDigits(buf, cur, limit, acc);
      r.next.pos <= |buf| && r.value == acc * Pow10(r.next.pos - cur.pos) + Decimal(buf[cur.pos..r.next.pos])
  {
    ReadDigitsHorner(buf, cur, limit, acc);
    var r := ReadDigits(buf, cur, limit, acc);
    HornerPlaces(acc, buf[cur.pos..r.next.pos]);
  }

  /** The reader computes Horner's rule over the digits it consumed. */
  lemma {:induction false} ReadDigitsHorner(buf: seq<Byte>, cur: Cursor, limit: int, acc: int)
    requires cur.pos <= |buf|
    ensures var r := ReadDigits(buf, cur, limit, acc);
      r.next.pos <= |buf| && r.value == Horner(acc, buf[cur.pos..r.next.pos])
    decreases |buf| - cur.pos
  {
    var b := At(buf, cur.pos);
    if cur.col < limit && Digit(b) {
      var next := Cursor(cur.pos + 1, cur.col + 1);
      ReadDigitsHorner(buf, next, limit, acc * 10 + (b - DIGIT_ZERO));
      var r := ReadDigits(buf, cur, limit, acc);
      var run := buf[cur.pos..r.next.pos];
      assert run[1..] == buf[cur.pos + 1..r.next.pos];
    } else {
      assert buf[cur.pos..cur.pos] == [];
    }
  }

  /** Horner's rule agrees with place value: acc moves up |s| places. */
  lemma {:induction false} HornerPlaces(acc: int, s: seq<Byte>)
    ensures Horner(acc, s) == acc * Pow10(|s|) + Decimal(s)
    decreases |s|
  {
    if s != [] {
      var d := s[0] - DIGIT_ZERO;
      HornerPlaces(acc * 10 + d, s[1..]);
      HornerStep(acc, d, Pow10(|s| - 1), Decimal(s[1..]), Horner(acc, s), Decimal(s), Pow10(|s|));
    }
  }

  /** One step of Horner's rule: the accumulated value moves up one place. */
  lemma HornerStep(acc: int, d: int, p: int, rest: int, value: int, dec: int, pk: int)
    requires value == (acc * 10 + d) * p + rest && dec == d * p + rest && pk == 10 * p
    ensures value == acc * pk + dec
  {
    calc {
      (acc * 10 + d) * p;
      acc * 10 * p + d * p;
      acc * (10 * p) + d * p;
    }
  }

  /** A run of n digits is worth less than 10^n. */
  lemma {:induction false} DecimalBound(s: seq<Byte>)
    requires forall i :: 0 <= i < |s| ==> Digit(s[i])
    ensures 0 <= Decimal(s) < Pow10(|s|)
  {
    if s != [] {
      var d, p := s[0] - DIGIT_ZERO, Pow10(|s| - 1);
      assert forall i :: 0 <= i < |s[1..]| ==> Digit(s[1..][i]) by {
        forall i | 0 <= i < |s[1..]| ensures Digit(s[1..][i]) {
          assert s[1..][i] == s[i + 1];
        }
      }
      DecimalBound(s[1..]);
      assert Decimal(s) == d * p + Decimal(s[1..]) && Pow10(|s|) == 10 * p;
      DigitPlace(d, p);
    }
  }

  /** A digit in a place worth p contributes 0 .. 9p. */
  lemma DigitPlace(d: int, p: nat)
    requires 0 <= d <= 9
    ensures 0 <= d * p <= 9 * p
  {
  }

  lemma {:induction false} Pow10Monotone(m: nat, n: nat)
    requires m <= n
    ensures Pow10(m) <= Pow10(n)
  {
    if m < n {
      Pow10Monotone(m, n - 1);
    }
  }

  /**
    Starting at column col >= 0, the digit reader reads a number below
    10^(limit - col): a glyph number has at most five digits.
   */
  lemma NumberBound(buf: seq<Byte>, cur: Cursor, limit: int)
    requires cur.pos <= |buf| && 0 <= cur.col <= limit
    ensures 0 <= ReadDigits(buf, cur, limit, 0).value < Pow10(limit - cur.col)
  {
    ReadDigitsMeaning(buf, cur, limit, 0);
    var r := ReadDigits(buf, cur, limit, 0);
    DecimalBound(buf[cur.pos..r.next.pos]);
    Pow10Monotone(r.next.pos - cur.pos, limit - cur.col);
  }
}
