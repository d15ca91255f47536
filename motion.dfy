/**
 * Where each cursor motion of src/cursor.js lands, as functions of the
 * document (its lines and soft-wrap breaks) and the cursor's position. The
 * `Cursor` methods are specified by these; the properties of the motions
 * (left and right undo each other, a vertical move lands on the target screen
 * row, a word move lands where the oracle points) are proved here.
 */
module Motion {
  import opened Wrappers
  import opened Position
  import opened Screen
  import opened JsString
  import opened Generic
  import opened Selections

  /** A position inside the document: an existing line, a column from 0 to the line's length. */
  predicate InDocument(ls: seq<string>, p: Point) {
    0 <= p.line < |ls| && 0 <= p.column <= |ls[p.line]|
  }

  /** `getLastLineLastColumn`: the end of the last line. */
  function LastLineLastColumn(ls: seq<string>): Point
    requires |ls| > 0
  {
    Point(|ls| - 1, |ls[|ls| - 1]|)
  }

  /** `Math.min` and `Math.max` on integers. */
  function Min(a: int, b: int): int {
    if a < b then a else b
  }

  function Max(a: int, b: int): int {
    if a > b then a else b
  }

  // ----- left and right -----

  /**
   * What a right move (and a forward word move) reads without failing: a
   * last line, and the cursor's line unless the cursor is at the very end.
   */
  predicate RightDefined(ls: seq<string>, p: Point) {
    |ls| > 0 && (p != LastLineLastColumn(ls) ==> 0 <= p.line < |ls|)
  }

  /** What a left move reads without failing: the previous line, when it leaves column 0 of a later line. */
  predicate LeftDefined(ls: seq<string>, p: Point) {
    p.column == 0 && p.line > 0 ==> p.line - 1 < |ls|
  }

  /**
   * `moveRight(cols)` from a collapsed position: nothing past the end of the
   * document; past the end of a line to column `cols - 1` of the next line;
   * otherwise `cols` columns to the right.
   */
  function RightTarget(ls: seq<string>, p: Point, cols: int): Point
    requires RightDefined(ls, p)
  {
    if p == LastLineLastColumn(ls) then p
    else if p.column + cols >= |ls[p.line]| + 1 then Point(p.line + 1, cols - 1)
    else Point(p.line, p.column + cols)
  }

  /**
   * `moveLeft(cols)` from a collapsed position: nothing at or before (0, 0);
   * from column 0 to `cols - 1` before the end of the previous line;
   * otherwise `cols` columns to the left.
   */
  function LeftTarget(ls: seq<string>, p: Point, cols: int): Point
    requires LeftDefined(ls, p)
  {
    if p.column <= 0 && p.line <= 0 then p
    else if p.column == 0 then Point(p.line - 1, |ls[p.line - 1]| - cols + 1)
    else Point(p.line, p.column - cols)
  }

  /** The two ends of the document do not move: left at (0, 0), right at the end of the last line. */
  lemma EndsAreFixed(ls: seq<string>, cols: int)
    requires |ls| > 0
    ensures LeftTarget(ls, Origin, cols) == Origin
    ensures RightTarget(ls, LastLineLastColumn(ls), cols) == LastLineLastColumn(ls)
  {
  }

  /**
   * One step right from the end of a line goes to the start of the next
   * line, and from inside a line one column on; one step left undoes it.
   */
  lemma RightThenLeft(ls: seq<string>, p: Point)
    requires InDocument(ls, p) && p != LastLineLastColumn(ls)
    ensures var q := RightTarget(ls, p, 1);
            && InDocument(ls, q)
            && q == (if p.column == |ls[p.line]| then Point(p.line + 1, 0) else Point(p.line, p.column + 1))
            && LeftTarget(ls, q, 1) == p
  {
  }

  /**
   * One step left from column 0 goes to the end of the previous line, and
   * otherwise one column back; one step right undoes it.
   */
  lemma LeftThenRight(ls: seq<string>, p: Point)
    requires InDocument(ls, p) && p != Origin
    ensures var q := LeftTarget(ls, p, 1);
            && InDocument(ls, q) && q != LastLineLastColumn(ls)
            && q == (if p.column == 0 then Point(p.line - 1, |ls[p.line - 1]|) else Point(p.line, p.column - 1))
            && RightTarget(ls, q, 1) == p
  {
  }

  // ----- up and down, through screen space -----

  /** A buffer position maps to an existing screen row. */
  lemma ToScreenRow(bs: seq<seq<int>>, l: nat, c: int)
    requires l < |bs|
    ensures 0 <= ToScreen(bs, l, c).0 < Rows(bs)
  {
    RowsPrefixBound(bs, l);
  }

  /**
   * The landing point of a vertical move on screen row `row`: the column is
   * capped at the row's text length, then mapped back to the buffer.
   */
  function ScreenTarget(ls: seq<string>, bs: seq<seq<int>>, row: int, col: int): Point
    requires 0 <= row < Rows(bs)
  {
    var newCol := Min(col, |ScreenRowText(ls, bs, row)|);
    LocateFound(bs, row);
    var found := ToBuffer(bs, row, newCol).value;
    Point(found.0, found.1)
  }

  /** `moveUp(n)`: to (0, 0) from the first line, else `n` screen rows up (not above row 0). */
  function UpTarget(ls: seq<string>, bs: seq<seq<int>>, p: Point, n: int): Point
    requires |bs| > 0 && n >= 0
  {
    if p.line == 0 then Origin
    else
      var l := Clamp(0, |bs| - 1, p.line);
      ToScreenRow(bs, l, p.column);
      var screen := ToScreen(bs, l, p.column);
      ScreenTarget(ls, bs, Max(0, screen.0 - n), screen.1)
  }

  /**
   * `moveDown(n)`: to the end of the document from the last line, else `n`
   * screen rows down (not below the last row).
   */
  function DownTarget(ls: seq<string>, bs: seq<seq<int>>, p: Point, n: int): Point
    requires |ls| == |bs| > 0 && n >= 0
  {
    if p.line == |ls| - 1 then LastLineLastColumn(ls)
    else
      var l := Clamp(0, |bs| - 1, p.line);
      ToScreenRow(bs, l, p.column);
      var screen := ToScreen(bs, l, p.column);
      ScreenTarget(ls, bs, Min(Rows(bs) - 1, screen.0 + n), screen.1)
  }

  /** Away from the last line, `moveDown` is a screen move `n` rows down, capped at the last row. */
  lemma DownTargetStep(ls: seq<string>, bs: seq<seq<int>>, p: Point, n: int, screen: (int, int))
    requires |ls| == |bs| > 0 && n >= 0 && p.line != |ls| - 1
    requires screen == ToScreen(bs, Clamp(0, |bs| - 1, p.line), p.column)
    ensures 0 <= Min(Rows(bs) - 1, screen.0 + n) < Rows(bs)
    ensures DownTarget(ls, bs, p, n) == ScreenTarget(ls, bs, Min(Rows(bs) - 1, screen.0 + n), screen.1)
  {
    ToScreenRow(bs, Clamp(0, |bs| - 1, p.line), p.column);
  }

  /** Away from the first line, `moveUp` is a screen move `n` rows up, stopping at row 0. */
  lemma UpTargetStep(ls: seq<string>, bs: seq<seq<int>>, p: Point, n: int, screen: (int, int))
    requires |bs| > 0 && n >= 0 && p.line != 0
    requires screen == ToScreen(bs, Clamp(0, |bs| - 1, p.line), p.column)
    ensures 0 <= Max(0, screen.0 - n) < Rows(bs)
    ensures UpTarget(ls, bs, p, n) == ScreenTarget(ls, bs, Max(0, screen.0 - n), screen.1)
  {
    ToScreenRow(bs, Clamp(0, |bs| - 1, p.line), p.column);
  }

  /** Every line's breaks are ascending offsets inside the line, as the wrap function promises. */
  ghost predicate AllBreaksOk(ls: seq<string>, bs: seq<seq<int>>) {
    |ls| == |bs| && forall l :: 0 <= l < |bs| ==> BreaksOk(bs[l], |ls[l]|)
  }

  /** The screen row of segment `s` of line `l`; that row is located back to the same segment. */
  function SegmentRow(bs: seq<seq<int>>, l: nat, s: nat): (row: nat)
    requires l < |bs| && s <= |bs[l]|
    ensures row < Rows(bs) && LocateRow(bs, row) == Some((l, s))
  {
    RowsPrefixBound(bs, l);
    LocatePrefix(bs, l, s);
    Rows(bs[..l]) + s
  }

  /** Every screen row is the row of exactly the segment it is located to. */
  lemma EveryRowIsASegmentRow(bs: seq<seq<int>>, row: int)
    requires 0 <= row < Rows(bs)
    ensures LocateRow(bs, row).Some?
    ensures var found := LocateRow(bs, row).value;
            found.1 >= 0 && found.1 <= |bs[found.0]| && SegmentRow(bs, found.0, found.1) == row
  {
    LocateFound(bs, row);
    LocateSound(bs, row);
  }

  /**
   * A vertical move to the row of segment `s` of line `l` lands on line `l`,
   * inside the document, at the column capped to the segment's width
   * (`LandInsideSegment` and `LandOnNextRow` say which screen row shows it).
   */
  lemma ScreenTargetLands(ls: seq<string>, bs: seq<seq<int>>, l: nat, s: nat, col: int)
    requires AllBreaksOk(ls, bs) && l < |bs| && s <= |bs[l]| && col >= 0
    ensures var width := SegmentWidth(bs[l], s, |ls[l]|);
            var c := SegmentStart(bs[l], s) + Min(col, width);
            && ScreenTarget(ls, bs, SegmentRow(bs, l, s), col) == Point(l, c)
            && 0 <= c <= |ls[l]|
  {
    var row := SegmentRow(bs, l, s);
    assert BreaksOk(bs[l], |ls[l]|);
    ScreenRowTextWidth(ls, bs, l, s);
    assert LocateRow(bs, row) == Some((l, s));
    assert |ScreenRowText(ls, bs, row)| == SegmentWidth(bs[l], s, |ls[l]|);
  }

  /**
   * The landing column, when it is inside segment `s` (or anywhere on the
   * line's last segment), shows on that segment's row at the same offset.
   */
  lemma LandInsideSegment(bs: seq<seq<int>>, l: nat, s: nat, n: int, x: int)
    requires l < |bs| && s <= |bs[l]| && BreaksOk(bs[l], n)
    requires 0 <= x && (s < |bs[l]| ==> x < SegmentWidth(bs[l], s, n))
    ensures ToScreen(bs, l, SegmentStart(bs[l], s) + x) == (SegmentRow(bs, l, s), x)
  {
    ScreenRoundTrip(bs, l, s, x);
  }

  /**
   * The landing column, when the target column reaches the end of a segment
   * followed by another, shows at the start of the next row.
   */
  lemma LandOnNextRow(bs: seq<seq<int>>, l: nat, s: nat, n: int)
    requires l < |bs| && s < |bs[l]| && BreaksOk(bs[l], n)
    ensures ToScreen(bs, l, SegmentStart(bs[l], s) + SegmentWidth(bs[l], s, n)) == (SegmentRow(bs, l, s) + 1, 0)
  {
    SegmentEndNextRow(bs[l], s, n);
  }

  /** The column at the end of a segment followed by another is the first column of the next row. */
  lemma SegmentEndNextRow(b: seq<int>, s: nat, n: int)
    requires BreaksOk(b, n) && s < |b|
    ensures SegmentStart(b, s) + SegmentWidth(b, s, n) == b[s] == SegmentStart(b, s + 1)
    ensures SegmentOffset(b, b[s]) == s + 1
  {
    if s + 1 < |b| {
      assert b[s] < b[s + 1];
    }
    OffsetInsideSegment(b, s + 1, b[s]);
  }

  // ----- start and end of the screen row -----

  /** `moveToStartOfLine`: column 0 of the cursor's screen row, mapped back to the buffer. */
  function RowStartTarget(bs: seq<seq<int>>, p: Point): Point
    requires |bs| > 0
  {
    var l := Clamp(0, |bs| - 1, p.line);
    ToScreenRow(bs, l, p.column);
    var row := ToScreen(bs, l, p.column).0;
    LocateFound(bs, row);
    var found := ToBuffer(bs, row, 0).value;
    Point(found.0, found.1)
  }

  /** `moveToEndOfLine`: the end of the cursor's screen row's text, mapped back to the buffer. */
  function RowEndTarget(ls: seq<string>, bs: seq<seq<int>>, p: Point): Point
    requires |bs| > 0
  {
    var l := Clamp(0, |bs| - 1, p.line);
    ToScreenRow(bs, l, p.column);
    var row := ToScreen(bs, l, p.column).0;
    LocateFound(bs, row);
    var found := ToBuffer(bs, row, |ScreenRowText(ls, bs, row)|).value;
    Point(found.0, found.1)
  }

  /** The start of the row is the start of the segment holding the column, on the same line. */
  lemma RowStartIsSegmentStart(bs: seq<seq<int>>, p: Point)
    requires |bs| > 0
    ensures var l := Clamp(0, |bs| - 1, p.line);
            RowStartTarget(bs, p) == Point(l, SegmentStart(bs[l], SegmentOffset(bs[l], p.column)))
  {
    var l := Clamp(0, |bs| - 1, p.line);
    LocatePrefix(bs, l, SegmentOffset(bs[l], p.column));
  }

  /**
   * With well-formed breaks, the end of the row is the end of the segment
   * holding the column: the next break, or the end of the line.
   */
  lemma RowEndIsSegmentEnd(ls: seq<string>, bs: seq<seq<int>>, p: Point)
    requires AllBreaksOk(ls, bs) && |bs| > 0
    ensures var l := Clamp(0, |bs| - 1, p.line);
            RowEndTarget(ls, bs, p) == Point(l, SegmentEnd(bs[l], SegmentOffset(bs[l], p.column)).GetOr(|ls[l]|))
  {
    var l := Clamp(0, |bs| - 1, p.line);
    var s := SegmentOffset(bs[l], p.column);
    assert ToScreen(bs, l, p.column).0 == SegmentRow(bs, l, s);
    SegmentRowEnd(ls, bs, l, s);
  }

  /** The end of the text of segment `s`'s row maps back to the segment's end column. */
  lemma SegmentRowEnd(ls: seq<string>, bs: seq<seq<int>>, l: nat, s: nat)
    requires AllBreaksOk(ls, bs) && l < |bs| && s <= |bs[l]|
    ensures var row := SegmentRow(bs, l, s);
            ToBuffer(bs, row, |ScreenRowText(ls, bs, row)|) == Some((l, SegmentEnd(bs[l], s).GetOr(|ls[l]|)))
  {
    assert BreaksOk(bs[l], |ls[l]|);
    ScreenRowTextWidth(ls, bs, l, s);
    SegmentWidthEnd(ls, bs, l, s);
  }

  /** A row whose text is as wide as its segment ends, once mapped back, at the segment's end column. */
  lemma SegmentWidthEnd(ls: seq<string>, bs: seq<seq<int>>, l: nat, s: nat)
    requires |ls| == |bs| && l < |bs| && s <= |bs[l]|
    requires |ScreenRowText(ls, bs, Rows(bs[..l]) + s)| == SegmentWidth(bs[l], s, |ls[l]|)
    ensures var row := SegmentRow(bs, l, s);
            ToBuffer(bs, row, |ScreenRowText(ls, bs, row)|) == Some((l, SegmentEnd(bs[l], s).GetOr(|ls[l]|)))
  {
    var row := SegmentRow(bs, l, s);
    var w := |ScreenRowText(ls, bs, row)|;
    assert ToBuffer(bs, row, w) == Some((l, SegmentStart(bs[l], s) + w));
  }

  // ----- words, through the word-boundary oracle -----

  /**
   * The browser's word-boundary oracle: the caret offset after moving one
   * word in `direction` from offset `column` of `text`.
   */
  type WordOracle = (string, Direction, int) -> int

  /**
   * The offset of position `q` in the two-line text `first + "\n" + second`,
   * where `first` is line `firstLine` and has `firstLength` characters.
   */
  function JoinedOffset(firstLine: int, firstLength: nat, q: Point): int {
    if q.line == firstLine then q.column else firstLength + 1 + q.column
  }

  /** The position of offset `k` of `first + "\n" + second`: on the first line up to its end, else on the second. */
  function FromJoinedOffset(firstLine: int, firstLength: nat, k: int): Point {
    if k <= firstLength then Point(firstLine, k) else Point(firstLine + 1, k - firstLength - 1)
  }

  /** Offsets of the two-line text and positions on its two lines correspond one to one. */
  lemma JoinedOffsetRoundTrip(firstLine: int, firstLength: nat, k: int, q: Point)
    ensures JoinedOffset(firstLine, firstLength, FromJoinedOffset(firstLine, firstLength, k)) == k
    ensures (q.line == firstLine && q.column <= firstLength) || (q.line == firstLine + 1 && q.column >= 0) ==>
              FromJoinedOffset(firstLine, firstLength, JoinedOffset(firstLine, firstLength, q)) == q
  {
  }

  /**
   * `moveToStartOfWord` as written: off the first line, the oracle runs on the
   * previous line and this one joined by "\n", from offset `column + prevLine.length`.
   */
  function WordStartTarget(ls: seq<string>, p: Point, oracle: WordOracle): Point
    requires 0 <= p.line < |ls|
  {
    if p.line != 0 then
      var prev := ls[p.line - 1];
      var column := oracle(prev + "\n" + ls[p.line], Backward, p.column + |prev|);
      if column <= |prev| then Point(p.line - 1, column) else Point(p.line, column - |prev| - 1)
    else Point(p.line, oracle(ls[p.line], Backward, p.column))
  }

  /**
   * The offset the as-written backward word move hands the oracle is one
   * less than the cursor's own offset in the joined text, so the oracle
   * starts one character to the left of the cursor.
   */
  lemma WordStartAsksOneLeft(ls: seq<string>, p: Point)
    requires 0 < p.line < |ls|
    ensures p.column + |ls[p.line - 1]| == JoinedOffset(p.line - 1, |ls[p.line - 1]|, p) - 1
  {
  }

  /**
   * An oracle answering as a browser does on "ab\nc d" (from offset 4, just
   * after "c", back to 3; from offset 3 back to 0): from (1, 1) the cursor
   * should go to (1, 0), the start of "c", but the as-written move goes to
   * (0, 0).
   */
  lemma WordStartSkipsAWord()
    ensures var oracle: WordOracle := (text, direction, column) => if column == 4 then 3 else 0;
            && WordStartTarget(["ab", "c d"], Point(1, 1), oracle) == Point(0, 0)
            && WordStartTargetFixed(["ab", "c d"], Point(1, 1), oracle) == Point(1, 0)
  {
    assert |"ab"| == 2;
  }

  /** `moveToStartOfWord` with the cursor's own offset, `prevLine.length + 1 + column`, handed to the oracle. */
  function WordStartTargetFixed(ls: seq<string>, p: Point, oracle: WordOracle): Point
    requires 0 <= p.line < |ls|
  {
    if p.line != 0 then
      var prev := ls[p.line - 1];
      var column := oracle(prev + "\n" + ls[p.line], Backward, JoinedOffset(p.line - 1, |prev|, p));
      FromJoinedOffset(p.line - 1, |prev|, column)
    else Point(p.line, oracle(ls[p.line], Backward, p.column))
  }

  /**
   * The corrected backward word move asks the oracle about the cursor's own
   * offset and lands on the position of the offset it answers, on this line
   * or the previous one.
   */
  lemma WordStartFollowsOracle(ls: seq<string>, p: Point, oracle: WordOracle)
    requires 0 < p.line < |ls| && p.column >= 0
    ensures var prev := ls[p.line - 1];
            var asked := JoinedOffset(p.line - 1, |prev|, p);
            var r := WordStartTargetFixed(ls, p, oracle);
            && asked == |prev| + 1 + p.column
            && JoinedOffset(p.line - 1, |prev|, r) == oracle(prev + "\n" + ls[p.line], Backward, asked)
            && (r.line == p.line - 1 || r.line == p.line)
  {
    var prev := ls[p.line - 1];
    JoinedOffsetRoundTrip(p.line - 1, |prev|, oracle(prev + "\n" + ls[p.line], Backward, JoinedOffset(p.line - 1, |prev|, p)), p);
  }

  /**
   * `moveToEndOfWord`: nothing at the end of the document; with a next line,
   * the oracle runs on this line and the next joined by "\n" from the
   * cursor's column; on the last line, on this line alone.
   */
  function WordEndTarget(ls: seq<string>, p: Point, oracle: WordOracle): Point
    requires RightDefined(ls, p)
  {
    if p == LastLineLastColumn(ls) then p
    else if p.line + 1 < |ls| then
      var line := ls[p.line];
      var column := oracle(line + "\n" + ls[p.line + 1], Forward, p.column);
      if column > |line| then Point(p.line + 1, column - |line| - 1) else Point(p.line, column)
    else Point(p.line, oracle(ls[p.line], Forward, p.column))
  }

  /**
   * The forward word move asks the oracle about the cursor's own offset and
   * lands on the position of the offset it answers, on this line or the next.
   */
  lemma WordEndFollowsOracle(ls: seq<string>, p: Point, oracle: WordOracle)
    requires 0 <= p.line && p.line + 1 < |ls| && p != LastLineLastColumn(ls)
    ensures var line := ls[p.line];
            var r := WordEndTarget(ls, p, oracle);
            && JoinedOffset(p.line, |line|, p) == p.column
            && JoinedOffset(p.line, |line|, r) == oracle(line + "\n" + ls[p.line + 1], Forward, p.column)
            && (r.line == p.line || r.line == p.line + 1)
  {
    var line := ls[p.line];
    JoinedOffsetRoundTrip(p.line, |line|, oracle(line + "\n" + ls[p.line + 1], Forward, p.column), p);
  }
}
