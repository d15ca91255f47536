/**
 * A cursor (src/cursor.js): a selection and the motions that move its focus
 * and, unless the motion extends the selection, its anchor with it. Every
 * motion is specified by the landing point `Motion` computes from the
 * document and the old focus. The editor's buffer, which the source reads
 * from the global editor state, is a parameter, and so is the browser's
 * word-boundary calculation (`oracle`).
 */
module Cursors {
  import opened Wrappers
  import opened Position
  import opened Screen
  import opened JsString
  import opened Generic
  import opened LineEdits
  import opened Selections
  import opened Motion
  import opened Buffers

  /** `getLastLineNumber`: the number of the buffer's last line. */
  method GetLastLineNumber(buffer: Buffer) returns (n: int)
    requires buffer.Valid()
    ensures n == |buffer.Lines()| - 1
  {
    n := buffer.length - 1;
  }

  /** `getLastScreenLineNumber`: the number of the last screen row. */
  method GetLastScreenLineNumber(buffer: Buffer) returns (n: int)
    requires buffer.Valid()
    ensures n == Rows(buffer.Breaks()) - 1
  {
    buffer.ValidShape();
    n := buffer.screenLength - 1;
  }

  /** `getLastLine`: the text of the last line; None for an empty buffer. */
  method GetLastLine(buffer: Buffer) returns (line: Option<string>)
    requires buffer.Valid()
    ensures line == if buffer.Lines() == [] then None else Some(buffer.Lines()[|buffer.Lines()| - 1])
  {
    var last := GetLastLineNumber(buffer);
    line := buffer.GetLineContent(last);
  }

  /** `getLastLineLastColumn`: the end of the document. */
  method GetLastLineLastColumn(buffer: Buffer) returns (p: Point)
    requires buffer.Valid() && buffer.length > 0
    ensures p == LastLineLastColumn(buffer.Lines())
  {
    var last := GetLastLineNumber(buffer);
    var line := GetLastLine(buffer);
    p := Point(last, |line.value|);
  }

  /**
   * What `deleteSelection` does to the lines, as written: within one line
   * the text between the two columns goes; across lines the first line is
   * cut at the length of the text of the SCREEN row numbered like the first
   * line, the lines between go and the rest of the last line is appended.
   */
  function SelectionDeleted(ls: seq<string>, bs: seq<seq<int>>, s: Point, e: Point): seq<string>
    requires 0 <= s.line <= e.line < |ls|
  {
    if s.line == e.line then ls[s.line := DeleteText(ls[s.line], s.column, e.column - s.column)]
    else DeleteAcross(ls, s.line, s.column, e.line, e.column, |ScreenRowText(ls, bs, s.line)|)
  }

  /** `deleteSelection` with the first line cut at its own length, as evidently intended. */
  function SelectionDeletedFixed(ls: seq<string>, s: Point, e: Point): seq<string>
    requires 0 <= s.line <= e.line < |ls|
  {
    if s.line == e.line then ls[s.line := DeleteText(ls[s.line], s.column, e.column - s.column)]
    else DeleteAcross(ls, s.line, s.column, e.line, e.column, |ls[s.line]|)
  }

  /** The corrected deletion of a selection inside the document takes out exactly the selected range. */
  lemma SelectionDeletedFixedIsRange(ls: seq<string>, s: Point, e: Point)
    requires InDocument(ls, s) && InDocument(ls, e) && !After(s, e)
    ensures SelectionDeletedFixed(ls, s, e) == DeleteRange(ls, s.line, s.column, e.line, e.column)
  {
    if s.line == e.line {
      DeleteWithinLine(ls, s.line, s.column, e.column);
    } else {
      DeleteAcrossIsRange(ls, s.line, s.column, e.line, e.column);
    }
  }

  /** Without wrapped lines the screen row is the line, and the deletion as written is the corrected one. */
  lemma UnwrappedSelectionDeleted(ls: seq<string>, bs: seq<seq<int>>, s: Point, e: Point)
    requires |ls| == |bs| && 0 <= s.line <= e.line < |ls|
    requires forall j :: 0 <= j < |bs| ==> bs[j] == []
    ensures SelectionDeleted(ls, bs, s, e) == SelectionDeletedFixed(ls, s, e)
  {
    UnwrappedRowText(ls, bs, s.line);
  }

  /**
   * On ["abcdef", "gh"] with the first line wrapped after "abc", deleting
   * from (0, 1) to (1, 1) measures the screen row "abc" and leaves "adefh"
   * where the selected range removed gives "ah".
   */
  lemma SelectionDeletedMeasuresScreenRow()
    ensures SelectionDeleted(["abcdef", "gh"], [[3], []], Point(0, 1), Point(1, 1)) == ["adefh"]
    ensures SelectionDeletedFixed(["abcdef", "gh"], Point(0, 1), Point(1, 1)) == ["ah"]
  {
    var ls, bs := ["abcdef", "gh"], [[3], []];
    assert bs[..0] == [];
    LocatePrefix(bs, 0, 0);
    assert Slice(ls[0], 0, 3) == "abc";
    assert |ScreenRowText(ls, bs, 0)| == 3;
    DeleteAcrossShortLen();
    DeleteAcrossIsRange(ls, 0, 1, 1, 1);
  }

  /** The buffer edit of `deleteSelection` as written, from `start` to `end`. */
  method DeleteBetween(buffer: Buffer, start: Point, end: Point)
    requires buffer.Valid() && 0 <= start.line <= end.line < buffer.length
    modifies buffer, buffer.lineBuffers
    ensures buffer.Valid() && buffer.lineBuffers == old(buffer.lineBuffers)
    ensures buffer.Lines() == SelectionDeleted(old(buffer.Lines()), old(buffer.Breaks()), start, end)
    ensures old(buffer.Wrapped()) ==> buffer.Wrapped()
  {
    if start.line == end.line {
      DeleteAndRewrap(buffer, start.line, start.column, end.column - start.column);
    } else {
      var text := buffer.GetScreenLineContent(start.line);
      DeleteAcrossLines(buffer, start, end, |text|);
    }
  }

  /** The buffer edit of `deleteSelection` with the first line measured by its own length. */
  method DeleteBetweenFixed(buffer: Buffer, start: Point, end: Point)
    requires buffer.Valid() && 0 <= start.line <= end.line < buffer.length
    modifies buffer, buffer.lineBuffers
    ensures buffer.Valid() && buffer.lineBuffers == old(buffer.lineBuffers)
    ensures buffer.Lines() == SelectionDeletedFixed(old(buffer.Lines()), start, end)
    ensures old(buffer.Wrapped()) ==> buffer.Wrapped()
  {
    if start.line == end.line {
      DeleteAndRewrap(buffer, start.line, start.column, end.column - start.column);
    } else {
      var line := buffer.GetLineContent(start.line);
      DeleteAcrossLines(buffer, start, end, |line.value|);
    }
  }

  /**
   * The cross-line part of `deleteSelection`: cut line `s.line` at `len`,
   * remove the lines between, cut the start of line `e.line` and join it to
   * line `s.line`. The document stays wrapped if it was.
   */
  method DeleteAcrossLines(buffer: Buffer, s: Point, e: Point, len: int)
    requires buffer.Valid() && 0 <= s.line < e.line < buffer.length
    modifies buffer, buffer.lineBuffers
    ensures buffer.Valid() && buffer.lineBuffers == old(buffer.lineBuffers)
    ensures buffer.Lines() == DeleteAcross(old(buffer.Lines()), s.line, s.column, e.line, e.column, len)
    ensures old(buffer.Wrapped()) ==> buffer.Wrapped()
  {
    ghost var lines0 := buffer.Lines();
    DeleteAndRewrap(buffer, s.line, len, s.column - len);
    ghost var cut := buffer.Lines();
    var x := s.line + 1;
    var y := e.line - 1;
    var between := y - x + 1;
    RemoveLines(buffer, x, between);
    ghost var dropped := buffer.Lines();
    assert dropped == cut[..s.line + 1] + cut[e.line..];
    var last := e.line - between;
    assert last == s.line + 1;
    JoinCutLine(buffer, last, e.column);
    DeleteAcrossSteps(lines0, s.line, s.column, e.line, e.column, len, cut, dropped);
  }

  /** `delete(line, column, change)` followed by `wrapLine(line)`; a wrapped document stays wrapped. */
  method DeleteAndRewrap(buffer: Buffer, line: int, column: int, change: int)
    requires buffer.Valid() && 0 <= line < buffer.length
    modifies buffer, buffer.lineBuffers
    ensures buffer.Valid() && buffer.lineBuffers == old(buffer.lineBuffers)
    ensures buffer.Lines() == old(buffer.Lines())[line := DeleteText(old(buffer.Lines())[line], column, change)]
    ensures old(buffer.Wrapped()) ==> buffer.Wrapped()
  {
    ghost var lines0, breaks0 := buffer.Lines(), buffer.Breaks();
    ghost var wrapped := buffer.Wrapped();
    buffer.Delete(line, column, change);
    buffer.ValidShape();
    buffer.WrapLine(line);
    if wrapped {
      WrappedByUpdate(lines0, breaks0, buffer.getLineBreak, line, buffer.Lines()[line]);
    }
  }

  /** `count` calls of `removeLine(x)`: the `count` lines from `x` on leave the document. */
  method RemoveLines(buffer: Buffer, x: int, count: int)
    requires buffer.Valid() && 0 <= x && 0 <= count && x + count <= buffer.length
    modifies buffer, buffer.lineBuffers
    ensures buffer.Valid() && buffer.lineBuffers == old(buffer.lineBuffers)
    ensures buffer.Lines() == old(buffer.Lines())[..x] + old(buffer.Lines())[x + count..]
    ensures old(buffer.Wrapped()) ==> buffer.Wrapped()
  {
    ghost var lines1 := buffer.Lines();
    ghost var wrapped := buffer.Wrapped();
    for i := 0 to count
      invariant buffer.Valid() && buffer.lineBuffers == old(buffer.lineBuffers)
      invariant buffer.Lines() == lines1[..x] + lines1[x + i..]
      invariant wrapped ==> buffer.Wrapped()
    {
      ghost var before := buffer.Lines();
      var deleted := buffer.RemoveLine(x);
      assert RemoveAt(before, x) == lines1[..x] + lines1[x + i + 1..];
    }
  }

  /**
   * `delete(line, 0, column)` followed by `splitUp(line)`: the line loses its
   * first `column` characters and is joined to the line above, which is
   * rewrapped; a wrapped document stays wrapped.
   */
  method JoinCutLine(buffer: Buffer, line: int, column: int)
    requires buffer.Valid() && 0 < line < buffer.length
    modifies buffer, buffer.lineBuffers
    ensures buffer.Valid() && buffer.lineBuffers == old(buffer.lineBuffers)
    ensures buffer.Lines() ==
              SplitUpLines(old(buffer.Lines())[line := DeleteText(old(buffer.Lines())[line], 0, column)], line)
    ensures old(buffer.Wrapped()) ==> buffer.Wrapped()
  {
    ghost var lines0, breaks0 := buffer.Lines(), buffer.Breaks();
    ghost var wrapped := buffer.Wrapped();
    buffer.Delete(line, 0, column);
    buffer.ValidShape();
    buffer.SplitUp(line);
    if wrapped {
      WrappedBySplitUp(lines0, breaks0, buffer.getLineBreak, line, DeleteText(lines0[line], 0, column));
    }
  }

  /**
   * The common end of `moveUp` and `moveDown`: the screen column capped at
   * the length of row `newLine`'s text, and that screen position mapped back
   * to the buffer.
   */
  method ScreenMove(buffer: Buffer, newLine: int, screenCol: int) returns (q: Point)
    requires buffer.Valid() && 0 <= newLine < Rows(buffer.Breaks())
    ensures q == ScreenTarget(buffer.Lines(), buffer.Breaks(), newLine, screenCol)
  {
    var text := buffer.GetScreenLineContent(newLine);
    var newCol := Min(screenCol, |text|);
    LocateFound(buffer.Breaks(), newLine);
    var found := buffer.ScreenToBuffer(newLine, newCol);
    q := Point(found.value.0, found.value.1);
  }

  /** Where `moveUp` puts a cursor at `p`: (0, 0) from the first line, else `lines` screen rows up. */
  method UpPoint(buffer: Buffer, p: Point, lines: int) returns (newPoint: Point)
    requires buffer.Valid() && buffer.length > 0 && lines >= 0
    ensures newPoint == UpTarget(buffer.Lines(), buffer.Breaks(), p, lines)
  {
    if p.line == 0 {
      newPoint := Point(0, 0);
    } else {
      var screen := buffer.BufferToScreen(p.line, p.column);
      UpTargetStep(buffer.Lines(), buffer.Breaks(), p, lines, screen);
      var newLine := Max(0, screen.0 - lines);
      newPoint := ScreenMove(buffer, newLine, screen.1);
    }
  }

  /** Where `moveDown` puts a cursor at `p`: the end from the last line, else `lines` screen rows down. */
  method DownPoint(buffer: Buffer, p: Point, lines: int) returns (newPoint: Point)
    requires buffer.Valid() && buffer.length > 0 && lines >= 0
    ensures newPoint == DownTarget(buffer.Lines(), buffer.Breaks(), p, lines)
  {
    var lastLine := GetLastLineNumber(buffer);
    if p.line == lastLine {
      newPoint := GetLastLineLastColumn(buffer);
    } else {
      newPoint := DownScreenPoint(buffer, p, lines);
    }
  }

  /** `moveDown` away from the last line: `lines` screen rows down, at most to the last row. */
  method DownScreenPoint(buffer: Buffer, p: Point, lines: int) returns (newPoint: Point)
    requires buffer.Valid() && buffer.length > 0 && lines >= 0 && p.line != buffer.length - 1
    ensures newPoint == DownTarget(buffer.Lines(), buffer.Breaks(), p, lines)
  {
    ghost var ls, bs := buffer.Lines(), buffer.Breaks();
    var screen := buffer.BufferToScreen(p.line, p.column);
    DownTargetStep(ls, bs, p, lines, screen);
    var lastScreenLine := GetLastScreenLineNumber(buffer);
    var newLine := Min(lastScreenLine, screen.0 + lines);
    newPoint := ScreenMove(buffer, newLine, screen.1);
    assert buffer.Lines() == ls;
    assert buffer.Breaks() == bs;
    assert newLine == Min(Rows(bs) - 1, screen.0 + lines);
    assert newPoint == ScreenTarget(ls, bs, newLine, screen.1);
  }

  class Cursor {
    /** The cursor's selection; the cursor never replaces it. */
    const selection: Selection

    ghost predicate Valid()
      reads selection
    {
      selection.Valid()
    }

    /** The focus is at `p`; the anchor is kept when selecting and follows to `p` otherwise. */
    ghost predicate MovedTo(p: Point, select: bool, anchor: Point)
      reads selection
    {
      selection.Valid() && selection.focus == p && selection.anchor == (if select then anchor else p)
    }

    /** `new Cursor({ point })`: a collapsed selection at `point`, or at (0, 0). */
    constructor (point: Option<Point>)
      ensures Valid() && fresh(selection)
      ensures var p := if point.Some? then point.value else Origin;
              selection.focus == p && selection.anchor == p && selection.isCollapsed
    {
      selection := new Selection(point);
    }

    /** `moveTo(line, column, select)`: focus to (line, column), the anchor too unless selecting. */
    method MoveTo(line: int, column: int, select: bool)
      modifies selection
      ensures MovedTo(Point(line, column), select, old(selection.anchor))
    {
      var point := Point(line, column);
      selection.SetFocus(point);
      if !select {
        selection.SetAnchor(point);
      }
    }

    /** `moveToPoint(point, select)`. */
    method MoveToPoint(point: Point, select: bool)
      modifies selection
      ensures MovedTo(point, select, old(selection.anchor))
    {
      MoveTo(point.line, point.column, select);
    }

    /** `moveWithSelect(point, select)`. */
    method MoveWithSelect(point: Point, select: bool)
      modifies selection
      ensures MovedTo(point, select, old(selection.anchor))
    {
      MoveTo(point.line, point.column, select);
    }

    /** `moveSelection(anchor, focus)`: the selection becomes exactly anchor to focus. */
    method MoveSelection(anchor: Point, focus: Point)
      modifies selection
      ensures MovedTo(focus, true, anchor)
    {
      MoveTo(anchor.line, anchor.column, false);
      MoveTo(focus.line, focus.column, true);
    }

    /**
     * `moveUp(lines, select)`: from the first line to (0, 0); otherwise
     * `lines` screen rows up, at the same screen column capped at the
     * row's length.
     */
    method MoveUp(buffer: Buffer, lines: int, select: bool)
      requires Valid() && buffer.Valid() && buffer.length > 0 && lines >= 0
      modifies selection
      ensures MovedTo(UpTarget(buffer.Lines(), buffer.Breaks(), old(selection.focus), lines), select, old(selection.anchor))
    {
      var newPoint := UpPoint(buffer, selection.focus, lines);
      MoveWithSelect(newPoint, select);
    }

    /**
     * `moveDown(lines, select)`: from the last line to the end of the
     * document; otherwise `lines` screen rows down (not past the last row),
     * at the same screen column capped at the row's length.
     */
    method MoveDown(buffer: Buffer, lines: int, select: bool)
      requires Valid() && buffer.Valid() && buffer.length > 0 && lines >= 0
      modifies selection
      ensures MovedTo(DownTarget(buffer.Lines(), buffer.Breaks(), old(selection.focus), lines), select, old(selection.anchor))
    {
      var newPoint := DownPoint(buffer, selection.focus, lines);
      MoveWithSelect(newPoint, select);
    }

    /**
     * `moveRight(cols, select)`: a selection that is not being extended
     * collapses to its end; otherwise the focus moves as `RightTarget` says.
     */
    method MoveRight(buffer: Buffer, cols: int, select: bool)
      requires Valid() && buffer.Valid()
      requires selection.isCollapsed || select ==> RightDefined(buffer.Lines(), selection.focus)
      modifies selection
      ensures !old(selection.isCollapsed) && !select ==> MovedTo(old(selection.end), false, old(selection.anchor))
      ensures old(selection.isCollapsed) || select ==>
                MovedTo(RightTarget(buffer.Lines(), old(selection.focus), cols), select, old(selection.anchor))
    {
      if !selection.isCollapsed && !select {
        MoveToPoint(selection.end, false);
        return;
      }
      var last := GetLastLineLastColumn(buffer);
      var p := selection.focus;
      EqualsIsIdentity(p, last);
      if Equals(p, last) {
        MoveWithSelect(last, select);
        return;
      }
      var newColumn := p.column + cols;
      var thisLine := buffer.GetLineContent(p.line);
      var newPoint := p;
      if newColumn >= |thisLine.value| + 1 {
        newPoint := Point(p.line + 1, cols - 1);
      } else {
        newPoint := Point(p.line, p.column + cols);
      }
      MoveWithSelect(newPoint, select);
    }

    /**
     * `moveLeft(cols, select)`: a selection that is not being extended
     * collapses to its start; otherwise the focus moves as `LeftTarget` says.
     */
    method MoveLeft(buffer: Buffer, cols: int, select: bool)
      requires Valid() && buffer.Valid()
      requires selection.isCollapsed || select ==> LeftDefined(buffer.Lines(), selection.focus)
      modifies selection
      ensures !old(selection.isCollapsed) && !select ==> MovedTo(old(selection.start), false, old(selection.anchor))
      ensures old(selection.isCollapsed) || select ==>
                MovedTo(LeftTarget(buffer.Lines(), old(selection.focus), cols), select, old(selection.anchor))
    {
      if !selection.isCollapsed && !select {
        MoveToPoint(selection.start, false);
        return;
      }
      var p := selection.focus;
      if p.column <= 0 && p.line <= 0 {
        EqualsIsIdentity(p, selection.anchor);
        return;
      }
      var newPoint := p;
      if p.column == 0 {
        var prev := buffer.GetLineContent(p.line - 1);
        newPoint := Point(p.line - 1, |prev.value| - cols + 1);
      } else {
        newPoint := Point(p.line, p.column - cols);
      }
      MoveWithSelect(newPoint, select);
    }

    /** `moveToTop(select)`: to (0, 0). */
    method MoveToTop(select: bool)
      modifies selection
      ensures MovedTo(Origin, select, old(selection.anchor))
    {
      MoveWithSelect(Point(0, 0), select);
    }

    /** `moveToBottom(select)`: to the end of the document. */
    method MoveToBottom(buffer: Buffer, select: bool)
      requires buffer.Valid() && buffer.length > 0
      modifies selection
      ensures MovedTo(LastLineLastColumn(buffer.Lines()), select, old(selection.anchor))
    {
      var last := GetLastLineLastColumn(buffer);
      MoveWithSelect(last, select);
    }

    /** `moveToStartOfLine(select)`: to the start of the cursor's screen row. */
    method MoveToStartOfLine(buffer: Buffer, select: bool)
      requires buffer.Valid() && buffer.length > 0
      modifies selection
      ensures MovedTo(RowStartTarget(buffer.Breaks(), old(selection.focus)), select, old(selection.anchor))
    {
      var p := selection.focus;
      var screen := buffer.BufferToScreen(p.line, p.column);
      ToScreenRow(buffer.Breaks(), Clamp(0, buffer.length - 1, p.line), p.column);
      LocateFound(buffer.Breaks(), screen.0);
      var found := buffer.ScreenToBuffer(screen.0, 0);
      MoveWithSelect(Point(found.value.0, found.value.1), select);
    }

    /** `moveToEndOfLine(select)`: to the end of the text of the cursor's screen row. */
    method MoveToEndOfLine(buffer: Buffer, select: bool)
      requires buffer.Valid() && buffer.length > 0
      modifies selection
      ensures MovedTo(RowEndTarget(buffer.Lines(), buffer.Breaks(), old(selection.focus)), select, old(selection.anchor))
    {
      var p := selection.focus;
      var screen := buffer.BufferToScreen(p.line, p.column);
      ToScreenRow(buffer.Breaks(), Clamp(0, buffer.length - 1, p.line), p.column);
      var text := buffer.GetScreenLineContent(screen.0);
      LocateFound(buffer.Breaks(), screen.0);
      var found := buffer.ScreenToBuffer(screen.0, |text|);
      MoveWithSelect(Point(found.value.0, found.value.1), select);
    }

    /** `startOfNextLine()`: collapsed at the start of the next line. */
    method StartOfNextLine()
      modifies selection
      ensures MovedTo(Point(old(selection.focus.line) + 1, 0), false, old(selection.anchor))
    {
      MoveTo(selection.focus.line + 1, 0, false);
    }

    /**
     * `moveToStartOfWord(select)`, with the oracle asked about the cursor's
     * own offset in the two-line text (see `WordStartTarget` for the offset
     * as written).
     */
    method MoveToStartOfWord(buffer: Buffer, oracle: WordOracle, select: bool)
      requires buffer.Valid() && 0 <= selection.focus.line < buffer.length
      modifies selection
      ensures MovedTo(WordStartTargetFixed(buffer.Lines(), old(selection.focus), oracle), select, old(selection.anchor))
    {
      var p := selection.focus;
      var line := buffer.GetLineContent(p.line);
      var prevLine := buffer.GetLineContent(p.line - 1);
      var newPoint := p;
      if p.line != 0 {
        var prev := prevLine.value;
        var column := oracle(prev + "\n" + line.value, Backward, |prev| + 1 + p.column);
        if column <= |prev| {
          newPoint := Point(p.line - 1, column);
        } else {
          newPoint := Point(p.line, column - |prev| - 1);
        }
      } else {
        var column := oracle(line.value, Backward, p.column);
        newPoint := Point(p.line, column);
      }
      MoveWithSelect(newPoint, select);
    }

    /** `moveToEndOfWord(select)`: to where the forward word oracle points. */
    method MoveToEndOfWord(buffer: Buffer, oracle: WordOracle, select: bool)
      requires buffer.Valid() && RightDefined(buffer.Lines(), selection.focus)
      modifies selection
      ensures MovedTo(WordEndTarget(buffer.Lines(), old(selection.focus), oracle), select, old(selection.anchor))
    {
      var last := GetLastLineLastColumn(buffer);
      var p := selection.focus;
      EqualsIsIdentity(p, last);
      if Equals(p, last) {
        MoveWithSelect(last, select);
        return;
      }
      var line := buffer.GetLineContent(p.line);
      var nextLine := buffer.GetLineContent(p.line + 1);
      var newPoint := p;
      if nextLine.Some? {
        var column := oracle(line.value + "\n" + nextLine.value, Forward, p.column);
        if column > |line.value| {
          newPoint := Point(p.line + 1, column - |line.value| - 1);
        } else {
          newPoint := Point(p.line, column);
        }
      } else {
        var column := oracle(line.value, Forward, p.column);
        newPoint := Point(p.line, column);
      }
      MoveWithSelect(newPoint, select);
    }

    /** `moveToStartOfParagraph(select)`: to column 0 of the cursor's line. */
    method MoveToStartOfParagraph(select: bool)
      modifies selection
      ensures MovedTo(Point(old(selection.focus.line), 0), select, old(selection.anchor))
    {
      MoveWithSelect(Point(selection.focus.line, 0), select);
    }

    /** `moveToEndOfParagraph(select)`: to the end of the cursor's line. */
    method MoveToEndOfParagraph(buffer: Buffer, select: bool)
      requires buffer.Valid() && 0 <= selection.focus.line < buffer.length
      modifies selection
      ensures var l := old(selection.focus.line);
              MovedTo(Point(l, |buffer.Lines()[l]|), select, old(selection.anchor))
    {
      var line := buffer.GetLineContent(selection.focus.line);
      MoveWithSelect(Point(selection.focus.line, |line.value|), select);
    }

    /** `selectWord()`: anchor at the start of the word, focus at its end. */
    method SelectWord(buffer: Buffer, oracle: WordOracle)
      requires buffer.Valid() && 0 <= selection.focus.line < buffer.length
      modifies selection
      ensures var start := WordStartTargetFixed(buffer.Lines(), old(selection.focus), oracle);
              RightDefined(buffer.Lines(), start) && MovedTo(WordEndTarget(buffer.Lines(), start, oracle), true, start)
    {
      MoveToStartOfWord(buffer, oracle, false);
      MoveToEndOfWord(buffer, oracle, true);
    }

    /** `selectParagraph()`: the whole of the cursor's line, anchor at its start. */
    method SelectParagraph(buffer: Buffer)
      requires buffer.Valid() && 0 <= selection.focus.line < buffer.length
      modifies selection
      ensures var l := old(selection.focus.line);
              MovedTo(Point(l, |buffer.Lines()[l]|), true, Point(l, 0))
    {
      MoveToStartOfParagraph(false);
      MoveToEndOfParagraph(buffer, true);
    }

    /**
     * `deleteSelection()` as written: the selected text leaves the buffer as
     * `SelectionDeleted` says, the edited lines are rewrapped, and the cursor
     * collapses at the old start.
     */
    method DeleteSelection(buffer: Buffer)
      requires Valid() && buffer.Valid()
      requires 0 <= selection.start.line && selection.end.line < buffer.length
      modifies buffer, buffer.lineBuffers, selection
      ensures buffer.Valid() && buffer.lineBuffers == old(buffer.lineBuffers)
      ensures old(selection.start.line <= selection.end.line)
      ensures buffer.Lines() ==
                SelectionDeleted(old(buffer.Lines()), old(buffer.Breaks()), old(selection.start), old(selection.end))
      ensures old(buffer.Wrapped()) ==> buffer.Wrapped()
      ensures MovedTo(old(selection.start), false, old(selection.anchor))
    {
      var start, end := selection.start, selection.end;
      selection.StartNotAfterEnd();
      DeleteBetween(buffer, start, end);
      MoveToPoint(start, false);
    }

    /** `deleteSelection()` with the first line measured by its own length, as evidently intended. */
    method DeleteSelectionFixed(buffer: Buffer)
      requires Valid() && buffer.Valid()
      requires 0 <= selection.start.line && selection.end.line < buffer.length
      modifies buffer, buffer.lineBuffers, selection
      ensures buffer.Valid() && buffer.lineBuffers == old(buffer.lineBuffers)
      ensures old(selection.start.line <= selection.end.line)
      ensures buffer.Lines() == SelectionDeletedFixed(old(buffer.Lines()), old(selection.start), old(selection.end))
      ensures old(buffer.Wrapped()) ==> buffer.Wrapped()
      ensures MovedTo(old(selection.start), false, old(selection.anchor))
    {
      var start, end := selection.start, selection.end;
      selection.StartNotAfterEnd();
      DeleteBetweenFixed(buffer, start, end);
      MoveToPoint(start, false);
    }
  }
}
