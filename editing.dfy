/**
 * The editing and cursor-set functions of src/utils.js. The editor (`editor`
 * in the global state) holds the buffer and the list of cursors, the first
 * of them the main cursor. An editing function runs one step per cursor, in
 * list order, each against the buffer the earlier steps left behind and with
 * the later cursors where they were; a step that finds its cursor off the
 * document ends the pass, as the exception the source raises there does. The
 * cursor motions run the same way over every cursor and, for the four
 * arrow moves, merge the cursors that landed on one position.
 */
module Editing {
  import opened Wrappers
  import opened Position
  import opened JsString
  import opened LineEdits
  import opened Selections
  import opened Motion
  import opened Screen
  import opened Buffers
  import opened Cursors
  import opened LineBuffers

  // ----- a selection as anchor and focus -----

  /** The two points a selection is made of; everything else about it derives from them. */
  datatype Span = Span(anchor: Point, focus: Point) {
    predicate IsCollapsed() {
      anchor == focus
    }

    /** The earlier of the two points, as `derive` sets `start`. */
    function Start(): Point {
      if Before(focus, anchor) then focus else anchor
    }

    /** The later of the two points, as `derive` sets `end`. */
    function End(): Point {
      if Before(focus, anchor) then anchor else focus
    }
  }

  /** A collapsed selection at `p`. */
  function Caret(p: Point): Span {
    Span(p, p)
  }

  /** `moveTo(p, select)` on a span: the focus goes to `p`, the anchor too unless selecting. */
  function Moved(s: Span, p: Point, select: bool): Span {
    Span(if select then s.anchor else p, p)
  }

  /** The anchor and focus of a cursor's selection. */
  ghost function SpanOf(c: Cursor): Span
    reads c.selection
  {
    Span(c.selection.anchor, c.selection.focus)
  }

  /** The spans of a list of cursors, in order. */
  ghost function SpansOf(cs: seq<Cursor>): (r: seq<Span>)
    reads set c | c in cs :: c.selection
    ensures |r| == |cs| && forall k :: 0 <= k < |cs| ==> r[k] == SpanOf(cs[k])
  {
    if cs == [] then [] else SpansOf(cs[..|cs| - 1]) + [SpanOf(cs[|cs| - 1])]
  }

  /** The positions (`cursor.position`, the focus) of a list of cursors, in order. */
  ghost function Focuses(cs: seq<Cursor>): (r: seq<Point>)
    reads set c | c in cs :: c.selection
    ensures |r| == |cs| && forall k :: 0 <= k < |cs| ==> r[k] == cs[k].selection.focus
  {
    if cs == [] then [] else Focuses(cs[..|cs| - 1]) + [cs[|cs| - 1].selection.focus]
  }

  /** A consistent selection's derived fields are those of its span. */
  lemma SpanAgrees(sel: Selection)
    requires sel.Valid()
    ensures var s := Span(sel.anchor, sel.focus);
            && sel.start == s.Start() && sel.end == s.End() && sel.isCollapsed == s.IsCollapsed()
            && s.Start().line <= s.End().line
  {
    sel.StartNotAfterEnd();
  }

  // ----- getSelectionText -----

  /**
   * The pieces `getSelectionText` joins with "\n", as written: within one
   * line the text between the two columns; across lines the first line from
   * the start column, then `end.line - start.line - 1` lines counted from
   * line 0 of the document, then the last line up to the end column.
   */
  function SelectedPiecesAsWritten(ls: seq<string>, s: Point, e: Point): seq<string>
    requires 0 <= s.line <= e.line < |ls|
  {
    if s.line == e.line then [Slice(ls[s.line], s.column, e.column)]
    else [SliceFrom(ls[s.line], s.column)] + ls[..e.line - s.line - 1] + [Slice(ls[e.line], 0, e.column)]
  }

  /** The pieces with the lines strictly between the first and the last, as evidently intended. */
  function SelectedPieces(ls: seq<string>, s: Point, e: Point): seq<string>
    requires 0 <= s.line <= e.line < |ls|
  {
    if s.line == e.line then [Slice(ls[s.line], s.column, e.column)]
    else [SliceFrom(ls[s.line], s.column)] + ls[s.line + 1..e.line] + [Slice(ls[e.line], 0, e.column)]
  }

  /** `getSelectionText(selection)` as written. */
  method GetSelectionText(buffer: Buffer, selection: Selection) returns (text: string)
    requires buffer.Valid() && selection.Valid()
    requires 0 <= selection.start.line && selection.end.line < buffer.length
    ensures selection.start.line <= selection.end.line
    ensures text == JoinLines(SelectedPiecesAsWritten(buffer.Lines(), selection.start, selection.end))
  {
    var start, end := selection.start, selection.end;
    selection.StartNotAfterEnd();
    if start.line == end.line {
      var line := buffer.GetLineContent(start.line);
      return Slice(line.value, start.column, end.column);
    }
    var first := buffer.GetLineContent(start.line);
    var pieces := [SliceFrom(first.value, start.column)];
    var x, y := start.line + 1, end.line - 1;
    var between := y - x + 1;
    var i := 0;
    while i < between
      invariant 0 <= i <= between
      invariant pieces == [SliceFrom(first.value, start.column)] + buffer.Lines()[..i]
    {
      var line := buffer.GetLineContent(i);
      assert buffer.Lines()[..i + 1] == buffer.Lines()[..i] + [line.value];
      pieces := pieces + [line.value];
      i := i + 1;
    }
    var last := buffer.GetLineContent(end.line);
    pieces := pieces + [Slice(last.value, 0, end.column)];
    text := JoinLines(pieces);
  }

  /** `getSelectionText(selection)` reading the lines between the first and the last. */
  method GetSelectionTextFixed(buffer: Buffer, selection: Selection) returns (text: string)
    requires buffer.Valid() && selection.Valid()
    requires 0 <= selection.start.line && selection.end.line < buffer.length
    ensures selection.start.line <= selection.end.line
    ensures text == JoinLines(SelectedPieces(buffer.Lines(), selection.start, selection.end))
  {
    var start, end := selection.start, selection.end;
    selection.StartNotAfterEnd();
    if start.line == end.line {
      var line := buffer.GetLineContent(start.line);
      return Slice(line.value, start.column, end.column);
    }
    var first := buffer.GetLineContent(start.line);
    var pieces := [SliceFrom(first.value, start.column)];
    var x, y := start.line + 1, end.line - 1;
    var between := y - x + 1;
    var i := 0;
    while i < between
      invariant 0 <= i <= between
      invariant pieces == [SliceFrom(first.value, start.column)] + buffer.Lines()[x..x + i]
    {
      var line := buffer.GetLineContent(x + i);
      assert buffer.Lines()[x..x + i + 1] == buffer.Lines()[x..x + i] + [line.value];
      pieces := pieces + [line.value];
      i := i + 1;
    }
    var last := buffer.GetLineContent(end.line);
    pieces := pieces + [Slice(last.value, 0, end.column)];
    text := JoinLines(pieces);
  }

  /**
   * On ["a", "b", "c"] selecting from (0, 0) to (2, 1), the as-written text
   * repeats line 0 where line 1 belongs.
   */
  lemma SelectionTextReadsFromTop()
    ensures JoinLines(SelectedPiecesAsWritten(["a", "b", "c"], Point(0, 0), Point(2, 1))) == "a\na\nc"
    ensures JoinLines(SelectedPieces(["a", "b", "c"], Point(0, 0), Point(2, 1))) == "a\nb\nc"
  {
    var ls := ["a", "b", "c"];
    assert SliceFrom(ls[0], 0) == "a";
    assert Slice(ls[2], 0, 1) == "c";
    assert SelectedPiecesAsWritten(ls, Point(0, 0), Point(2, 1)) == ["a", "a", "c"];
    assert SelectedPieces(ls, Point(0, 0), Point(2, 1)) == ["a", "b", "c"];
    assert JoinLines(["c"]) == "c";
    assert JoinLines(["b", "c"]) == "b" + "\n" + "c";
    assert JoinLines(["a", "c"]) == "a" + "\n" + "c";
  }

  /** Joining lines where one line is cut in two: the halves meet without a "\n" between them. */
  lemma {:induction false} JoinGlue(a: seq<string>, x: string, y: string, b: seq<string>)
    ensures JoinLines(a + [x + y] + b) == JoinLines(a + [x]) + JoinLines([y] + b)
    decreases |a|
  {
    if a == [] {
      assert a + [x + y] + b == [x + y] + b;
      assert a + [x] == [x];
      if b != [] {
        assert ([x + y] + b)[1..] == b;
        assert ([y] + b)[1..] == b;
      }
    } else {
      JoinGlue(a[1..], x, y, b);
      assert (a + [x + y] + b)[1..] == a[1..] + [x + y] + b;
      assert (a + [x])[1..] == a[1..] + [x];
    }
  }

  /** A line cut in three: the middle piece stands alone between what precedes and what follows it. */
  lemma JoinAroundPiece(a: seq<string>, pre: string, mid: string, post: string, b: seq<string>)
    ensures JoinLines(a + [pre + (mid + post)] + b) == JoinLines(a + [pre]) + JoinLines([mid]) + JoinLines([post] + b)
  {
    JoinGlue(a, pre, mid + post, b);
    JoinGlue([], mid, post, b);
    assert [] + [mid + post] + b == [mid + post] + b;
    assert [] + [mid] == [mid];
  }

  /** Two lines each cut in two: the pieces between the cuts join on their own. */
  lemma JoinAroundLines(a: seq<string>, pre: string, tail: string, middle: seq<string>,
                        head: string, post: string, b: seq<string>)
    ensures JoinLines(a + [pre + tail] + (middle + [head + post] + b))
         == JoinLines(a + [pre]) + JoinLines([tail] + middle + [head]) + JoinLines([post] + b)
  {
    JoinGlue(a, pre, tail, middle + [head + post] + b);
    assert [tail] + (middle + [head + post] + b) == ([tail] + middle) + [head + post] + b;
    JoinGlue([tail] + middle, head, post, b);
  }

  /**
   * Copy and delete agree: the document's text is the text before the
   * selection, the selected text and the text after it, and deleting the
   * selected range leaves exactly the text before and the text after.
   */
  lemma SelectedTextIsDeletedText(ls: seq<string>, s: Point, e: Point)
    requires InDocument(ls, s) && InDocument(ls, e) && !After(s, e)
    ensures var before := JoinLines(ls[..s.line] + [ls[s.line][..s.column]]);
            var after := JoinLines([ls[e.line][e.column..]] + ls[e.line + 1..]);
            && JoinLines(ls) == before + JoinLines(SelectedPieces(ls, s, e)) + after
            && JoinLines(DeleteRange(ls, s.line, s.column, e.line, e.column)) == before + after
  {
    var a, b := ls[..s.line], ls[e.line + 1..];
    var pre, post := ls[s.line][..s.column], ls[e.line][e.column..];
    if s.line == e.line {
      SelectedTextSameLine(ls, s, e);
    } else {
      SelectedTextAcrossLines(ls, s, e);
    }
    assert DeleteRange(ls, s.line, s.column, e.line, e.column) == a + [pre + post] + b;
    JoinGlue(a, pre, post, b);
  }

  /** `SelectedTextIsDeletedText` for a selection inside one line. */
  lemma SelectedTextSameLine(ls: seq<string>, s: Point, e: Point)
    requires InDocument(ls, s) && InDocument(ls, e) && s.line == e.line && s.column <= e.column
    ensures JoinLines(ls) == JoinLines(ls[..s.line] + [ls[s.line][..s.column]])
                             + JoinLines(SelectedPieces(ls, s, e))
                             + JoinLines([ls[e.line][e.column..]] + ls[e.line + 1..])
  {
    var l := s.line;
    var pre, mid, post := ls[l][..s.column], ls[l][s.column..e.column], ls[l][e.column..];
    SliceInRange(ls[l], s.column, e.column);
    assert SelectedPieces(ls, s, e) == [mid];
    assert ls[l] == pre + (mid + post);
    assert ls == ls[..l] + [pre + (mid + post)] + ls[l + 1..];
    JoinAroundPiece(ls[..l], pre, mid, post, ls[l + 1..]);
  }

  /** `SelectedTextIsDeletedText` for a selection across lines. */
  lemma SelectedTextAcrossLines(ls: seq<string>, s: Point, e: Point)
    requires InDocument(ls, s) && InDocument(ls, e) && s.line < e.line
    ensures JoinLines(ls) == JoinLines(ls[..s.line] + [ls[s.line][..s.column]])
                             + JoinLines(SelectedPieces(ls, s, e))
                             + JoinLines([ls[e.line][e.column..]] + ls[e.line + 1..])
  {
    var tail, middle, head := ls[s.line][s.column..], ls[s.line + 1..e.line], ls[e.line][..e.column];
    var pre, post := ls[s.line][..s.column], ls[e.line][e.column..];
    SliceInRange(ls[s.line], s.column, |ls[s.line]|);
    SliceInRange(ls[e.line], 0, e.column);
    assert SliceFrom(ls[s.line], s.column) == tail;
    assert SelectedPieces(ls, s, e) == [tail] + middle + [head];
    assert ls[s.line] == pre + tail && ls[e.line] == head + post;
    assert ls == ls[..s.line] + [pre + tail] + (middle + [head + post] + ls[e.line + 1..]);
    JoinAroundLines(ls[..s.line], pre, tail, middle, head, post, ls[e.line + 1..]);
  }

  // ----- mergeCursors -----

  /** What a merge pass has gathered: the list `newCursors` and the positions seen (`unique`). */
  datatype Spliced<T> = Spliced(cursors: seq<T>, unique: seq<Point>)

  /**
   * `mergeCursors` as written, over cursors `xs` at positions `ps`, after
   * the first `n` cursors: a cursor at a position already seen is spliced
   * out of `newCursors` at its index in the ORIGINAL list, which after an
   * earlier removal holds a different cursor, or nothing.
   */
  function MergeAsWritten<T>(xs: seq<T>, ps: seq<Point>, n: nat): Spliced<T>
    requires n <= |ps|
  {
    if n == 0 then Spliced(xs, [])
    else
      var r := MergeAsWritten(xs, ps, n - 1);
      if ps[n - 1] in r.unique then
        Spliced(if n - 1 < |r.cursors| then RemoveAt(r.cursors, n - 1) else r.cursors, r.unique)
      else Spliced(r.cursors, r.unique + [ps[n - 1]])
  }

  /** The outcome of the evidently intended merge: which cursors stay (by index) and the positions seen. */
  datatype Merge = Merge(kept: seq<nat>, unique: seq<Point>)

  /** The intended merge after the first `n` cursors: a cursor stays when its position is new. */
  function MergeKept(ps: seq<Point>, n: nat): (r: Merge)
    requires n <= |ps|
    ensures |r.kept| == |r.unique| <= n
    ensures forall j :: 0 <= j < |r.kept| ==> r.kept[j] < n
  {
    if n == 0 then Merge([], [])
    else
      var r := MergeKept(ps, n - 1);
      if ps[n - 1] in r.unique then r else Merge(r.kept + [n - 1], r.unique + [ps[n - 1]])
  }

  /** One more cursor: kept exactly when its position has not been seen. */
  lemma MergeKeptStep(ps: seq<Point>, i: nat)
    requires i < |ps|
    ensures var r := MergeKept(ps, i);
            MergeKept(ps, i + 1) == if ps[i] in r.unique then r else Merge(r.kept + [i], r.unique + [ps[i]])
  {
  }

  /** The elements of `xs` at the indices `idx`, in that order. */
  function Pick<T>(xs: seq<T>, idx: seq<nat>): (r: seq<T>)
    requires forall j :: 0 <= j < |idx| ==> idx[j] < |xs|
    ensures |r| == |idx| && forall j :: 0 <= j < |idx| ==> r[j] == xs[idx[j]]
  {
    if idx == [] then [] else Pick(xs, idx[..|idx| - 1]) + [xs[idx[|idx| - 1]]]
  }

  /** The kept indices rise, and the position of each kept cursor is the matching position seen. */
  predicate KeptInOrder(ps: seq<Point>, m: Merge) {
    && |m.kept| == |m.unique|
    && (forall j :: 0 <= j < |m.kept| ==> m.kept[j] < |ps| && ps[m.kept[j]] == m.unique[j])
    && (forall i, j :: 0 <= i < j < |m.kept| ==> m.kept[i] < m.kept[j])
  }

  /** No element occurs twice. */
  predicate Distinct<T(==)>(xs: seq<T>) {
    forall i, j :: 0 <= i < j < |xs| ==> xs[i] != xs[j]
  }

  lemma {:induction false} MergeKeptIndexed(ps: seq<Point>, n: nat)
    requires n <= |ps|
    ensures KeptInOrder(ps, MergeKept(ps, n))
  {
    if n > 0 {
      MergeKeptIndexed(ps, n - 1);
      var r := MergeKept(ps, n - 1);
      if ps[n - 1] !in r.unique {
        var r' := MergeKept(ps, n);
        assert r' == Merge(r.kept + [n - 1], r.unique + [ps[n - 1]]);
        forall j | 0 <= j < |r'.kept| ensures r'.kept[j] < |ps| && ps[r'.kept[j]] == r'.unique[j] {
          if j < |r.kept| {
            assert r'.kept[j] == r.kept[j] && r'.unique[j] == r.unique[j];
          }
        }
      }
    }
  }

  /** Every position among the first `n` is among the positions seen. */
  lemma {:induction false} MergeKeptCovers(ps: seq<Point>, n: nat)
    requires n <= |ps|
    ensures forall k :: 0 <= k < n ==> ps[k] in MergeKept(ps, n).unique
  {
    if n > 0 {
      MergeKeptCovers(ps, n - 1);
      var r := MergeKept(ps, n - 1);
      if ps[n - 1] !in r.unique {
        assert MergeKept(ps, n).unique == r.unique + [ps[n - 1]];
      }
    }
  }

  /** The positions seen are exactly the positions of the first `n` cursors. */
  lemma MergeSeenIsPrefix(ps: seq<Point>, n: nat, x: Point)
    requires n <= |ps|
    ensures x in MergeKept(ps, n).unique <==> x in ps[..n]
  {
    var r := MergeKept(ps, n);
    if x in r.unique {
      MergeKeptIndexed(ps, n);
      var j :| 0 <= j < |r.unique| && r.unique[j] == x;
      assert ps[..n][r.kept[j]] == x;
    }
    if x in ps[..n] {
      MergeKeptCovers(ps, n);
      var k :| 0 <= k < n && ps[..n][k] == x;
      assert ps[k] in r.unique;
    }
  }

  /** No position is seen twice. */
  lemma {:induction false} MergeUniqueDistinct(ps: seq<Point>, n: nat)
    requires n <= |ps|
    ensures Distinct(MergeKept(ps, n).unique)
  {
    if n > 0 {
      MergeUniqueDistinct(ps, n - 1);
      var r := MergeKept(ps, n - 1);
      if ps[n - 1] !in r.unique {
        var u := r.unique + [ps[n - 1]];
        assert MergeKept(ps, n).unique == u;
        forall i, j | 0 <= i < j < |u| ensures u[i] != u[j] {
          if j == |r.unique| {
            assert u[i] == r.unique[i];
          }
        }
      }
    }
  }

  /** A cursor is kept exactly when no earlier cursor is at its position. */
  lemma {:induction false} MergeKeptIsFirst(ps: seq<Point>, n: nat)
    requires n <= |ps|
    ensures forall k :: 0 <= k < n ==> (k in MergeKept(ps, n).kept <==> ps[k] !in ps[..k])
  {
    if n > 0 {
      MergeKeptIsFirst(ps, n - 1);
      MergeSeenIsPrefix(ps, n - 1, ps[n - 1]);
      var r := MergeKept(ps, n - 1);
      var kept := MergeKept(ps, n).kept;
      assert n - 1 !in r.kept;
      forall k | 0 <= k < n ensures k in kept <==> ps[k] !in ps[..k] {
        if ps[n - 1] in r.unique {
          assert kept == r.kept;
        } else {
          assert kept == r.kept + [n - 1];
          assert k in kept <==> k in r.kept || k == n - 1;
        }
      }
    }
  }

  /** The main cursor is always kept first. */
  lemma {:induction false} MergeKeepsMain(ps: seq<Point>, n: nat)
    requires 0 < n <= |ps|
    ensures |MergeKept(ps, n).kept| > 0 && MergeKept(ps, n).kept[0] == 0
  {
    if n > 1 {
      MergeKeepsMain(ps, n - 1);
    }
  }

  /**
   * The intended merge keeps, in list order, exactly the first cursor at
   * each position: the kept cursors' positions are pairwise different, every
   * position is still held by a kept cursor, and the main cursor stays first.
   */
  lemma MergeKeepsFirstPerPosition(ps: seq<Point>, n: nat)
    requires n <= |ps|
    ensures KeptInOrder(ps, MergeKept(ps, n))
    ensures forall k :: 0 <= k < n ==> (k in MergeKept(ps, n).kept <==> ps[k] !in ps[..k])
    ensures forall k :: 0 <= k < n ==> ps[k] in MergeKept(ps, n).unique
    ensures Distinct(MergeKept(ps, n).unique)
    ensures n > 0 ==> |MergeKept(ps, n).kept| > 0 && MergeKept(ps, n).kept[0] == 0
  {
    MergeKeptIndexed(ps, n);
    MergeKeptIsFirst(ps, n);
    MergeKeptCovers(ps, n);
    MergeUniqueDistinct(ps, n);
    if n > 0 {
      MergeKeepsMain(ps, n);
    }
  }

  /** When no cursor is dropped, the intended merge keeps every index in order. */
  lemma {:induction false} MergeKeptAll(ps: seq<Point>, n: nat)
    requires n <= |ps| && |MergeKept(ps, n).kept| == n
    ensures forall j :: 0 <= j < n ==> MergeKept(ps, n).kept[j] == j
  {
    if n > 0 {
      var r := MergeKept(ps, n - 1);
      MergeKeptAll(ps, n - 1);
    }
  }

  /**
   * As long as at most one cursor is dropped, the as-written merge is the
   * intended one: the kept cursors in order, followed by those not reached.
   */
  lemma {:induction false} MergeAsWrittenWithOneDrop<T>(xs: seq<T>, ps: seq<Point>, n: nat)
    requires |xs| == |ps| && n <= |ps|
    requires n <= |MergeKept(ps, n).kept| + 1
    ensures MergeAsWritten(xs, ps, n).unique == MergeKept(ps, n).unique
    ensures MergeAsWritten(xs, ps, n).cursors == Pick(xs, MergeKept(ps, n).kept) + xs[n..]
  {
    if n > 0 {
      MergeAsWrittenWithOneDrop(xs, ps, n - 1);
      if ps[n - 1] in MergeKept(ps, n - 1).unique {
        MergeKeptAll(ps, n - 1);
        DroppedStep(xs, ps, n, MergeKept(ps, n - 1).kept);
      } else {
        KeptStep(xs, ps, n);
      }
    }
  }

  /** A merge step that drops the cursor, right after a prefix with every cursor kept. */
  lemma DroppedStep<T>(xs: seq<T>, ps: seq<Point>, n: nat, kept: seq<nat>)
    requires |xs| == |ps| && 0 < n <= |ps|
    requires ps[n - 1] in MergeKept(ps, n - 1).unique
    requires kept == MergeKept(ps, n - 1).kept && |kept| == n - 1
    requires forall j :: 0 <= j < n - 1 ==> kept[j] == j
    requires MergeAsWritten(xs, ps, n - 1).unique == MergeKept(ps, n - 1).unique
    requires MergeAsWritten(xs, ps, n - 1).cursors == Pick(xs, MergeKept(ps, n - 1).kept) + xs[n - 1..]
    ensures MergeAsWritten(xs, ps, n).cursors == Pick(xs, MergeKept(ps, n).kept) + xs[n..]
  {
    assert MergeKept(ps, n).kept == kept;
    assert forall j :: 0 <= j < n - 1 ==> Pick(xs, kept)[j] == xs[j];
    assert Pick(xs, kept) == xs[..n - 1];
    assert MergeAsWritten(xs, ps, n - 1).cursors == xs;
    assert MergeAsWritten(xs, ps, n).cursors == RemoveAt(xs, n - 1);
  }

  /** A merge step that keeps the cursor. */
  lemma KeptStep<T>(xs: seq<T>, ps: seq<Point>, n: nat)
    requires |xs| == |ps| && 0 < n <= |ps|
    requires ps[n - 1] !in MergeKept(ps, n - 1).unique
    requires MergeAsWritten(xs, ps, n - 1).unique == MergeKept(ps, n - 1).unique
    requires MergeAsWritten(xs, ps, n - 1).cursors == Pick(xs, MergeKept(ps, n - 1).kept) + xs[n - 1..]
    ensures MergeAsWritten(xs, ps, n).cursors == Pick(xs, MergeKept(ps, n).kept) + xs[n..]
  {
    var kept := MergeKept(ps, n - 1).kept;
    assert MergeKept(ps, n).kept == kept + [n - 1];
    assert MergeAsWritten(xs, ps, n).cursors == MergeAsWritten(xs, ps, n - 1).cursors;
    PickSnoc(xs, kept, n - 1);
    var p := Pick(xs, kept);
    assert xs[n - 1..] == [xs[n - 1]] + xs[n..];
    assert p + ([xs[n - 1]] + xs[n..]) == (p + [xs[n - 1]]) + xs[n..];
  }

  /** Picking one more index adds its element at the end. */
  lemma PickSnoc<T>(xs: seq<T>, idx: seq<nat>, i: nat)
    requires i < |xs| && forall j :: 0 <= j < |idx| ==> idx[j] < |xs|
    ensures Pick(xs, idx + [i]) == Pick(xs, idx) + [xs[i]]
  {
    assert (idx + [i])[..|idx|] == idx;
  }

  /** `0, 1, …, k - 1`: the indices of a list of length `k`. */
  function Indices(k: nat): (r: seq<nat>)
    ensures |r| == k && forall i :: 0 <= i < k ==> r[i] == i
  {
    if k == 0 then [] else Indices(k - 1) + [k - 1]
  }

  /** Dropping one of rising indices leaves them rising, below the same bound, and keeps the first when it is not the one dropped. */
  lemma RemoveAtRising(idx: seq<nat>, p: nat, bound: nat)
    requires p < |idx| && RisingBelow(idx, bound)
    ensures RisingBelow(RemoveAt(idx, p), bound)
    ensures p > 0 ==> RemoveAt(idx, p)[0] == idx[0]
  {
    var r := RemoveAt(idx, p);
    assert forall j :: 0 <= j < |r| ==> r[j] == (if j < p then idx[j] else idx[j + 1]);
  }

  /** Picking at rising indices with one dropped is the picked list with that element dropped. */
  lemma PickRemoveAt<T>(xs: seq<T>, idx: seq<nat>, p: nat)
    requires p < |idx| && forall j :: 0 <= j < |idx| ==> idx[j] < |xs|
    ensures forall j :: 0 <= j < |RemoveAt(idx, p)| ==> RemoveAt(idx, p)[j] < |xs|
    ensures Pick(xs, RemoveAt(idx, p)) == RemoveAt(Pick(xs, idx), p)
  {
    var r := RemoveAt(idx, p);
    assert forall j :: 0 <= j < |r| ==> r[j] == (if j < p then idx[j] else idx[j + 1]);
    var a, b := Pick(xs, r), RemoveAt(Pick(xs, idx), p);
    assert forall j :: 0 <= j < |a| ==> a[j] == b[j];
  }

  /** Indices below `bound`, each greater than the one before. */
  predicate RisingBelow(idx: seq<nat>, bound: nat) {
    && (forall j :: 0 <= j < |idx| ==> idx[j] < bound)
    && (forall i, j :: 0 <= i < j < |idx| ==> idx[i] < idx[j])
  }

  /** Picking every index in order gives the list back. */
  lemma PickIndices<T>(xs: seq<T>)
    ensures RisingBelow(Indices(|xs|), |xs|) && Pick(xs, Indices(|xs|)) == xs
  {
    var r := Pick(xs, Indices(|xs|));
    assert forall j :: 0 <= j < |xs| ==> r[j] == xs[j];
  }

  /** The as-written merge run over the indices of a list of length `k` leaves rising indices below `k`. */
  lemma {:induction false} MergeIndicesRising(k: nat, ps: seq<Point>, n: nat)
    requires n <= |ps|
    ensures RisingBelow(MergeAsWritten<nat>(Indices(k), ps, n).cursors, k)
  {
    if n > 0 {
      MergeIndicesRising(k, ps, n - 1);
      var q := MergeAsWritten<nat>(Indices(k), ps, n - 1);
      if ps[n - 1] in q.unique && n - 1 < |q.cursors| {
        RemoveAtRising(q.cursors, n - 1, k);
      }
    }
  }

  /**
   * The as-written merge only ever drops cursors: what stays is the list
   * picked at rising indices, which the same merge computes over the
   * indices themselves.
   */
  lemma {:induction false} MergeAsWrittenPicks<T>(xs: seq<T>, ps: seq<Point>, n: nat)
    requires n <= |ps|
    ensures var m := MergeAsWritten<nat>(Indices(|xs|), ps, n);
            && RisingBelow(m.cursors, |xs|)
            && MergeAsWritten(xs, ps, n) == Spliced(Pick(xs, m.cursors), m.unique)
  {
    MergeIndicesRising(|xs|, ps, n);
    if n == 0 {
      PickIndices(xs);
    } else {
      MergeAsWrittenPicks(xs, ps, n - 1);
      var q := MergeAsWritten<nat>(Indices(|xs|), ps, n - 1);
      var m := MergeAsWritten<nat>(Indices(|xs|), ps, n);
      var r := MergeAsWritten(xs, ps, n - 1);
      var picked := Pick(xs, q.cursors);
      assert r == Spliced(picked, q.unique);
      if ps[n - 1] !in q.unique {
        assert m == Spliced(q.cursors, q.unique + [ps[n - 1]]);
      } else if n - 1 < |q.cursors| {
        assert m == Spliced(RemoveAt(q.cursors, n - 1), q.unique);
        PickRemoveAt(xs, q.cursors, n - 1);
        assert MergeAsWritten(xs, ps, n) == Spliced(RemoveAt(picked, n - 1), q.unique);
      } else {
        assert m == q;
      }
    }
  }

  /** The as-written merge keeps the main cursor: the first position is always new, and later splices are at later indices. */
  lemma {:induction false} MergeAsWrittenKeepsMain<T>(xs: seq<T>, ps: seq<Point>, n: nat)
    requires n <= |ps| && |xs| > 0
    ensures var r := MergeAsWritten(xs, ps, n).cursors; |r| > 0 && r[0] == xs[0]
  {
    if n > 0 {
      MergeAsWrittenKeepsMain(xs, ps, n - 1);
      var q := MergeAsWritten(xs, ps, n - 1);
      if n == 1 {
        assert q.unique == [];
      }
      if ps[n - 1] in q.unique && n - 1 < |q.cursors| {
        assert n - 1 > 0;
        assert RemoveAt(q.cursors, n - 1)[0] == q.cursors[0];
      }
    }
  }

  /**
   * On three cursors at one position the as-written merge drops the second
   * cursor and then finds nothing at index 2 of the shortened list: two
   * cursors at the same position stay, where only the first should.
   */
  lemma MergeDriftKeepsDuplicate()
    ensures MergeAsWritten([0, 1, 2], [Origin, Origin, Origin], 3).cursors == [0, 2]
    ensures MergeKept([Origin, Origin, Origin], 3).kept == [0]
  {
    var ps := [Origin, Origin, Origin];
    assert MergeAsWritten([0, 1, 2], ps, 1) == Spliced([0, 1, 2], [Origin]);
    assert RemoveAt([0, 1, 2], 1) == [0, 2];
    assert MergeAsWritten([0, 1, 2], ps, 2) == Spliced([0, 2], [Origin]);
    assert MergeKept(ps, 1) == Merge([0], [Origin]);
  }

  // ----- one editing step per cursor -----

  /** The editing functions that run one step per cursor. */
  datatype Edit = Type(text: string) | Backspace | DeleteToLineStart | Newline | SwapLine(change: int)

  /**
   * The step finds the lines it reads: the cursor's line for the steps that
   * only read the focus, every line of the selection for the others.
   */
  predicate Guard(n: int, e: Edit, s: Span) {
    match e
    case DeleteToLineStart => 0 <= s.focus.line < n
    case Newline => 0 <= s.focus.line < n
    case _ => 0 <= s.Start().line && s.End().line < n
  }

  /**
   * `insertText(text)` for one cursor: the selection is deleted (with the
   * intended deletion), the text is inserted where it started and the
   * cursor moves right by the text's length.
   */
  function Typed(ls: seq<string>, s: Span, text: string): (seq<string>, Span)
    requires 0 <= s.Start().line && s.End().line < |ls|
  {
    var st := s.Start();
    var d := SelectionDeletedFixed(ls, st, s.End());
    var r := d[st.line := InsertText(d[st.line], st.column, text)];
    (r, Caret(RightTarget(r, st, |text|)))
  }

  /**
   * `backspace()` for one cursor: a collapsed cursor at column 0 joins its
   * line to the previous one (`removeLine`), elsewhere it deletes the
   * character before it; either way it moves left by one. A selection is
   * deleted instead.
   */
  function Backspaced(ls: seq<string>, s: Span): (seq<string>, Span)
    requires 0 <= s.Start().line && s.End().line < |ls|
  {
    if s.IsCollapsed() then
      var p := s.focus;
      if p.column == 0 then (SplitUpLines(ls, p.line), Caret(LeftTarget(ls, p, 1)))
      else (ls[p.line := DeleteText(ls[p.line], p.column, -1)], Caret(LeftTarget(ls, p, 1)))
    else (SelectionDeletedFixed(ls, s.Start(), s.End()), Caret(s.Start()))
  }

  /**
   * `deleteToStartOfLine()` for one cursor, with the cursor left at column 0
   * as evidently intended: at column 0 the cursor moves left (a selection
   * collapses to its start) and the line is joined to the previous one;
   * elsewhere everything before the cursor on its line goes.
   */
  function LineStartDeleted(ls: seq<string>, s: Span): (seq<string>, Span)
    requires 0 <= s.focus.line < |ls|
  {
    var p := s.focus;
    if p.column == 0 then
      (SplitUpLines(ls, p.line), Caret(if s.IsCollapsed() then LeftTarget(ls, p, 1) else s.Start()))
    else (ls[p.line := DeleteText(ls[p.line], p.column, -p.column)], Caret(Point(p.line, 0)))
  }

  /** `newline()` for one cursor: its line is split at the cursor, which goes to the start of the new line. */
  function NewlineSplit(ls: seq<string>, s: Span): (seq<string>, Span)
    requires 0 <= s.focus.line < |ls|
  {
    (SplitDownLines(ls, s.focus.line, s.focus.column), Caret(Point(s.focus.line + 1, 0)))
  }

  /**
   * `swapLine(change)` for one cursor, as written: a collapsed cursor's line
   * moves and the cursor follows it when `buffer.swapLine` reports a move; a
   * selection's lines move one by one and the selection is set to its old
   * start and end moved by `change`.
   */
  function SwappedAsWritten(ls: seq<string>, s: Span, change: int): (seq<string>, Span)
    requires 0 <= s.Start().line && s.End().line < |ls|
  {
    if s.IsCollapsed() then
      var p := s.focus;
      var moved := !(p.line == 0 && change < 0) && !(p.line == |ls| - 1 && change > 0);
      (SwapLineAt(ls, p.line, change), if moved then Caret(Point(p.line + change, p.column)) else s)
    else
      var st, en := s.Start(), s.End();
      (SwapLinesLines(ls, st.line, en.line, change),
       Span(Point(st.line + change, st.column), Point(en.line + change, en.column)))
  }

  /**
   * `swapLine(change)` with the edge check on the whole selection: at the top
   * going up or at the bottom going down neither the lines nor the selection
   * move.
   */
  function Swapped(ls: seq<string>, s: Span, change: int): (seq<string>, Span)
    requires 0 <= s.Start().line && s.End().line < |ls|
  {
    if s.IsCollapsed() then SwappedAsWritten(ls, s, change)
    else
      var st, en := s.Start(), s.End();
      var edge := (change < 0 && st.line == 0) || (change > 0 && en.line == |ls| - 1);
      (MoveLinesLines(ls, st.line, en.line, change),
       if edge then s else Span(Point(st.line + change, st.column), Point(en.line + change, en.column)))
  }

  /** One cursor's step of an editing function: the new lines and the cursor's new span. */
  function Edited(ls: seq<string>, e: Edit, s: Span): (seq<string>, Span)
    requires Guard(|ls|, e, s)
  {
    match e
    case Type(text) => Typed(ls, s, text)
    case Backspace => Backspaced(ls, s)
    case DeleteToLineStart => LineStartDeleted(ls, s)
    case Newline => NewlineSplit(ls, s)
    case SwapLine(change) => SwappedAsWritten(ls, s, change)
  }

  /** Where a pass over the cursors has got to: the lines, the spans of the cursors done, and no failure yet. */
  datatype Pass = Pass(lines: seq<string>, spans: seq<Span>, ok: bool)

  /**
   * An editing function over the first `n` cursors, whose spans were `ss`
   * when the pass began: each cursor in turn is edited against the lines the
   * earlier ones left, from its span as it was; the first cursor off the
   * document stops the pass.
   */
  function EditPass(ls: seq<string>, e: Edit, ss: seq<Span>, n: nat): (r: Pass)
    requires n <= |ss|
    ensures |r.spans| <= n && (r.ok ==> |r.spans| == n)
  {
    if n == 0 then Pass(ls, [], true)
    else
      var p := EditPass(ls, e, ss, n - 1);
      if !p.ok || !Guard(|p.lines|, e, ss[n - 1]) then Pass(p.lines, p.spans, false)
      else
        var r := Edited(p.lines, e, ss[n - 1]);
        Pass(r.0, p.spans + [r.1], true)
  }

  /** A stopped pass stays where it stopped. */
  lemma {:induction false} PassStops(ls: seq<string>, e: Edit, ss: seq<Span>, n: nat, m: nat)
    requires n <= m <= |ss| && !EditPass(ls, e, ss, n).ok
    ensures EditPass(ls, e, ss, m) == EditPass(ls, e, ss, n)
    decreases m
  {
    if m > n {
      PassStops(ls, e, ss, n, m - 1);
    }
  }

  // ----- what the steps promise -----

  /**
   * Typing at a collapsed cursor splices the text in at the cursor and
   * advances the cursor by the text's length on the same line.
   */
  lemma TypingAtCaret(ls: seq<string>, p: Point, text: string)
    requires InDocument(ls, p)
    ensures Typed(ls, Caret(p), text).0 == ls[p.line := ls[p.line][..p.column] + text + ls[p.line][p.column..]]
    ensures Typed(ls, Caret(p), text).1 == Caret(Point(p.line, p.column + |text|))
  {
    assert SelectionDeletedFixed(ls, p, p) == ls;
    InsertTextSplices(ls[p.line], p.column, text);
  }

  /**
   * A backspace at a collapsed cursor inside a line removes exactly the
   * character before it and moves it one column left; at column 0 of a later
   * line it joins the line to the end of the previous one, where the cursor
   * lands.
   */
  lemma BackspaceAtCaret(ls: seq<string>, p: Point)
    requires InDocument(ls, p) && p != Origin
    ensures p.column > 0 ==>
              Backspaced(ls, Caret(p)) ==
              (ls[p.line := ls[p.line][..p.column - 1] + ls[p.line][p.column..]], Caret(Point(p.line, p.column - 1)))
    ensures p.column == 0 ==>
              Backspaced(ls, Caret(p)) ==
              (ls[..p.line - 1] + [ls[p.line - 1] + ls[p.line]] + ls[p.line + 1..], Caret(Point(p.line - 1, |ls[p.line - 1]|)))
  {
    if p.column > 0 {
      DeleteBackward(ls[p.line], p.column, 1);
    }
  }

  /** Typing one character and backspacing restore the lines and the cursor. */
  lemma TypeThenBackspace(ls: seq<string>, p: Point, ch: char)
    requires InDocument(ls, p)
    ensures var typed := Typed(ls, Caret(p), [ch]);
            Backspaced(typed.0, typed.1) == (ls, Caret(p))
  {
    TypingAtCaret(ls, p, [ch]);
    var typed := Typed(ls, Caret(p), [ch]);
    var q := Point(p.line, p.column + 1);
    InsertTextSplices(ls[p.line], p.column, [ch]);
    InsertDeleteInverse(ls[p.line], p.column, [ch]);
    var m := ls[p.line := InsertText(ls[p.line], p.column, [ch])];
    assert typed.0 == m;
    assert typed.1 == Caret(q);
    assert LeftTarget(m, q, 1) == p;
    assert m[p.line := DeleteText(m[p.line], q.column, -1)] == ls;
  }

  /** A newline and a backspace from the start of the new line restore the lines and the cursor. */
  lemma NewlineThenBackspace(ls: seq<string>, p: Point)
    requires InDocument(ls, p)
    ensures var split := NewlineSplit(ls, Caret(p));
            Backspaced(split.0, split.1) == (ls, Caret(p))
  {
    var d := SplitDownLines(ls, p.line, p.column);
    SplitRoundTrip(ls, p.line, p.column);
    SplitDownShape(ls, p.line, p.column);
    SliceInRange(ls[p.line], 0, p.column);
    assert |d[p.line]| == p.column;
  }

  /**
   * Deleting to the start of a line from inside it keeps the text after the
   * cursor as the whole line, with the cursor in front of it.
   */
  lemma LineStartDeletedKeepsRest(ls: seq<string>, s: Span)
    requires InDocument(ls, s.focus) && s.focus.column > 0
    ensures LineStartDeleted(ls, s) == (ls[s.focus.line := ls[s.focus.line][s.focus.column..]], Caret(Point(s.focus.line, 0)))
  {
    var l, c := s.focus.line, s.focus.column;
    DeleteBackward(ls[l], c, c);
    assert ls[l][..0] + ls[l][c..] == ls[l][c..];
  }

  /**
   * A collapsed cursor moved by one line stays on its own text: the line it
   * was on is now the line it is on.
   */
  lemma SwapKeepsCaretOnItsLine(ls: seq<string>, p: Point, change: int)
    requires 0 <= p.line < |ls| && (change == 1 || change == -1) && 0 <= p.line + change < |ls|
    ensures var r := Swapped(ls, Caret(p), change);
            r.1 == Caret(Point(p.line + change, p.column)) && r.0[p.line + change] == ls[p.line]
            && multiset(r.0) == multiset(ls)
  {
    SwapLineMoves(ls, p.line, change);
  }

  /**
   * A selection moved by one line keeps covering the block it covered, and
   * at an edge nothing changes; the as-written move at the top breaks up the
   * block and moves the selection above line 0.
   */
  lemma SwapKeepsSelectionOnItsBlock(ls: seq<string>, s: Span, change: int)
    requires 0 <= s.Start().line && s.End().line < |ls| && !s.IsCollapsed()
    requires change == 1 || change == -1
    ensures var r := Swapped(ls, s, change);
            var st, en := s.Start().line, s.End().line;
            && multiset(r.0) == multiset(ls)
            && (r.1 == s || (r.1.Start().line == st + change && r.1.End().line == en + change
                              && 0 <= st + change && en + change < |ls|
                              && r.0[st + change..en + change + 1] == ls[st..en + 1]))
  {
    var st, en := s.Start(), s.End();
    SpanLinesOrdered(s);
    MoveLinesKeepsBlock(ls, st.line, en.line, change);
    var edge := (change < 0 && st.line == 0) || (change > 0 && en.line == |ls| - 1);
    if !edge {
      MoveLinesBlockLands(ls, st.line, en.line, change);
      MovedSpanEnds(s, change);
    }
  }

  /** The start of a span is never on a later line than its end. */
  lemma SpanLinesOrdered(s: Span)
    ensures s.Start().line <= s.End().line
    ensures !After(s.Start(), s.End())
  {
    DirectionOrdersEnds(s.focus, s.anchor);
  }

  /** Moving both ends of a span by the same number of lines keeps which end is the start. */
  lemma MovedSpanEnds(s: Span, change: int)
    ensures var st, en := s.Start(), s.End();
            var m := Span(Point(st.line + change, st.column), Point(en.line + change, en.column));
            m.Start() == Point(st.line + change, st.column) && m.End() == Point(en.line + change, en.column)
  {
    SpanLinesOrdered(s);
  }

  /**
   * On ["a", "b", "c"] with lines 0 and 1 selected, moving up as written
   * swaps the two lines and moves the selection to line -1; with the edge
   * check nothing moves.
   */
  lemma SwapAtTopAsWritten()
    ensures var s := Span(Point(0, 0), Point(1, 1));
            && SwappedAsWritten(["a", "b", "c"], s, -1) == (["b", "a", "c"], Span(Point(-1, 0), Point(0, 1)))
            && Swapped(["a", "b", "c"], s, -1) == (["a", "b", "c"], s)
  {
    SwapLinesAtTopBreaksBlock();
  }

  /**
   * The later cursors of a pass are not shifted by the earlier cursors'
   * edits: with cursors at (0, 1) and (0, 3) of "abcd", typing "X" puts the
   * second "X" before "c" (column 3 of "aXbcd"), not before "d".
   */
  lemma LaterCaretsAreNotShifted()
    ensures EditPass(["abcd"], Type("X"), [Caret(Point(0, 1)), Caret(Point(0, 3))], 2).lines == ["aXbXcd"]
  {
    TypingAtCaret(["abcd"], Point(0, 1), "X");
    assert "abcd"[..1] + "X" + "abcd"[1..] == "aXbcd";
    TypingAtCaret(["aXbcd"], Point(0, 3), "X");
    assert "aXbcd"[..3] + "X" + "aXbcd"[3..] == "aXbXcd";
  }

  /**
   * As written, deleting to the start of a line puts the cursor at the start
   * of its screen row in the rewrapped line: with "abcdefghijklmnopqrst" and
   * the cursor at column 6, the line becomes "ghijklmnopqrst"; a wrap
   * function breaking it at 5 and 10 puts the cursor at column 5, inside
   * the text that followed it, where column 0 is intended.
   */
  lemma LineStartCursorLandsMidText()
    ensures var ls := ["abcdefghijklmnopqrst"];
            var s := Caret(Point(0, 6));
            && LineStartDeleted(ls, s).0 == ["ghijklmnopqrst"]
            && RowStartTarget([[5, 10]], s.focus) == Point(0, 5)
            && LineStartDeleted(ls, s).1 == Caret(Point(0, 0))
  {
    var ls := ["abcdefghijklmnopqrst"];
    LineStartDeletedKeepsRest(ls, Caret(Point(0, 6)));
    assert ls[0][6..] == "ghijklmnopqrst";
    RowStartIsSegmentStart([[5, 10]], Point(0, 6));
    assert SegmentOffset([10], 6) == 0;
    assert SegmentOffset([5, 10], 6) == 1;
  }

  // ----- the steps on the buffer and a cursor -----

  /** `removeLine(line)`: nothing at line 0, otherwise `splitUp(line)`. */
  method RemoveLine(buffer: Buffer, line: int)
    requires buffer.Valid() && (line == 0 || 0 < line < buffer.length)
    modifies buffer, buffer.lineBuffers
    ensures buffer.Valid() && buffer.lineBuffers == old(buffer.lineBuffers)
    ensures line == 0 ==> buffer.Lines() == old(buffer.Lines())
    ensures line != 0 ==> buffer.Lines() == SplitUpLines(old(buffer.Lines()), line)
    ensures old(buffer.Wrapped()) ==> buffer.Wrapped()
  {
    if line == 0 {
      return;
    }
    buffer.SplitUp(line);
  }

  /** One cursor's step of `insertText(text)`. */
  method TypeAt(buffer: Buffer, cursor: Cursor, text: string)
    requires buffer.Valid() && cursor.Valid()
    requires Guard(buffer.length, Type(text), SpanOf(cursor))
    modifies buffer, buffer.lineBuffers, cursor.selection
    ensures buffer.Valid() && buffer.lineBuffers == old(buffer.lineBuffers)
    ensures old(buffer.Wrapped()) ==> buffer.Wrapped()
    ensures cursor.Valid()
    ensures (buffer.Lines(), SpanOf(cursor)) == Typed(old(buffer.Lines()), old(SpanOf(cursor)), text)
  {
    SpanAgrees(cursor.selection);
    cursor.DeleteSelectionFixed(buffer);
    var p := cursor.selection.focus;
    buffer.Insert(p.line, p.column, text);
    buffer.WrapLine(p.line);
    cursor.MoveRight(buffer, |text|, false);
  }

  /** One cursor's step of `backspace()`. */
  method BackspaceAt(buffer: Buffer, cursor: Cursor)
    requires buffer.Valid() && cursor.Valid()
    requires Guard(buffer.length, Backspace, SpanOf(cursor))
    modifies buffer, buffer.lineBuffers, cursor.selection
    ensures buffer.Valid() && buffer.lineBuffers == old(buffer.lineBuffers)
    ensures old(buffer.Wrapped()) ==> buffer.Wrapped()
    ensures cursor.Valid()
    ensures (buffer.Lines(), SpanOf(cursor)) == Backspaced(old(buffer.Lines()), old(SpanOf(cursor)))
  {
    SpanAgrees(cursor.selection);
    var p := cursor.selection.focus;
    if cursor.selection.isCollapsed {
      if p.column == 0 {
        cursor.MoveLeft(buffer, 1, false);
        RemoveLine(buffer, p.line);
      } else {
        DeleteAndRewrap(buffer, p.line, p.column, -1);
        cursor.MoveLeft(buffer, 1, false);
      }
    } else {
      cursor.DeleteSelectionFixed(buffer);
    }
  }

  /**
   * One cursor's step of `deleteToStartOfLine()` as written: away from
   * column 0 the cursor goes to the start of its screen row in the
   * rewrapped line.
   */
  method DeleteToStartOfLineAt(buffer: Buffer, cursor: Cursor)
    requires buffer.Valid() && cursor.Valid()
    requires Guard(buffer.length, DeleteToLineStart, SpanOf(cursor))
    modifies buffer, buffer.lineBuffers, cursor.selection
    ensures buffer.Valid() && buffer.lineBuffers == old(buffer.lineBuffers)
    ensures old(buffer.Wrapped()) ==> buffer.Wrapped()
    ensures cursor.Valid()
    ensures buffer.Lines() == LineStartDeleted(old(buffer.Lines()), old(SpanOf(cursor))).0
    ensures old(cursor.selection.focus.column) == 0 ==>
              SpanOf(cursor) == LineStartDeleted(old(buffer.Lines()), old(SpanOf(cursor))).1
    ensures old(cursor.selection.focus.column) != 0 ==>
              |buffer.Breaks()| > 0 && SpanOf(cursor) == Caret(RowStartTarget(buffer.Breaks(), old(cursor.selection.focus)))
  {
    SpanAgrees(cursor.selection);
    var p := cursor.selection.focus;
    if p.column == 0 {
      cursor.MoveLeft(buffer, 1, false);
      RemoveLine(buffer, p.line);
    } else {
      DeleteAndRewrap(buffer, p.line, p.column, -p.column);
      buffer.ValidShape();
      cursor.MoveToStartOfLine(buffer, false);
    }
  }

  /** One cursor's step of `deleteToStartOfLine()` with the cursor left at column 0. */
  method DeleteToStartOfLineAtFixed(buffer: Buffer, cursor: Cursor)
    requires buffer.Valid() && cursor.Valid()
    requires Guard(buffer.length, DeleteToLineStart, SpanOf(cursor))
    modifies buffer, buffer.lineBuffers, cursor.selection
    ensures buffer.Valid() && buffer.lineBuffers == old(buffer.lineBuffers)
    ensures old(buffer.Wrapped()) ==> buffer.Wrapped()
    ensures cursor.Valid()
    ensures (buffer.Lines(), SpanOf(cursor)) == LineStartDeleted(old(buffer.Lines()), old(SpanOf(cursor)))
  {
    SpanAgrees(cursor.selection);
    var p := cursor.selection.focus;
    if p.column == 0 {
      cursor.MoveLeft(buffer, 1, false);
      RemoveLine(buffer, p.line);
    } else {
      DeleteAndRewrap(buffer, p.line, p.column, -p.column);
      cursor.MoveToStartOfParagraph(false);
    }
  }

  /** One cursor's step of `newline()`, the split line rewrapped. */
  method NewlineAt(buffer: Buffer, cursor: Cursor)
    requires buffer.Valid() && cursor.Valid()
    requires Guard(buffer.length, Newline, SpanOf(cursor))
    modifies buffer, buffer.lineBuffers, cursor.selection
    ensures buffer.Valid() && buffer.lineBuffers == old(buffer.lineBuffers)
    ensures old(buffer.Wrapped()) ==> buffer.Wrapped()
    ensures cursor.Valid()
    ensures (buffer.Lines(), SpanOf(cursor)) == NewlineSplit(old(buffer.Lines()), old(SpanOf(cursor)))
  {
    var p := cursor.selection.focus;
    buffer.SplitDownRewrapped(p.line, p.column);
    cursor.StartOfNextLine();
  }

  /** `swapLine(change)` for a collapsed cursor: its line moves, and the cursor follows when `buffer.swapLine` reports a move. */
  method SwapCaretLine(buffer: Buffer, cursor: Cursor, change: int)
    requires buffer.Valid() && cursor.Valid() && SpanOf(cursor).IsCollapsed()
    requires Guard(buffer.length, SwapLine(change), SpanOf(cursor))
    modifies buffer, buffer.lineBuffers, cursor.selection
    ensures buffer.Valid() && buffer.lineBuffers == old(buffer.lineBuffers)
    ensures old(buffer.Wrapped()) ==> buffer.Wrapped()
    ensures cursor.Valid()
    ensures (buffer.Lines(), SpanOf(cursor)) == SwappedAsWritten(old(buffer.Lines()), old(SpanOf(cursor)), change)
  {
    SpanAgrees(cursor.selection);
    var p := cursor.selection.focus;
    var moved := buffer.SwapLine(p.line, change);
    if moved {
      cursor.MoveTo(p.line + change, p.column, false);
    }
  }

  /** One cursor's step of `swapLine(change)` as written. */
  method SwapCursorLines(buffer: Buffer, cursor: Cursor, change: int)
    requires buffer.Valid() && cursor.Valid()
    requires Guard(buffer.length, SwapLine(change), SpanOf(cursor))
    modifies buffer, buffer.lineBuffers, cursor.selection
    ensures buffer.Valid() && buffer.lineBuffers == old(buffer.lineBuffers)
    ensures old(buffer.Wrapped()) ==> buffer.Wrapped()
    ensures cursor.Valid()
    ensures (buffer.Lines(), SpanOf(cursor)) == SwappedAsWritten(old(buffer.Lines()), old(SpanOf(cursor)), change)
  {
    SpanAgrees(cursor.selection);
    if cursor.selection.isCollapsed {
      SwapCaretLine(buffer, cursor, change);
    } else {
      var start, end := cursor.selection.start, cursor.selection.end;
      buffer.SwapLines(start.line, end.line, change);
      cursor.MoveSelection(Point(start.line + change, start.column), Point(end.line + change, end.column));
    }
  }

  /** One cursor's step of `swapLine(change)` with the edge check on the whole selection. */
  method SwapCursorLinesFixed(buffer: Buffer, cursor: Cursor, change: int)
    requires buffer.Valid() && cursor.Valid()
    requires Guard(buffer.length, SwapLine(change), SpanOf(cursor))
    modifies buffer, buffer.lineBuffers, cursor.selection
    ensures buffer.Valid() && buffer.lineBuffers == old(buffer.lineBuffers)
    ensures old(buffer.Wrapped()) ==> buffer.Wrapped()
    ensures cursor.Valid()
    ensures (buffer.Lines(), SpanOf(cursor)) == Swapped(old(buffer.Lines()), old(SpanOf(cursor)), change)
  {
    SpanAgrees(cursor.selection);
    if cursor.selection.isCollapsed {
      SwapCaretLine(buffer, cursor, change);
    } else {
      var start, end := cursor.selection.start, cursor.selection.end;
      var edge := (change < 0 && start.line == 0) || (change > 0 && end.line == buffer.length - 1);
      buffer.MoveLines(start.line, end.line, change);
      if !edge {
        cursor.MoveSelection(Point(start.line + change, start.column), Point(end.line + change, end.column));
      }
    }
  }

  /**
   * One cursor's step of an editing function: when the cursor is on the
   * document, the step `Edited` describes; otherwise nothing changes and the
   * pass stops.
   */
  method EditAt(buffer: Buffer, cursor: Cursor, e: Edit) returns (done: bool)
    requires buffer.Valid() && cursor.Valid()
    modifies buffer, buffer.lineBuffers, cursor.selection
    ensures buffer.Valid() && buffer.lineBuffers == old(buffer.lineBuffers)
    ensures old(buffer.Wrapped()) ==> buffer.Wrapped()
    ensures cursor.Valid()
    ensures done == Guard(|old(buffer.Lines())|, e, old(SpanOf(cursor)))
    ensures !done ==> buffer.Lines() == old(buffer.Lines()) && SpanOf(cursor) == old(SpanOf(cursor))
    ensures done ==> (buffer.Lines(), SpanOf(cursor)) == Edited(old(buffer.Lines()), e, old(SpanOf(cursor)))
  {
    var s := Span(cursor.selection.anchor, cursor.selection.focus);
    done := Guard(buffer.length, e, s);
    if !done {
      return;
    }
    match e
    case Type(text) => TypeAt(buffer, cursor, text);
    case Backspace => BackspaceAt(buffer, cursor);
    case DeleteToLineStart => DeleteToStartOfLineAtFixed(buffer, cursor);
    case Newline => NewlineAt(buffer, cursor);
    case SwapLine(change) => SwapCursorLines(buffer, cursor, change);
  }

  // ----- cursor motions -----

  /** The cursor motions the cursor-set functions apply to every cursor. */
  datatype Move =
    | Right(cols: int)
    | Left(cols: int)
    | Up(lines: int)
    | Down(lines: int)
    | StartOfLine
    | EndOfLine
    | StartOfWord(oracle: WordOracle)
    | EndOfWord(oracle: WordOracle)

  /** The motion finds the lines it reads. */
  predicate MoveDefined(ls: seq<string>, m: Move, s: Span, select: bool) {
    match m
    case Right(_) => s.IsCollapsed() || select ==> RightDefined(ls, s.focus)
    case Left(_) => s.IsCollapsed() || select ==> LeftDefined(ls, s.focus)
    case Up(n) => |ls| > 0 && n >= 0
    case Down(n) => |ls| > 0 && n >= 0
    case StartOfLine => |ls| > 0
    case EndOfLine => |ls| > 0
    case StartOfWord(_) => 0 <= s.focus.line < |ls|
    case EndOfWord(_) => RightDefined(ls, s.focus)
  }

  /** The focuses that the spans `ss` land on under the motion `m`, in order. */
  function LandedFocuses(ls: seq<string>, bs: seq<seq<int>>, m: Move, ss: seq<Span>, select: bool): seq<Point>
    requires |ls| == |bs| && forall k :: 0 <= k < |ss| ==> MoveDefined(ls, m, ss[k], select)
  {
    seq(|ss|, k requires 0 <= k < |ss| => Landing(ls, bs, m, ss[k], select).focus)
  }

  /**
   * The span a motion leaves: a selection that is not being extended
   * collapses to its end (right) or start (left); otherwise the focus goes
   * where `Motion` says, the anchor with it unless selecting.
   */
  function Landing(ls: seq<string>, bs: seq<seq<int>>, m: Move, s: Span, select: bool): Span
    requires |ls| == |bs| && MoveDefined(ls, m, s, select)
  {
    match m
    case Right(cols) =>
      if !s.IsCollapsed() && !select then Caret(s.End()) else Moved(s, RightTarget(ls, s.focus, cols), select)
    case Left(cols) =>
      if !s.IsCollapsed() && !select then Caret(s.Start()) else Moved(s, LeftTarget(ls, s.focus, cols), select)
    case Up(n) => Moved(s, UpTarget(ls, bs, s.focus, n), select)
    case Down(n) => Moved(s, DownTarget(ls, bs, s.focus, n), select)
    case StartOfLine => Moved(s, RowStartTarget(bs, s.focus), select)
    case EndOfLine => Moved(s, RowEndTarget(ls, bs, s.focus), select)
    case StartOfWord(oracle) => Moved(s, WordStartTargetFixed(ls, s.focus, oracle), select)
    case EndOfWord(oracle) => Moved(s, WordEndTarget(ls, s.focus, oracle), select)
  }

  /** One cursor's motion. */
  method MoveCursor(buffer: Buffer, cursor: Cursor, m: Move, select: bool)
    requires buffer.Valid() && cursor.Valid()
    requires MoveDefined(buffer.Lines(), m, SpanOf(cursor), select)
    modifies cursor.selection
    ensures cursor.Valid() && |buffer.Lines()| == |buffer.Breaks()|
    ensures SpanOf(cursor) == Landing(buffer.Lines(), buffer.Breaks(), m, old(SpanOf(cursor)), select)
  {
    SpanAgrees(cursor.selection);
    buffer.ValidShape();
    match m
    case Right(cols) => cursor.MoveRight(buffer, cols, select);
    case Left(cols) => cursor.MoveLeft(buffer, cols, select);
    case Up(n) => cursor.MoveUp(buffer, n, select);
    case Down(n) => cursor.MoveDown(buffer, n, select);
    case StartOfLine => cursor.MoveToStartOfLine(buffer, select);
    case EndOfLine => cursor.MoveToEndOfLine(buffer, select);
    case StartOfWord(oracle) => cursor.MoveToStartOfWord(buffer, oracle, select);
    case EndOfWord(oracle) => cursor.MoveToEndOfWord(buffer, oracle, select);
  }

  /** The loop of `mergeCursors`, keeping a cursor when no earlier cursor is at its position. */
  method FirstPerPosition(cursors: seq<Cursor>, ghost ps: seq<Point>) returns (kept: seq<Cursor>)
    requires ps == Focuses(cursors)
    ensures kept == Pick(cursors, MergeKept(ps, |cursors|).kept)
  {
    kept := [];
    var unique: seq<Point> := [];
    ghost var idx: seq<nat> := [];
    var i := 0;
    while i < |cursors|
      invariant 0 <= i <= |cursors|
      invariant MergeKept(ps, i) == Merge(idx, unique)
      invariant |kept| == |idx| && forall j :: 0 <= j < |idx| ==> idx[j] < i && kept[j] == cursors[idx[j]]
    {
      var p := cursors[i].selection.focus;
      assert p == ps[i];
      MergeKeptStep(ps, i);
      if p !in unique {
        kept := kept + [cursors[i]];
        unique := unique + [p];
        idx := idx + [i];
      }
      i := i + 1;
    }
    assert kept == Pick(cursors, idx);
  }

  /** The kept indices are rising indices below `n`, and a non-empty list keeps at least one. */
  lemma MergeKeptIndices(ps: seq<Point>, n: nat)
    requires n <= |ps|
    ensures forall j :: 0 <= j < |MergeKept(ps, n).kept| ==> MergeKept(ps, n).kept[j] < |ps|
    ensures forall i, j :: 0 <= i < j < |MergeKept(ps, n).kept| ==> MergeKept(ps, n).kept[i] < MergeKept(ps, n).kept[j]
    ensures n > 0 ==> |MergeKept(ps, n).kept| > 0
  {
    MergeKeptIndexed(ps, n);
    if n > 0 {
      MergeKeepsMain(ps, n);
    }
  }

  /**
   * Picking cursors at rising indices keeps their selections distinct and
   * within any set that held them all.
   */
  lemma PickKeepsSelections(cs: seq<Cursor>, idx: seq<nat>, sels: set<Selection>)
    requires forall j :: 0 <= j < |idx| ==> idx[j] < |cs|
    requires forall i, j :: 0 <= i < j < |idx| ==> idx[i] < idx[j]
    requires forall i, j :: 0 <= i < j < |cs| ==> cs[i].selection != cs[j].selection
    requires forall i :: 0 <= i < |cs| ==> cs[i].selection in sels
    requires forall i :: 0 <= i < |cs| ==> cs[i].Valid()
    ensures forall i, j :: 0 <= i < j < |idx| ==> Pick(cs, idx)[i].selection != Pick(cs, idx)[j].selection
    ensures forall i :: 0 <= i < |idx| ==> Pick(cs, idx)[i].selection in sels
    ensures forall i :: 0 <= i < |idx| ==> Pick(cs, idx)[i].Valid()
  {
    var r := Pick(cs, idx);
    forall i, j | 0 <= i < j < |idx| ensures r[i].selection != r[j].selection {
      assert r[i] == cs[idx[i]] && r[j] == cs[idx[j]];
    }
    forall i | 0 <= i < |idx| ensures r[i].Valid() {
      assert r[i] == cs[idx[i]];
    }
  }

  /** Cursors that landed where `Landing` says have the focuses `LandedFocuses` lists. */
  lemma LandedAreFocuses(cs: seq<Cursor>, ss: seq<Span>, ls: seq<string>, bs: seq<seq<int>>, m: Move, select: bool)
    requires |ls| == |bs| && |ss| == |cs|
    requires forall k :: 0 <= k < |ss| ==> MoveDefined(ls, m, ss[k], select)
    requires forall k :: 0 <= k < |cs| ==> SpanOf(cs[k]) == Landing(ls, bs, m, ss[k], select)
    ensures Focuses(cs) == LandedFocuses(ls, bs, m, ss, select)
  {
  }

  // ----- the editor -----

  class Editor {
    /** `editor.buffer`. */
    const buffer: Buffer
    /** `editor.cursors`; the first is the main cursor. */
    var cursors: seq<Cursor>

    /** The selections of the cursors, which the cursor-set functions change. */
    ghost var selections: set<Selection>

    /** Every cursor's selection is one of `selections`. */
    ghost predicate Tracked()
      reads this
    {
      forall i :: 0 <= i < |cursors| ==> cursors[i].selection in selections
    }

    /** A valid buffer and at least one cursor; no two cursors share a selection, and every selection is consistent. */
    ghost predicate Valid()
      reads this, buffer, buffer.lineBuffers, selections
    {
      && buffer.Valid()
      && |cursors| > 0
      && Tracked()
      && (forall i, j :: 0 <= i < j < |cursors| ==> cursors[i].selection != cursors[j].selection)
      && (forall i :: 0 <= i < |cursors| ==> cursors[i].Valid())
    }

    /** A new editor on `buffer` with one cursor at (0, 0), as the editor is set up on load. */
    constructor (buffer: Buffer)
      requires buffer.Valid()
      ensures Valid() && this.buffer == buffer && |cursors| == 1
      ensures SpanOf(cursors[0]) == Caret(Origin)
    {
      this.buffer := buffer;
      var cursor := new Cursor(None);
      cursors := [cursor];
      selections := {cursor.selection};
    }

    /**
     * The buffer and the cursors are where `pass` leaves them: its lines, the
     * spans it computed for the cursors it reached and, for the others, the
     * spans `ss` they had before.
     */
    ghost predicate Reached(pass: Pass, ss: seq<Span>)
      reads this, buffer, selections
    {
      && Tracked()
      && buffer.Lines() == pass.lines
      && |pass.spans| <= |cursors| == |ss|
      && (forall k :: 0 <= k < |pass.spans| ==> SpanOf(cursors[k]) == pass.spans[k])
      && (forall k :: |pass.spans| <= k < |cursors| ==> SpanOf(cursors[k]) == ss[k])
    }

    /**
     * An editing function over every cursor in list order (`insertText`,
     * `backspace`, `deleteToStartOfLine`, `newline`, `swapLine`): the lines
     * and spans `EditPass` gives; `ok` is false when a cursor off the document
     * stopped the pass, the cursors from it on keeping their spans.
     */
    method EditEach(e: Edit) returns (ok: bool)
      requires Valid()
      modifies buffer, buffer.lineBuffers, selections
      ensures Valid() && buffer.lineBuffers == old(buffer.lineBuffers) && cursors == old(cursors)
      ensures old(buffer.Wrapped()) ==> buffer.Wrapped()
      ensures Reached(EditPass(old(buffer.Lines()), e, old(SpansOf(cursors)), |cursors|), old(SpansOf(cursors)))
      ensures ok == EditPass(old(buffer.Lines()), e, old(SpansOf(cursors)), |cursors|).ok
    {
      ghost var ls, ss := buffer.Lines(), SpansOf(cursors);
      ghost var lbs, wrapped := buffer.lineBuffers, buffer.Wrapped();
      var i;
      i, ok := RunPass(e, ls, ss, lbs, wrapped);
      if !ok {
        PassStops(ls, e, ss, i, |cursors|);
      }
    }

    /** The loop of `EditEach`: cursors are edited in order until one is off the document. */
    method RunPass(e: Edit, ghost ls: seq<string>, ghost ss: seq<Span>, ghost lbs: seq<LineBuffer>, ghost wrapped: bool)
      returns (i: nat, ok: bool)
      requires Progress(ls, e, ss, 0, true, lbs, wrapped)
      modifies buffer, buffer.lineBuffers, selections
      ensures Progress(ls, e, ss, i, ok, lbs, wrapped) && (ok ==> i == |cursors|)
    {
      i := 0;
      ok := true;
      while i < |cursors| && ok
        invariant Progress(ls, e, ss, i, ok, lbs, wrapped)
      {
        ok := PassStep(i, e, ls, ss, lbs, wrapped);
        i := i + 1;
      }
    }

    /**
     * An `EditEach` pass has handled the first `i` cursors, `ok` telling
     * whether all of them were on the document.
     */
    ghost predicate Progress(ls: seq<string>, e: Edit, ss: seq<Span>, i: nat, ok: bool,
                             lbs: seq<LineBuffer>, wrapped: bool)
      reads this, buffer, buffer.lineBuffers, selections
    {
      && i <= |cursors| == |ss|
      && Valid() && buffer.lineBuffers == lbs && (wrapped ==> buffer.Wrapped())
      && Reached(EditPass(ls, e, ss, i), ss) && ok == EditPass(ls, e, ss, i).ok
    }

    /** One step of `EditEach`: cursor `i` is edited against the lines the pass has reached. */
    method PassStep(i: nat, e: Edit, ghost ls: seq<string>, ghost ss: seq<Span>,
                    ghost lbs: seq<LineBuffer>, ghost wrapped: bool) returns (done: bool)
      requires i < |cursors| && Progress(ls, e, ss, i, true, lbs, wrapped)
      modifies buffer, buffer.lineBuffers, cursors[i].selection
      ensures Progress(ls, e, ss, i + 1, done, lbs, wrapped)
    {
      ghost var before := EditPass(ls, e, ss, i);
      assert SpanOf(cursors[i]) == ss[i];
      done := EditCursor(i, e);
      if done {
        assert EditPass(ls, e, ss, i + 1) == Pass(buffer.Lines(), before.spans + [SpanOf(cursors[i])], true);
      } else {
        assert EditPass(ls, e, ss, i + 1) == Pass(before.lines, before.spans, false);
      }
    }

    /** Cursor `i` is edited; every other cursor keeps its span. */
    method EditCursor(i: nat, e: Edit) returns (done: bool)
      requires Valid() && i < |cursors|
      modifies buffer, buffer.lineBuffers, cursors[i].selection
      ensures Valid() && buffer.lineBuffers == old(buffer.lineBuffers)
      ensures old(buffer.Wrapped()) ==> buffer.Wrapped()
      ensures done == Guard(|old(buffer.Lines())|, e, old(SpanOf(cursors[i])))
      ensures !done ==> buffer.Lines() == old(buffer.Lines()) && SpanOf(cursors[i]) == old(SpanOf(cursors[i]))
      ensures done ==> (buffer.Lines(), SpanOf(cursors[i])) == Edited(old(buffer.Lines()), e, old(SpanOf(cursors[i])))
      ensures forall k :: 0 <= k < |cursors| && k != i ==> SpanOf(cursors[k]) == old(SpanOf(cursors[k]))
    {
      done := EditAt(buffer, cursors[i], e);
    }

    /** `moveToEndOfLine`, `moveToStartOfLine`, the word moves: one motion for every cursor, in list order. */
    method MoveEach(m: Move, select: bool)
      requires Valid()
      requires forall k :: 0 <= k < |cursors| ==> MoveDefined(buffer.Lines(), m, SpanOf(cursors[k]), select)
      modifies selections
      ensures Valid() && cursors == old(cursors) && |buffer.Lines()| == |buffer.Breaks()|
      ensures forall k :: 0 <= k < |cursors| ==>
                SpanOf(cursors[k]) == Landing(buffer.Lines(), buffer.Breaks(), m, old(SpanOf(cursors[k])), select)
    {
      buffer.ValidShape();
      ghost var ss := SpansOf(cursors);
      ghost var ls, bs := buffer.Lines(), buffer.Breaks();
      var i := 0;
      while i < |cursors|
        invariant i <= |cursors| && Moving(ls, bs, m, ss, select, i)
      {
        MoveStep(i, ls, bs, m, ss, select);
        i := i + 1;
      }
    }

    /**
     * The first `i` cursors have made the motion `m` from the spans `ss` on
     * the lines `ls` and row breaks `bs`; the others have not moved yet.
     */
    ghost predicate Moving(ls: seq<string>, bs: seq<seq<int>>, m: Move, ss: seq<Span>, select: bool, i: nat)
      reads this, buffer, buffer.lineBuffers, selections
    {
      && Valid() && |cursors| == |ss| && |ls| == |bs|
      && buffer.Lines() == ls && buffer.Breaks() == bs
      && (forall k :: 0 <= k < |ss| ==> MoveDefined(ls, m, ss[k], select))
      && (forall k :: 0 <= k < |cursors| ==>
            SpanOf(cursors[k]) == if k < i then Landing(ls, bs, m, ss[k], select) else ss[k])
    }

    /** One step of `MoveEach`: cursor `i` makes the motion. */
    method MoveStep(i: nat, ghost ls: seq<string>, ghost bs: seq<seq<int>>, m: Move, ghost ss: seq<Span>, select: bool)
      requires i < |cursors| && Moving(ls, bs, m, ss, select, i)
      modifies cursors[i].selection
      ensures Moving(ls, bs, m, ss, select, i + 1)
    {
      MoveCursor(buffer, cursors[i], m, select);
    }

    /** `moveRight`, `moveLeft`, `moveUp`, `moveDown`: one motion for every cursor, then the cursors merged. */
    method MoveEachAndMerge(m: Move, select: bool)
      requires Valid()
      requires forall k :: 0 <= k < |cursors| ==> MoveDefined(buffer.Lines(), m, SpanOf(cursors[k]), select)
      modifies this, selections
      ensures Valid() && |buffer.Lines()| == |buffer.Breaks()|
      ensures forall k :: 0 <= k < |old(cursors)| ==>
                SpanOf(old(cursors)[k]) == Landing(buffer.Lines(), buffer.Breaks(), m, old(SpanOf(cursors[k])), select)
      ensures cursors == Pick(old(cursors), MergeKept(LandedFocuses(buffer.Lines(), buffer.Breaks(), m, old(SpansOf(cursors)), select), |old(cursors)|).kept)
    {
      ghost var ss := SpansOf(cursors);
      MoveEach(m, select);
      ghost var ls, bs := buffer.Lines(), buffer.Breaks();
      assert Moving(ls, bs, m, ss, select, |cursors|);
      MergeMoved(ls, bs, m, ss, select);
    }

    /** The merge after every cursor has made the motion `m` from the spans `ss`. */
    method MergeMoved(ghost ls: seq<string>, ghost bs: seq<seq<int>>, m: Move, ghost ss: seq<Span>, select: bool)
      requires Moving(ls, bs, m, ss, select, |cursors|)
      modifies this
      ensures Valid() && buffer.Lines() == ls && buffer.Breaks() == bs
      ensures forall k :: 0 <= k < |old(cursors)| ==> SpanOf(old(cursors)[k]) == Landing(ls, bs, m, ss[k], select)
      ensures cursors == Pick(old(cursors), MergeKept(LandedFocuses(ls, bs, m, ss, select), |old(cursors)|).kept)
    {
      LandedAreFocuses(cursors, ss, ls, bs, m, select);
      MergeAt(LandedFocuses(ls, bs, m, ss, select));
    }

    /** `mergeCursors()` as written: the splice index drifts after a removal. */
    method MergeCursors()
      requires Valid()
      modifies this
      ensures Valid() && selections == old(selections)
      ensures cursors == MergeAsWritten(old(cursors), old(Focuses(cursors)), |old(cursors)|).cursors
      ensures buffer.Lines() == old(buffer.Lines()) && buffer.Breaks() == old(buffer.Breaks())
      ensures forall k :: 0 <= k < |old(cursors)| ==> SpanOf(old(cursors)[k]) == old(SpanOf(cursors[k]))
    {
      ghost var ps := Focuses(cursors);
      var newCursors := cursors;
      var unique: seq<Point> := [];
      var i := 0;
      while i < |cursors|
        invariant 0 <= i <= |cursors|
        invariant MergeAsWritten(cursors, ps, i) == Spliced(newCursors, unique)
      {
        var p := cursors[i].selection.focus;
        if p in unique {
          if i < |newCursors| {
            newCursors := RemoveAt(newCursors, i);
          }
        } else {
          unique := unique + [p];
        }
        i := i + 1;
      }
      ghost var idx := MergeAsWritten<nat>(Indices(|cursors|), ps, |cursors|).cursors;
      MergeAsWrittenPicks(cursors, ps, |cursors|);
      MergeAsWrittenKeepsMain(cursors, ps, |cursors|);
      PickKeepsSelections(cursors, idx, selections);
      Install(newCursors);
    }

    /** `mergeCursors()` keeping exactly the first cursor at each position. */
    method MergeCursorsFixed()
      requires Valid()
      modifies this
      ensures Valid()
      ensures cursors == Pick(old(cursors), MergeKept(old(Focuses(cursors)), |old(cursors)|).kept)
    {
      MergeAt(Focuses(cursors));
    }

    /** The merge, given the cursors' positions `ps`. */
    method MergeAt(ghost ps: seq<Point>)
      requires Valid() && ps == Focuses(cursors)
      modifies this
      ensures Valid()
      ensures cursors == Pick(old(cursors), MergeKept(ps, |old(cursors)|).kept)
      ensures buffer.Lines() == old(buffer.Lines()) && buffer.Breaks() == old(buffer.Breaks())
      ensures forall k :: 0 <= k < |old(cursors)| ==> SpanOf(old(cursors)[k]) == old(SpanOf(cursors[k]))
    {
      var kept := FirstPerPosition(cursors, ps);
      ghost var idx := MergeKept(ps, |cursors|).kept;
      MergeKeptIndices(ps, |cursors|);
      PickKeepsSelections(cursors, idx, selections);
      Install(kept);
    }

    /** Replaces the cursor list by `kept`, a non-empty list of tracked, distinct, valid cursors. */
    method Install(kept: seq<Cursor>)
      requires buffer.Valid() && |kept| > 0
      requires forall i :: 0 <= i < |kept| ==> kept[i].selection in selections
      requires forall i, j :: 0 <= i < j < |kept| ==> kept[i].selection != kept[j].selection
      requires forall i :: 0 <= i < |kept| ==> kept[i].Valid()
      modifies this
      ensures Valid() && cursors == kept && selections == old(selections)
      ensures buffer.Lines() == old(buffer.Lines()) && buffer.Breaks() == old(buffer.Breaks())
      ensures forall k :: 0 <= k < |old(cursors)| ==> SpanOf(old(cursors)[k]) == old(SpanOf(cursors[k]))
    {
      cursors := kept;
    }

    /** `flattenToOneCursor()`: only the main cursor stays. */
    method FlattenToOneCursor()
      requires Valid()
      modifies this
      ensures Valid() && cursors == [old(cursors)[0]]
    {
      cursors := [cursors[0]];
    }

    /** `moveToTop(select)`: one cursor, moved to (0, 0). */
    method MoveToTop(select: bool)
      requires Valid()
      modifies this, cursors[0].selection
      ensures Valid() && cursors == [old(cursors)[0]]
      ensures SpanOf(cursors[0]) == Moved(old(SpanOf(cursors[0])), Origin, select)
    {
      FlattenToOneCursor();
      cursors[0].MoveToTop(select);
    }

    /** `moveToBottom(select)`: one cursor, moved to the end of the document. */
    method MoveToBottom(select: bool)
      requires Valid() && buffer.length > 0
      modifies this, cursors[0].selection
      ensures Valid() && cursors == [old(cursors)[0]]
      ensures SpanOf(cursors[0]) == Moved(old(SpanOf(cursors[0])), LastLineLastColumn(buffer.Lines()), select)
    {
      FlattenToOneCursor();
      cursors[0].MoveToBottom(buffer, select);
    }

    /** `selectAll()`: one cursor selecting from (0, 0) to the end of the document. */
    method SelectAll()
      requires Valid() && buffer.length > 0
      modifies this, cursors[0].selection
      ensures Valid() && cursors == [old(cursors)[0]]
      ensures SpanOf(cursors[0]) == Span(Origin, LastLineLastColumn(buffer.Lines()))
    {
      FlattenToOneCursor();
      cursors[0].MoveToTop(false);
      cursors[0].MoveToBottom(buffer, true);
    }
  }
}
