/**
 * The document store (`Buffer` in src/buffer.js): an ordered list of chunks
 * (`LineBuffer`s) whose concatenated lines are the document. The counters
 * `length` and `screenLength` cache the number of logical lines and screen
 * rows. The ghost views `Lines()` and `Breaks()` are the flattened document
 * and its soft-wrap breaks; every method is specified on them.
 */
module Buffers {
  import opened Wrappers
  import opened JsString
  import opened Flat
  import opened Screen
  import opened Generic
  import opened LineEdits
  import opened LineBuffers

  /** Sum of a list of counters, accumulated left to right as `reduce` does. */
  function Sum(xs: seq<int>): int {
    if xs == [] then 0 else Sum(xs[..|xs| - 1]) + xs[|xs| - 1]
  }

  /** Adding one more counter to a prefix sum. */
  lemma SumStep(xs: seq<int>, k: nat)
    requires k < |xs|
    ensures Sum(xs[..k + 1]) == Sum(xs[..k]) + xs[k]
  {
    assert xs[..k + 1][..k] == xs[..k];
  }

  /** When each counter is its chunk's row count, a prefix sum is the rows of those chunks. */
  lemma {:induction false} SumRows(rows: seq<int>, bss: seq<seq<seq<int>>>, k: nat)
    requires k <= |rows| == |bss|
    requires forall i :: 0 <= i < |rows| ==> rows[i] == Rows(bss[i])
    ensures Sum(rows[..k]) == Rows(Flatten(bss[..k]))
  {
    if k > 0 {
      SumRows(rows, bss, k - 1);
      SumStep(rows, k - 1);
      BeforeStep(bss, k - 1);
      RowsConcat(Flatten(bss[..k - 1]), bss[k - 1]);
    }
  }

  /**
   * The chunk holding line `n` as `getLineInfo` finds it: the first chunk
   * whose last line is at or after `n`, with `n`'s index inside it. A
   * negative `n` lands in chunk 0 with a negative index.
   */
  function FindChunk<T>(ss: seq<seq<T>>, n: int): (r: Option<(nat, int)>)
    ensures r.Some? ==> r.value.0 < |ss|
  {
    if ss == [] then None
    else if n <= |ss[0]| - 1 then Some((0, n))
    else Shift(FindChunk(ss[1..], n - |ss[0]|), 1)
  }

  /** The line is found exactly when there are chunks and `n` is before the end of the document. */
  lemma {:induction false} FindChunkFound<T>(ss: seq<seq<T>>, n: int)
    ensures FindChunk(ss, n).Some? <==> ss != [] && n < |Flatten(ss)|
  {
    if ss != [] && n > |ss[0]| - 1 {
      FindChunkFound(ss[1..], n - |ss[0]|);
    }
  }

  /** A found line `n >= 0` is element `index` of the chunk, at `n` in the flattened view. */
  lemma {:induction false} FindChunkSound<T>(ss: seq<seq<T>>, n: int)
    requires n >= 0 && FindChunk(ss, n).Some?
    ensures var (k, i) := FindChunk(ss, n).value;
      0 <= i < |ss[k]| && Before(ss, k) + i == n
  {
    if n > |ss[0]| - 1 {
      FindChunkSound(ss[1..], n - |ss[0]|);
      var (k, i) := FindChunk(ss[1..], n - |ss[0]|).value;
      assert ss[..k + 1] == [ss[0]] + ss[1..][..k];
      FlattenConcat([ss[0]], ss[1..][..k]);
      assert [ss[0]][1..] == [];
    }
  }

  /** Skipping chunk `i` when the line is past it. */
  lemma FindChunkSkip<T>(ss: seq<seq<T>>, i: nat, m: int)
    requires i < |ss| && m > |ss[i]| - 1
    ensures Shift(FindChunk(ss[i..], m), i) == Shift(FindChunk(ss[i + 1..], m - |ss[i]|), i + 1)
  {
    assert ss[i..][1..] == ss[i + 1..];
  }

  /** Stopping at chunk `i` when the line is at or before its last line. */
  lemma FindChunkHere<T>(ss: seq<seq<T>>, i: nat, m: int)
    requires i < |ss| && m <= |ss[i]| - 1
    ensures Shift(FindChunk(ss[i..], m), i) == Some((i, m))
  {
  }

  /** Per chunk: one break list per line, and a row counter equal to the chunk's rows. */
  ghost predicate Shaped(ls: seq<seq<string>>, bs: seq<seq<seq<int>>>, rows: seq<int>) {
    |ls| == |bs| == |rows| &&
    forall j :: 0 <= j < |ls| ==> |bs[j]| == |ls[j]| && rows[j] == Rows(bs[j])
  }

  /** Replacing line `idx` of chunk `k` and its breaks replaces line `Before(ls, k) + idx` of the document. */
  lemma FlatUpdate(ls: seq<seq<string>>, bs: seq<seq<seq<int>>>, rows: seq<int>, k: nat, idx: nat,
                   s: string, b: seq<int>)
    requires Shaped(ls, bs, rows) && k < |ls| && idx < |ls[k]|
    ensures Before(ls, k) + idx < |Flatten(ls)| == |Flatten(bs)|
    ensures Flatten(ls[k := ls[k][idx := s]]) == Flatten(ls)[Before(ls, k) + idx := s]
    ensures Flatten(bs[k := bs[k][idx := b]]) == Flatten(bs)[Before(ls, k) + idx := b]
  {
    BeforeSameShape(bs, ls, k);
    BeforeSameShape(bs, ls, |ls|);
    BeforeAll(ls);
    BeforeAll(bs);
    FlattenUpdateAt(ls, k, idx, s);
    FlattenUpdateAt(bs, k, idx, b);
  }

  /** Inserting at `idx` of chunk `k` inserts at `Before(ls, k) + idx` of the document. */
  lemma FlatInsert(ls: seq<seq<string>>, bs: seq<seq<seq<int>>>, rows: seq<int>, k: nat, idx: nat,
                   s: string, b: seq<int>)
    requires Shaped(ls, bs, rows) && k < |ls| && idx <= |ls[k]|
    ensures Before(ls, k) + idx <= |Flatten(ls)| == |Flatten(bs)|
    ensures Flatten(ls[k := InsertAt(ls[k], idx, s)]) == InsertAt(Flatten(ls), Before(ls, k) + idx, s)
    ensures Flatten(bs[k := InsertAt(bs[k], idx, b)]) == InsertAt(Flatten(bs), Before(ls, k) + idx, b)
  {
    BeforeSameShape(bs, ls, k);
    BeforeSameShape(bs, ls, |ls|);
    BeforeAll(ls);
    BeforeAll(bs);
    FlattenInsertAt(ls, k, idx, s);
    FlattenInsertAt(bs, k, idx, b);
  }

  /** Removing line `idx` of chunk `k` removes line `Before(ls, k) + idx` of the document. */
  lemma FlatRemove(ls: seq<seq<string>>, bs: seq<seq<seq<int>>>, rows: seq<int>, k: nat, idx: nat)
    requires Shaped(ls, bs, rows) && k < |ls| && idx < |ls[k]|
    ensures Before(ls, k) + idx < |Flatten(ls)| == |Flatten(bs)|
    ensures Flatten(ls[k := RemoveAt(ls[k], idx)]) == RemoveAt(Flatten(ls), Before(ls, k) + idx)
    ensures Flatten(bs[k := RemoveAt(bs[k], idx)]) == RemoveAt(Flatten(bs), Before(ls, k) + idx)
  {
    BeforeSameShape(bs, ls, k);
    BeforeSameShape(bs, ls, |ls|);
    BeforeAll(ls);
    BeforeAll(bs);
    FlattenRemoveAt(ls, k, idx);
    FlattenRemoveAt(bs, k, idx);
  }

  /** Every line's breaks are those `f` gives its text. */
  predicate WrappedBy(ls: seq<string>, bs: seq<seq<int>>, f: string -> seq<int>) {
    |ls| == |bs| && forall n :: 0 <= n < |ls| ==> bs[n] == f(ls[n])
  }

  /** Replacing a line together with its fresh breaks keeps a document wrapped. */
  lemma WrappedByUpdate(ls: seq<string>, bs: seq<seq<int>>, f: string -> seq<int>, n: nat, s: string)
    requires WrappedBy(ls, bs, f) && n < |ls|
    ensures WrappedBy(ls[n := s], bs[n := f(s)], f)
  {
  }

  /** Inserting a line together with its fresh breaks keeps a document wrapped. */
  lemma WrappedByInsert(ls: seq<string>, bs: seq<seq<int>>, f: string -> seq<int>, p: nat, s: string)
    requires WrappedBy(ls, bs, f) && p <= |ls|
    ensures WrappedBy(InsertAt(ls, p, s), InsertAt(bs, p, f(s)), f)
  {
    var ls', bs' := InsertAt(ls, p, s), InsertAt(bs, p, f(s));
    forall n | 0 <= n < |ls'| ensures bs'[n] == f(ls'[n]) {
      if n > p {
        assert ls'[n] == ls[n - 1] && bs'[n] == bs[n - 1];
      }
    }
  }

  /** Removing a line together with its breaks keeps a document wrapped. */
  lemma WrappedByRemove(ls: seq<string>, bs: seq<seq<int>>, f: string -> seq<int>, p: nat)
    requires WrappedBy(ls, bs, f) && p < |ls|
    ensures WrappedBy(RemoveAt(ls, p), RemoveAt(bs, p), f)
  {
    var ls', bs' := RemoveAt(ls, p), RemoveAt(bs, p);
    forall n | 0 <= n < |ls'| ensures bs'[n] == f(ls'[n]) {
      if n >= p {
        assert ls'[n] == ls[n + 1] && bs'[n] == bs[n + 1];
      }
    }
  }

  /**
   * Joining line `l` into line `l - 1` and rewrapping the joined line keeps a
   * document wrapped, whatever line `l` held (its breaks leave with it).
   */
  lemma WrappedBySplitUp(ls: seq<string>, bs: seq<seq<int>>, f: string -> seq<int>, l: nat, x: string)
    requires WrappedBy(ls, bs, f) && 0 < l < |ls|
    ensures var joined := SplitUpLines(ls[l := x], l);
            WrappedBy(joined, RemoveAt(bs, l)[l - 1 := f(joined[l - 1])], f)
  {
    var joined := SplitUpLines(ls[l := x], l);
    var bs' := RemoveAt(bs, l)[l - 1 := f(joined[l - 1])];
    forall n | 0 <= n < |joined| ensures bs'[n] == f(joined[n]) {
      if n >= l {
        assert joined[n] == ls[n + 1] && bs'[n] == bs[n + 1];
      } else if n < l - 1 {
        assert joined[n] == ls[n] && bs'[n] == bs[n];
      }
    }
  }

  /**
   * `splitDown` on a wrapped document leaves it unwrapped: with a wrap
   * function that breaks lines longer than three characters after the third,
   * splitting "abcdef" at 2 keeps the break [3] on the line "ab", which the
   * wrap function gives no break.
   */
  lemma SplitDownLeavesStaleBreaks()
    ensures var f := (s: string) => if |s| > 3 then [3] else [];
            && WrappedBy(["abcdef"], [[3]], f)
            && !WrappedBy(SplitDownLines(["abcdef"], 0, 2), InsertAt([[3]], 1, f(SliceFrom("abcdef", 2))), f)
  {
    var f := (s: string) => if |s| > 3 then [3] else [];
    assert Slice("abcdef", 0, 2) == "ab";
    assert SliceFrom("abcdef", 2) == "cdef";
    assert SplitDownLines(["abcdef"], 0, 2)[0] == "ab";
    assert InsertAt([[3]], 1, f("cdef"))[0] == [3];
    assert f("ab") == [];
  }

  /** Where a line lives: the chunk, the index in the chunk and the chunk's position. */
  datatype LineInfo = LineInfo(chunk: LineBuffer, index: int, chunkIndex: nat)

  /** What `getScreenLineInfo` returns for a found screen row. */
  datatype ScreenLineInfo = ScreenLineInfo(
    bufferLine: string, bufferLineNumber: nat, startColumn: int, endColumn: Option<int>)

  /** The screen-line record of row `row` of a document with these lines and breaks. */
  function ScreenLineOf(lines: seq<string>, bs: seq<seq<int>>, row: int): Option<ScreenLineInfo> {
    match LocateRow(bs, row)
    case None => None
    case Some(found) =>
      if found.0 < |lines| then
        Some(ScreenLineInfo(lines[found.0], found.0, SegmentStart(bs[found.0], found.1),
                            SegmentEnd(bs[found.0], found.1)))
      else None
  }

  /** The rows of the first `n` lines, one line at a time (`breaks[i].length + 1` each). */
  method RowsOfLines(bs: seq<seq<int>>, n: nat) returns (rows: int)
    requires n <= |bs|
    ensures rows == Rows(bs[..n])
  {
    rows := 0;
    var i := 0;
    while i < n
      invariant 0 <= i <= n
      invariant rows == Rows(bs[..i])
    {
      RowsStep(bs, i);
      rows := rows + |bs[i]| + 1;
      i := i + 1;
    }
  }

  /** A line's screen position from the rows before it and its segment offset. */
  lemma ScreenOfLine(bs: seq<seq<int>>, line: nat, rowsBefore: int, c: int, off: nat, x: int)
    requires line < |bs| && rowsBefore == Rows(bs[..line])
    requires off == SegmentOffset(bs[line], c) && x == if off >= 1 then bs[line][off - 1] else 0
    ensures ToScreen(bs, line, c) == (rowsBefore + off, c - x)
  {
  }

  /**
   * The line of a chunk owning screen row `offsetLine` of that chunk, and the
   * segment inside it: the first line whose rows reach the row.
   */
  method LocateInChunk(breaks: seq<seq<int>>, offsetLine: int) returns (found: Option<(nat, int)>)
    ensures found == LocateRow(breaks, offsetLine)
  {
    var i := 0;
    var lineNumber := 0;
    assert breaks[0..] == breaks;
    while lineNumber < |breaks|
      invariant 0 <= lineNumber <= |breaks|
      invariant LocateRow(breaks, offsetLine) == Shift(LocateRow(breaks[lineNumber..], offsetLine - i), lineNumber)
    {
      if i + |breaks[lineNumber]| >= offsetLine {
        return Some((lineNumber, offsetLine - i));
      }
      assert breaks[lineNumber..][1..] == breaks[lineNumber + 1..];
      i := i + |breaks[lineNumber]| + 1;
      lineNumber := lineNumber + 1;
    }
    return None;
  }

  /**
   * The state of the chunk-by-chunk search for screen row `row` of `doc`:
   * the chunks before `k` have been passed, they cover `screenStart` rows and
   * `start` lines, and the row is located in `doc` as it is in the rest.
   */
  ghost predicate ScreenSearch(doc: seq<seq<int>>, bss: seq<seq<seq<int>>>, k: nat, row: int, screenStart: int, start: nat) {
    k <= |bss| && LocateRow(doc, row) == Shift(LocateRow(Flatten(bss[k..]), row - screenStart), start)
  }

  /** The search lands in chunk `k` when the row is among its rows. */
  lemma ScreenSearchHere(doc: seq<seq<int>>, bss: seq<seq<seq<int>>>, k: nat, row: int, screenStart: int, start: nat,
                          n: nat, s: int)
    requires ScreenSearch(doc, bss, k, row, screenStart, start) && k < |bss|
    requires row - screenStart < Rows(bss[k]) && LocateRow(bss[k], row - screenStart) == Some((n, s))
    ensures LocateRow(doc, row) == Some((start + n, s))
  {
    assert bss[k..][0] == bss[k] && bss[k..][1..] == bss[k + 1..];
    LocateConcat(bss[k], Flatten(bss[k + 1..]), row - screenStart);
  }

  /** Otherwise the search goes on past chunk `k`, its rows and lines skipped. */
  lemma ScreenSearchSkip(doc: seq<seq<int>>, bss: seq<seq<seq<int>>>, k: nat, row: int, screenStart: int, start: nat,
                          rows: int, lines: nat)
    requires ScreenSearch(doc, bss, k, row, screenStart, start) && k < |bss|
    requires rows == Rows(bss[k]) && lines == |bss[k]|
    requires bss[k] == [] || row - screenStart >= rows
    ensures ScreenSearch(doc, bss, k + 1, row, screenStart + rows, start + lines)
  {
    assert bss[k..][0] == bss[k] && bss[k..][1..] == bss[k + 1..];
    LocateConcat(bss[k], Flatten(bss[k + 1..]), row - screenStart);
  }

  /** How many leading breaks are at or before `column`: the scan stops at the first one past it. */
  method CountBreaksUpTo(b: seq<int>, column: int) returns (offset: nat)
    ensures offset == SegmentOffset(b, column)
  {
    offset := 0;
    while offset < |b| && b[offset] <= column
      invariant offset <= |b|
      invariant forall j :: 0 <= j < offset ==> b[j] <= column
    {
      offset := offset + 1;
    }
  }

  class Buffer {
    var lineBuffers: seq<LineBuffer>
    var length: int
    var screenLength: int
    /** The wrap function handed to every chunk. */
    const getLineBreak: string -> seq<int>
    /** Lines per chunk when text is loaded. */
    const lineLimit: int := 5000
    /** The lines of each chunk, in chunk order. */
    ghost var chunkLines: seq<seq<string>>
    /** The break lists of each chunk, in chunk order. */
    ghost var chunkBreaks: seq<seq<seq<int>>>
    /** The row counter of each chunk, in chunk order. */
    ghost var chunkRows: seq<int>

    /** The document: every chunk's lines, in order. */
    ghost function Lines(): seq<string>
      reads this`chunkLines
    {
      Flatten(chunkLines)
    }

    /** The break lists of the document's lines, in order. */
    ghost function Breaks(): seq<seq<int>>
      reads this`chunkBreaks
    {
      Flatten(chunkBreaks)
    }

    /**
     * The chunks are distinct, share the buffer's wrap function, count their
     * lines, and hold what the ghost per-chunk lists say they hold.
     */
    ghost predicate Linked()
      reads this`lineBuffers, this`chunkLines, this`chunkBreaks, this`chunkRows, lineBuffers
    {
      && |chunkLines| == |chunkBreaks| == |chunkRows| == |lineBuffers|
      && (forall i, j :: 0 <= i < j < |lineBuffers| ==> lineBuffers[i] != lineBuffers[j])
      && (forall i {:trigger lineBuffers[i]} :: 0 <= i < |lineBuffers| ==>
            && lineBuffers[i].lines == chunkLines[i] && lineBuffers[i].breaks == chunkBreaks[i]
            && lineBuffers[i].screenLength == chunkRows[i] && lineBuffers[i].length == |chunkLines[i]|
            && lineBuffers[i].getLineBreak == getLineBreak)
    }

    /**
     * The bookkeeping every operation keeps: linked chunks, the line counter
     * equal to the document's length and the row counter equal to the sum of
     * the chunks' counters.
     */
    ghost predicate Consistent()
      reads this`lineBuffers, this`chunkLines, this`chunkBreaks, this`chunkRows, this`length, this`screenLength, lineBuffers
    {
      Linked() && length == |Lines()| && screenLength == Sum(chunkRows)
    }

    /** Chunk `j` has one break list per line and a row counter equal to its rows. */
    ghost predicate ChunkOk(j: int)
      reads this`chunkLines, this`chunkBreaks, this`chunkRows
    {
      0 <= j < |chunkLines| && j < |chunkBreaks| && j < |chunkRows| &&
      |chunkBreaks[j]| == |chunkLines[j]| && chunkRows[j] == Rows(chunkBreaks[j])
    }

    /** Chunk `j` is ok and every one of its lines carries the breaks of its current text. */
    ghost predicate ChunkWrapped(j: int)
      reads this`chunkLines, this`chunkBreaks, this`chunkRows
    {
      ChunkOk(j) && forall i :: 0 <= i < |chunkLines[j]| ==> chunkBreaks[j][i] == getLineBreak(chunkLines[j][i])
    }

    /** Every chunk has been wrapped once: one break list per line and a right row counter. */
    ghost predicate ChunksValid()
      reads this`chunkLines, this`chunkBreaks, this`chunkRows
    {
      Shaped(chunkLines, chunkBreaks, chunkRows)
    }

    /** Consistent with valid chunks, so the document has one break list per line. */
    ghost predicate Valid()
      reads this`lineBuffers, this`chunkLines, this`chunkBreaks, this`chunkRows, this`length, this`screenLength, lineBuffers
    {
      Consistent() && ChunksValid() && |Breaks()| == |Lines()|
    }

    /** Valid, and every line's breaks are those the wrap function gives its current text. */
    ghost predicate Wrapped()
      reads this`lineBuffers, this`chunkLines, this`chunkBreaks, this`chunkRows, this`length, this`screenLength, lineBuffers
    {
      Valid() && WrappedBy(Lines(), Breaks(), getLineBreak)
    }

    /** The document-level facts of a buffer with valid chunks. */
    lemma ValidShape()
      requires ChunksValid()
      ensures |Breaks()| == |Lines()|
      ensures Sum(chunkRows) == Rows(Breaks())
      ensures forall k :: 0 <= k <= |chunkLines| ==> Before(chunkBreaks, k) == Before(chunkLines, k)
    {
      forall k | 0 <= k <= |chunkLines|
        ensures Before(chunkBreaks, k) == Before(chunkLines, k)
      {
        BeforeSameShape(chunkBreaks, chunkLines, k);
      }
      BeforeAll(chunkBreaks);
      BeforeAll(chunkLines);
      SumRows(chunkRows, chunkBreaks, |chunkRows|);
      assert chunkRows[..|chunkRows|] == chunkRows;
      assert chunkBreaks[..|chunkRows|] == chunkBreaks;
    }

    /** A linked chunk of a buffer with valid chunks is itself valid. */
    lemma ChunkValid(k: nat)
      requires Linked() && ChunkOk(k) && k < |lineBuffers|
      ensures lineBuffers[k].Valid()
    {
    }

    /** A valid buffer is wrapped exactly when each of its chunks is. */
    lemma WrappedChunks()
      requires Valid()
      ensures Wrapped() <==> forall j :: 0 <= j < |chunkLines| ==> ChunkWrapped(j)
    {
      ValidShape();
      var ls, bs := chunkLines, chunkBreaks;
      if forall j :: 0 <= j < |chunkLines| ==> ChunkWrapped(j) {
        forall n | 0 <= n < |Lines()| ensures Breaks()[n] == getLineBreak(Lines()[n]) {
          FindChunkFound(ls, n);
          FindChunkSound(ls, n);
          var (k, i) := FindChunk(ls, n).value;
          assert ChunkWrapped(k);
          FlattenIndex(ls, k, i);
          FlattenIndex(bs, k, i);
        }
      }
      if Wrapped() {
        forall j | 0 <= j < |chunkLines| ensures ChunkWrapped(j) {
          forall i | 0 <= i < |ls[j]| ensures bs[j][i] == getLineBreak(ls[j][i]) {
            FlattenIndex(ls, j, i);
            FlattenIndex(bs, j, i);
          }
        }
      }
    }

    /** An empty document with no chunks. */
    constructor (getLineBreak: string -> seq<int>)
      ensures lineBuffers == [] && length == 0 && screenLength == 0
      ensures this.getLineBreak == getLineBreak
      ensures Wrapped() && Lines() == []
    {
      lineBuffers := [];
      length := 0;
      screenLength := 0;
      this.getLineBreak := getLineBreak;
      chunkLines := [];
      chunkBreaks := [];
      chunkRows := [];
    }

    /** `recalculateScreenLength`: the row counter becomes the sum of the chunks' counters. */
    method RecalculateScreenLength()
      requires Linked()
      modifies this`screenLength
      ensures screenLength == Sum(chunkRows)
    {
      var sum := 0;
      var k := 0;
      while k < |lineBuffers|
        invariant 0 <= k <= |lineBuffers|
        invariant sum == Sum(chunkRows[..k])
      {
        assert lineBuffers[k].screenLength == chunkRows[k];
        SumStep(chunkRows, k);
        sum := sum + lineBuffers[k].screenLength;
        k := k + 1;
      }
      assert chunkRows[..k] == chunkRows;
      screenLength := sum;
    }

    /**
     * `getLineInfo`: the chunk holding line `lineNumber`, the line's index in
     * it and the chunk's position; None past the end or with no chunks.
     */
    method GetLineInfo(lineNumber: int) returns (info: Option<LineInfo>)
      requires Consistent()
      ensures info.Some? <==> lineBuffers != [] && lineNumber < length
      ensures info.Some? ==> FindChunk(chunkLines, lineNumber) == Some((info.value.chunkIndex, info.value.index))
      ensures info.Some? ==> info.value.chunkIndex < |lineBuffers| && info.value.chunk == lineBuffers[info.value.chunkIndex]
      ensures info.Some? && lineNumber >= 0 ==>
        0 <= info.value.index < |chunkLines[info.value.chunkIndex]| &&
        Before(chunkLines, info.value.chunkIndex) + info.value.index == lineNumber &&
        Lines()[lineNumber] == chunkLines[info.value.chunkIndex][info.value.index]
      ensures info.Some? && lineNumber < 0 ==> info.value.chunkIndex == 0 && info.value.index == lineNumber
    {
      ghost var ls := chunkLines;
      FindChunkFound(ls, lineNumber);
      var bufferStart := 0;
      var i := 0;
      while i < |lineBuffers|
        invariant 0 <= i <= |lineBuffers|
        invariant bufferStart == Before(ls, i)
        invariant FindChunk(ls, lineNumber) == Shift(FindChunk(ls[i..], lineNumber - bufferStart), i)
      {
        var buffer := lineBuffers[i];
        var bufferEnd := bufferStart + |buffer.lines| - 1;
        if bufferEnd >= lineNumber {
          FindChunkHere(ls, i, lineNumber - bufferStart);
          info := Some(LineInfo(buffer, lineNumber - bufferStart, i));
          if lineNumber >= 0 {
            FindChunkSound(ls, lineNumber);
            FlattenIndex(ls, i, lineNumber - bufferStart);
          }
          return;
        }
        FindChunkSkip(ls, i, lineNumber - bufferStart);
        BeforeStep(ls, i);
        bufferStart := bufferStart + buffer.length;
        i := i + 1;
      }
      info := None;
    }

    /** `getLineContent`: the text of line `lineNumber`, None outside the document. */
    method GetLineContent(lineNumber: int) returns (line: Option<string>)
      requires Consistent()
      ensures line == if 0 <= lineNumber < |Lines()| then Some(Lines()[lineNumber]) else None
    {
      var info := GetLineInfo(lineNumber);
      if info.None? {
        return None;
      }
      var chunk, idx := info.value.chunk, info.value.index;
      if 0 <= idx < |chunk.lines| {
        line := Some(chunk.lines[idx]);
      } else {
        line := None;
      }
    }

    /** Rewrap line `idx` of chunk `k` and recount the rows. */
    method WrapChunkLine(k: nat, idx: nat)
      requires Linked() && ChunksValid() && k < |lineBuffers| && idx < |chunkLines[k]|
      modifies this, lineBuffers
      ensures Linked() && ChunksValid()
      ensures lineBuffers == old(lineBuffers) && length == old(length) && chunkLines == old(chunkLines)
      ensures chunkBreaks == old(chunkBreaks)[k := old(chunkBreaks)[k][idx := getLineBreak(chunkLines[k][idx])]]
      ensures screenLength == Sum(chunkRows)
    {
      ChunkValid(k);
      var chunk := lineBuffers[k];
      chunk.WrapLine(idx);
      chunkBreaks := chunkBreaks[k := chunk.breaks];
      chunkRows := chunkRows[k := chunk.screenLength];
      RecalculateScreenLength();
    }

    /** `wrapLine`: rewrap line `lineNumber` in its chunk and recount the rows. */
    method WrapLine(lineNumber: int)
      requires Valid() && 0 <= lineNumber < length
      modifies this, lineBuffers
      ensures Valid()
      ensures lineBuffers == old(lineBuffers) && length == old(length)
      ensures Lines() == old(Lines())
      ensures Breaks() == old(Breaks())[lineNumber := getLineBreak(Lines()[lineNumber])]
      ensures old(Wrapped()) ==> Wrapped()
    {
      var info := GetLineInfo(lineNumber);
      var idx, k := info.value.index, info.value.chunkIndex;
      ValidShape();
      FlattenUpdateAt(chunkBreaks, k, idx, getLineBreak(chunkLines[k][idx]));
      WrapChunkLine(k, idx);
    }
  
    /** Set line `idx` of chunk `k` to `text` (`buffer.lines[idx] = text`); its breaks stay. */
    method SetChunkLine(k: nat, idx: nat, text: string)
      requires Linked() && k < |lineBuffers| && idx < |chunkLines[k]|
      modifies lineBuffers[k], this`chunkLines
      ensures Linked()
      ensures chunkLines == old(chunkLines)[k := old(chunkLines)[k][idx := text]]
      ensures old(ChunksValid()) ==> ChunksValid()
    {
      var chunk := lineBuffers[k];
      chunk.lines := chunk.lines[idx := text];
      chunkLines := chunkLines[k := chunk.lines];
    }

    /** Insert `text` as line `idx` of chunk `k` (`LineBuffer.insert`), then recount. */
    method InsertChunkLine(k: nat, idx: nat, text: string)
      requires Linked() && ChunksValid() && k < |lineBuffers| && idx <= |chunkLines[k]|
      modifies this, lineBuffers[k]
      ensures Linked() && ChunksValid() && lineBuffers == old(lineBuffers)
      ensures chunkLines == old(chunkLines)[k := InsertAt(old(chunkLines)[k], idx, text)]
      ensures chunkBreaks == old(chunkBreaks)[k := InsertAt(old(chunkBreaks)[k], idx, getLineBreak(text))]
      ensures length == old(length) + 1 && screenLength == Sum(chunkRows)
    {
      ChunkValid(k);
      var chunk := lineBuffers[k];
      chunk.Insert(idx, text);
      chunkLines := chunkLines[k := chunk.lines];
      chunkBreaks := chunkBreaks[k := chunk.breaks];
      chunkRows := chunkRows[k := chunk.screenLength];
      length := length + 1;
      RecalculateScreenLength();
    }

    /** Append `text` as the last line of chunk `k` (`LineBuffer.append`), then recount. */
    method AppendChunkLine(k: nat, text: string)
      requires Linked() && ChunksValid() && k < |lineBuffers|
      modifies this, lineBuffers[k]
      ensures Linked() && ChunksValid() && lineBuffers == old(lineBuffers)
      ensures chunkLines == old(chunkLines)[k := old(chunkLines)[k] + [text]]
      ensures chunkBreaks == old(chunkBreaks)[k := old(chunkBreaks)[k] + [getLineBreak(text)]]
      ensures length == old(length) + 1 && screenLength == Sum(chunkRows)
    {
      ChunkValid(k);
      var chunk := lineBuffers[k];
      chunk.Append(text);
      chunkLines := chunkLines[k := chunk.lines];
      chunkBreaks := chunkBreaks[k := chunk.breaks];
      chunkRows := chunkRows[k := chunk.screenLength];
      length := length + 1;
      RecalculateScreenLength();
    }

    /** Remove line `idx` of chunk `k` and return it (`LineBuffer.remove`), then recount. */
    method RemoveChunkLine(k: nat, idx: nat) returns (deleted: string)
      requires Linked() && ChunksValid() && k < |lineBuffers| && idx < |chunkLines[k]|
      modifies this, lineBuffers[k]
      ensures Linked() && ChunksValid() && lineBuffers == old(lineBuffers)
      ensures deleted == old(chunkLines)[k][idx]
      ensures chunkLines == old(chunkLines)[k := RemoveAt(old(chunkLines)[k], idx)]
      ensures chunkBreaks == old(chunkBreaks)[k := RemoveAt(old(chunkBreaks)[k], idx)]
      ensures length == old(length) - 1 && screenLength == Sum(chunkRows)
    {
      ChunkValid(k);
      var chunk := lineBuffers[k];
      deleted := chunk.Remove(idx);
      chunkLines := chunkLines[k := chunk.lines];
      chunkBreaks := chunkBreaks[k := chunk.breaks];
      chunkRows := chunkRows[k := chunk.screenLength];
      length := length - 1;
      RecalculateScreenLength();
    }

    /**
     * `insert(line, column, text)`: `text` is spliced into the line at
     * `column` (appended when `column` is at or past its end) and the line is
     * rewrapped; every other line and its breaks stay.
     */
    method Insert(line: int, column: int, text: string)
      requires Valid() && 0 <= line < length
      modifies this, lineBuffers
      ensures Valid()
      ensures lineBuffers == old(lineBuffers) && length == old(length)
      ensures Lines() == old(Lines())[line := InsertText(old(Lines())[line], column, text)]
      ensures Breaks() == old(Breaks())[line := getLineBreak(Lines()[line])]
      ensures old(Wrapped()) ==> Wrapped()
    {
      var original := GetLineContent(line);
      var modified := InsertText(original.value, column, text);
      ReplaceLine(line, modified);
    }

    /** Line `line` becomes `text` (`buffer.lines[idx] = text`) and is rewrapped. */
    method ReplaceLine(line: int, text: string)
      requires Valid() && 0 <= line < length
      modifies this, lineBuffers
      ensures Valid()
      ensures lineBuffers == old(lineBuffers) && length == old(length)
      ensures Lines() == old(Lines())[line := text]
      ensures Breaks() == old(Breaks())[line := getLineBreak(text)]
      ensures old(Wrapped()) ==> Wrapped()
    {
      var info := GetLineInfo(line);
      var idx, k := info.value.index, info.value.chunkIndex;
      ghost var ls, bs, wrapped := Lines(), Breaks(), Wrapped();
      FlatUpdate(chunkLines, chunkBreaks, chunkRows, k, idx, text, getLineBreak(text));
      SetChunkLine(k, idx, text);
      WrapChunkLine(k, idx);
      assert Lines() == ls[line := text];
      assert Breaks() == bs[line := getLineBreak(text)];
      if wrapped {
        WrappedByUpdate(ls, bs, getLineBreak, line, text);
      }
    }

    /** `append(line, text)`: `text` is added at the end of the line, which is rewrapped. */
    method Append(line: int, text: string)
      requires Valid() && 0 <= line < length
      modifies this, lineBuffers
      ensures Valid()
      ensures lineBuffers == old(lineBuffers) && length == old(length)
      ensures Lines() == old(Lines())[line := old(Lines())[line] + text]
      ensures Breaks() == old(Breaks())[line := getLineBreak(Lines()[line])]
      ensures old(Wrapped()) ==> Wrapped()
    {
      var content := GetLineContent(line);
      Insert(line, |content.value|, text);
    }

    /**
     * `delete(line, column, change)`: the characters between `column` and
     * `column + change` leave the line (see `DeleteText`); nothing for a zero
     * change. The line is not rewrapped here, so its breaks stay as they were.
     */
    method Delete(line: int, column: int, change: int)
      requires Consistent() && (change != 0 ==> 0 <= line < length)
      modifies lineBuffers, this`chunkLines
      ensures Consistent()
      ensures Lines() == if change == 0 then old(Lines())
                         else old(Lines())[line := DeleteText(old(Lines())[line], column, change)]
      ensures old(ChunksValid()) ==> ChunksValid()
      decreases if change > 0 then 1 else 0
    {
      if change == 0 {
        return;
      }
      if change > 0 {
        Delete(line, column + change, -change);
        return;
      }
      ghost var ls := Lines();
      var info := GetLineInfo(line);
      var chunk, idx, k := info.value.chunk, info.value.index, info.value.chunkIndex;
      var original := chunk.lines[idx];
      var modified := Slice(original, 0, column + change) + SliceFrom(original, column);
      FlattenUpdateAt(chunkLines, k, idx, modified);
      SetChunkLine(k, idx, modified);
      assert Lines() == ls[line := modified];
    }

    /** `appendLine(text)`: a new last line, added to the last chunk. */
    method AppendLine(text: string)
      requires Valid() && |lineBuffers| > 0
      modifies this, lineBuffers
      ensures Valid() && lineBuffers == old(lineBuffers)
      ensures Lines() == old(Lines()) + [text]
      ensures Breaks() == old(Breaks()) + [getLineBreak(text)]
      ensures old(Wrapped()) ==> Wrapped()
    {
      var k := |lineBuffers| - 1;
      ValidShape();
      FlattenAppendLast(chunkLines, text);
      FlattenAppendLast(chunkBreaks, getLineBreak(text));
      AppendChunkLine(k, text);
    }

    /**
     * `insertLine(index, text)`: a new line at `index`; past the end it is
     * appended, before 0 it goes first. An empty document has no chunk to
     * find, so there only an append is possible.
     */
    method InsertLine(index: int, text: string)
      requires Valid() && |lineBuffers| > 0 && (index >= 0 || length > 0)
      modifies this, lineBuffers
      ensures Valid() && lineBuffers == old(lineBuffers)
      ensures Lines() == InsertAt(old(Lines()), InsertLinePosition(old(length), index), text)
      ensures Breaks() == InsertAt(old(Breaks()), InsertLinePosition(old(length), index), getLineBreak(text))
      ensures old(Wrapped()) ==> Wrapped()
    {
      if index > length - 1 {
        assert InsertAt(Lines(), length, text) == Lines() + [text];
        assert InsertAt(Breaks(), length, getLineBreak(text)) == Breaks() + [getLineBreak(text)];
        AppendLine(text);
        return;
      }
      var at := if index < 0 then 0 else index;
      InsertLineAt(at, text);
    }

    /** The in-range case of `insertLine`: the chunk holding line `at` gets the new line. */
    method InsertLineAt(at: int, text: string)
      requires Valid() && 0 <= at < length
      modifies this, lineBuffers
      ensures Valid() && lineBuffers == old(lineBuffers)
      ensures Lines() == InsertAt(old(Lines()), at, text)
      ensures Breaks() == InsertAt(old(Breaks()), at, getLineBreak(text))
      ensures old(Wrapped()) ==> Wrapped()
    {
      ghost var ls, bs, wrapped := Lines(), Breaks(), Wrapped();
      var info := GetLineInfo(at);
      var idx, k := info.value.index, info.value.chunkIndex;
      FlatInsert(chunkLines, chunkBreaks, chunkRows, k, idx, text, getLineBreak(text));
      InsertChunkLine(k, idx, text);
      if wrapped {
        WrappedByInsert(ls, bs, getLineBreak, at, text);
      }
    }

    /** `removeLine(index)`: line `index` leaves the document and is returned. */
    method RemoveLine(index: int) returns (deleted: string)
      requires Valid() && 0 <= index < length
      modifies this, lineBuffers
      ensures Valid() && lineBuffers == old(lineBuffers)
      ensures deleted == old(Lines())[index]
      ensures Lines() == RemoveAt(old(Lines()), index)
      ensures Breaks() == RemoveAt(old(Breaks()), index)
      ensures old(Wrapped()) ==> Wrapped()
    {
      ghost var ls, bs, wrapped := Lines(), Breaks(), Wrapped();
      var info := GetLineInfo(index);
      var idx, k := info.value.index, info.value.chunkIndex;
      FlatRemove(chunkLines, chunkBreaks, chunkRows, k, idx);
      deleted := RemoveChunkLine(k, idx);
      assert Lines() == RemoveAt(ls, index);
      assert Breaks() == RemoveAt(bs, index);
      if wrapped {
        WrappedByRemove(ls, bs, getLineBreak, index);
      }
    }

    /**
     * `swapLine(index, change)`: away from the edges the line is removed and
     * inserted again at `index + change`, rewrapped; `moved` is false (the
     * source returns nothing) at the top going up or the bottom going down.
     */
    method SwapLine(index: int, change: int) returns (moved: bool)
      requires Valid() && 0 <= index < length
      modifies this, lineBuffers
      ensures Valid() && lineBuffers == old(lineBuffers) && length == old(length)
      ensures moved <==> !(index == 0 && change < 0) && !(index == old(length) - 1 && change > 0)
      ensures Lines() == SwapLineAt(old(Lines()), index, change)
      ensures !moved ==> Breaks() == old(Breaks())
      ensures moved ==>
                Breaks() == InsertAt(RemoveAt(old(Breaks()), index), InsertLinePosition(old(length) - 1, index + change),
                                     getLineBreak(old(Lines())[index]))
      ensures old(Wrapped()) ==> Wrapped()
    {
      if (index == 0 && change < 0) || (index == length - 1 && change > 0) {
        return false;
      }
      ghost var ls := Lines();
      var deleted := RemoveLine(index);
      InsertLine(index + change, deleted);
      assert |RemoveAt(ls, index)| == |ls| - 1;
      return true;
    }

    /**
     * `swapLines(start, end, change)`: `swapLine(i, change)` for each line of
     * the block, top to bottom when moving up and bottom to top otherwise.
     */
    method SwapLines(start: int, end: int, change: int)
      requires Valid() && (start > end || (0 <= start && end < length))
      modifies this, lineBuffers
      ensures Valid() && lineBuffers == old(lineBuffers) && length == old(length)
      ensures Lines() == SwapLinesLines(old(Lines()), start, end, change)
      ensures old(Wrapped()) ==> Wrapped()
    {
      ghost var lines, wrapped := Lines(), Wrapped();
      if change < 0 {
        assert SwapProgress(lines, start, start - 1, change, wrapped);
        SwapLinesUp(start, end, change, lines, wrapped);
      } else {
        assert SwapProgress(lines, end + 1, end, change, wrapped);
        SwapLinesDown(start, end, change, lines, wrapped);
      }
    }

    /**
     * Midway through `swapLines` from `lines`: the buffer is valid, wrapped if
     * it was, and holds `lines` with the lines `start..end` moved.
     */
    ghost predicate SwapProgress(lines: seq<string>, start: int, end: int, change: int, wrapped: bool)
      reads this`lineBuffers, this`chunkLines, this`chunkBreaks, this`chunkRows, this`length, this`screenLength, lineBuffers
    {
      && Valid()
      && (start > end || (0 <= start && end < |lines|))
      && Lines() == SwapLinesLines(lines, start, end, change)
      && (wrapped ==> Wrapped())
    }

    /** The upward loop of `swapLines`: lines `start` to `end` in turn. */
    method SwapLinesUp(start: int, end: int, change: int, ghost lines: seq<string>, ghost wrapped: bool)
      requires SwapProgress(lines, start, start - 1, change, wrapped) && length == |lines|
      requires (start > end || (0 <= start && end < length)) && change < 0
      modifies this, lineBuffers
      ensures lineBuffers == old(lineBuffers) && length == old(length)
      ensures SwapProgress(lines, start, end, change, wrapped)
    {
      var i := start;
      while i <= end
        invariant lineBuffers == old(lineBuffers) && length == old(length)
        invariant (start <= end ==> start <= i <= end + 1) && (start > end ==> i == start)
        invariant SwapProgress(lines, start, i - 1, change, wrapped)
      {
        SwapBlockLast(lines, start, i, change, wrapped);
        i := i + 1;
      }
      if start > end {
        SameSwap(lines, start, start, end, change, wrapped);
      }
    }

    /** The downward loop of `swapLines`: lines `end` to `start` in turn. */
    method SwapLinesDown(start: int, end: int, change: int, ghost lines: seq<string>, ghost wrapped: bool)
      requires SwapProgress(lines, end + 1, end, change, wrapped) && length == |lines|
      requires (start > end || (0 <= start && end < length)) && change >= 0
      modifies this, lineBuffers
      ensures lineBuffers == old(lineBuffers) && length == old(length)
      ensures SwapProgress(lines, start, end, change, wrapped)
    {
      var i := end;
      while i >= start
        invariant lineBuffers == old(lineBuffers) && length == old(length)
        invariant (start <= end ==> start - 1 <= i <= end) && (start > end ==> i == end)
        invariant SwapProgress(lines, i + 1, end, change, wrapped)
      {
        SwapBlockFirst(lines, i, end, change, wrapped);
        i := i - 1;
      }
      if start > end {
        SameSwap(lines, end + 1, start, end, change, wrapped);
      }
    }

    /** With nothing to move, every empty range gives the same progress. */
    lemma SameSwap(lines: seq<string>, s: int, start: int, end: int, change: int, wrapped: bool)
      requires SwapProgress(lines, s, s - 1, change, wrapped) && start > end
      ensures SwapProgress(lines, start, end, change, wrapped)
    {
    }

    /** One turn of the upward loop of `swapLines`: line `end` moves after the ones above it. */
    method SwapBlockLast(ghost lines: seq<string>, start: int, end: int, change: int, ghost wrapped: bool)
      requires 0 <= start <= end < |lines| && length == |lines| && change < 0
      requires SwapProgress(lines, start, end - 1, change, wrapped)
      modifies this, lineBuffers
      ensures lineBuffers == old(lineBuffers) && length == old(length)
      ensures SwapProgress(lines, start, end, change, wrapped)
    {
      var _ := SwapLine(end, change);
    }

    /** One turn of the downward loop of `swapLines`: line `start` moves after the ones below it. */
    method SwapBlockFirst(ghost lines: seq<string>, start: int, end: int, change: int, ghost wrapped: bool)
      requires 0 <= start <= end < |lines| && length == |lines| && change >= 0
      requires SwapProgress(lines, start + 1, end, change, wrapped)
      modifies this, lineBuffers
      ensures lineBuffers == old(lineBuffers) && length == old(length)
      ensures SwapProgress(lines, start, end, change, wrapped)
    {
      var _ := SwapLine(start, change);
    }

    /**
     * Moving a block with the edge check done on the whole block: at the top
     * going up or at the bottom going down nothing moves; otherwise `swapLines`.
     */
    method MoveLines(start: int, end: int, change: int)
      requires Valid() && 0 <= start <= end < length
      modifies this, lineBuffers
      ensures Valid() && lineBuffers == old(lineBuffers) && length == old(length)
      ensures Lines() == MoveLinesLines(old(Lines()), start, end, change)
      ensures old(Wrapped()) ==> Wrapped()
    {
      if (change < 0 && start == 0) || (change > 0 && end == length - 1) {
        return;
      }
      SwapLines(start, end, change);
    }

    /** Line `line` becomes `text` (`buffer.lines[idx] = text`) and keeps its old breaks. */
    method SetLine(line: int, text: string)
      requires Valid() && 0 <= line < length
      modifies lineBuffers, this`chunkLines
      ensures Valid() && length == old(length)
      ensures Lines() == old(Lines())[line := text]
      ensures Breaks() == old(Breaks())
    {
      ghost var ls := Lines();
      var info := GetLineInfo(line);
      var idx, k := info.value.index, info.value.chunkIndex;
      FlattenUpdateAt(chunkLines, k, idx, text);
      SetChunkLine(k, idx, text);
      assert Lines() == ls[line := text];
    }

    /**
     * `splitDown(line, column)`: the line keeps the text before `column` and
     * the rest becomes a new line below it. Only the new line is wrapped: the
     * shortened line keeps the breaks of its longer text.
     */
    method SplitDown(line: int, column: int)
      requires Valid() && 0 <= line < length
      modifies this, lineBuffers
      ensures Valid() && lineBuffers == old(lineBuffers) && length == old(length) + 1
      ensures Lines() == SplitDownLines(old(Lines()), line, column)
      ensures Breaks() == InsertAt(old(Breaks()), line + 1, getLineBreak(SliceFrom(old(Lines())[line], column)))
    {
      ghost var ls := Lines();
      var original := GetLineContent(line);
      var before := Slice(original.value, 0, column);
      var after := SliceFrom(original.value, column);
      SetLine(line, before);
      InsertLine(line + 1, after);
      SplitDownAsInsert(ls, line, column);
    }

    /**
     * The split `newline` evidently intends: `splitDown` followed by
     * rewrapping the shortened line, which keeps a wrapped buffer wrapped.
     */
    method SplitDownRewrapped(line: int, column: int)
      requires Valid() && 0 <= line < length
      modifies this, lineBuffers
      ensures Valid() && lineBuffers == old(lineBuffers) && length == old(length) + 1
      ensures Lines() == SplitDownLines(old(Lines()), line, column)
      ensures Breaks() == InsertAt(old(Breaks())[line := getLineBreak(Lines()[line])], line + 1, getLineBreak(Lines()[line + 1]))
      ensures old(Wrapped()) ==> Wrapped()
    {
      ghost var ls, bs, wrapped := Lines(), Breaks(), Wrapped();
      SplitDown(line, column);
      WrapLine(line);
      ghost var before, after := Slice(ls[line], 0, column), SliceFrom(ls[line], column);
      SplitDownAsInsert(ls, line, column);
      assert Breaks() == InsertAt(bs[line := getLineBreak(before)], line + 1, getLineBreak(after));
      if wrapped {
        WrappedByUpdate(ls, bs, getLineBreak, line, before);
        WrappedByInsert(ls[line := before], bs[line := getLineBreak(before)], getLineBreak, line + 1, after);
      }
    }

    /**
     * `splitUp(line)`: the line leaves the document and its text is appended
     * to the line above, which is rewrapped; nothing happens at line 0.
     */
    method SplitUp(line: int)
      requires Valid() && 0 <= line < length
      modifies this, lineBuffers
      ensures Valid() && lineBuffers == old(lineBuffers)
      ensures length == if line == 0 then old(length) else old(length) - 1
      ensures Lines() == SplitUpLines(old(Lines()), line)
      ensures line == 0 ==> Breaks() == old(Breaks())
      ensures line > 0 ==> Breaks() == RemoveAt(old(Breaks()), line)[line - 1 := getLineBreak(Lines()[line - 1])]
      ensures old(Wrapped()) ==> Wrapped()
    {
      if line == 0 {
        return;
      }
      ghost var ls := Lines();
      var text := RemoveLine(line);
      Append(line - 1, text);
      SplitUpAsRemove(ls, line);
    }

    /** `wrapLineBuffer(index)`: wrap chunk `index` if there is one, then recount the rows. */
    method WrapLineBuffer(index: int)
      requires Linked()
      modifies this, lineBuffers
      ensures Linked() && lineBuffers == old(lineBuffers) && chunkLines == old(chunkLines) && length == old(length)
      ensures 0 <= index < |lineBuffers| ==> ChunkWrapped(index)
      ensures forall j :: 0 <= j < |lineBuffers| && j != index ==>
                chunkBreaks[j] == old(chunkBreaks)[j] && chunkRows[j] == old(chunkRows)[j]
      ensures screenLength == Sum(chunkRows)
    {
      if 0 <= index < |lineBuffers| {
        var chunk := lineBuffers[index];
        chunk.Wrap();
        chunkBreaks := chunkBreaks[index := chunk.breaks];
        chunkRows := chunkRows[index := chunk.screenLength];
      }
      RecalculateScreenLength();
    }

    /**
     * `wrapAllLineBuffersSync(start)`: the row counter is reset to the line
     * count, then every chunk from `start` on is wrapped. From the first
     * chunk on, a consistent buffer ends wrapped.
     */
    method WrapAllLineBuffersSync(start: int)
      requires Linked()
      modifies this, lineBuffers
      ensures Linked() && lineBuffers == old(lineBuffers) && chunkLines == old(chunkLines) && length == old(length)
      ensures forall j :: 0 <= j < |lineBuffers| && j >= start ==> ChunkWrapped(j)
      ensures forall j :: 0 <= j < |lineBuffers| && j < start ==>
                chunkBreaks[j] == old(chunkBreaks)[j] && chunkRows[j] == old(chunkRows)[j]
      ensures screenLength == if start < |lineBuffers| then Sum(chunkRows) else length
      ensures start <= 0 && old(Consistent()) ==> Wrapped()
    {
      screenLength := length;
      var i := start;
      while i < |lineBuffers|
        invariant Linked() && lineBuffers == old(lineBuffers) && chunkLines == old(chunkLines) && length == old(length)
        invariant (start < |lineBuffers| ==> start <= i <= |lineBuffers|) && (start >= |lineBuffers| ==> i == start)
        invariant forall j :: 0 <= j < |lineBuffers| && start <= j < i ==> ChunkWrapped(j)
        invariant forall j :: 0 <= j < |lineBuffers| && (j < start || i <= j) ==>
                    chunkBreaks[j] == old(chunkBreaks)[j] && chunkRows[j] == old(chunkRows)[j]
        invariant screenLength == if start < i then Sum(chunkRows) else length
      {
        label before:
        WrapLineBuffer(i);
        forall j | 0 <= j < |lineBuffers| && start <= j < i
          ensures ChunkWrapped(j)
        {
          assert old@before(ChunkWrapped(j));
        }
        i := i + 1;
      }
      if start <= 0 && old(Consistent()) {
        AllChunksWrapped();
      }
    }

    /** Linked, counted and with every chunk wrapped: the buffer is wrapped. */
    lemma AllChunksWrapped()
      requires Linked() && length == |Lines()| && (lineBuffers == [] ==> screenLength == 0)
      requires lineBuffers != [] ==> screenLength == Sum(chunkRows)
      requires forall j :: 0 <= j < |lineBuffers| ==> ChunkWrapped(j)
      ensures Wrapped()
    {
      forall j | 0 <= j < |chunkLines|
        ensures |chunkBreaks[j]| == |chunkLines[j]| && chunkRows[j] == Rows(chunkBreaks[j])
      {
        assert ChunkWrapped(j);
      }
      ValidShape();
      WrappedChunks();
    }

    /** A fresh, unwrapped chunk holding `piece` goes at the end; the counters grow by its lines. */
    method AddChunk(piece: seq<string>)
      requires Consistent()
      modifies this
      ensures Consistent()
      ensures |lineBuffers| == |old(lineBuffers)| + 1 && lineBuffers[..|old(lineBuffers)|] == old(lineBuffers)
      ensures fresh(lineBuffers[|old(lineBuffers)|])
      ensures chunkLines == old(chunkLines) + [piece]
      ensures chunkBreaks == old(chunkBreaks) + [[]] && chunkRows == old(chunkRows) + [|piece|]
      ensures Lines() == old(Lines()) + piece
      ensures length == old(length) + |piece| && screenLength == old(screenLength) + |piece|
    {
      var chunk := new LineBuffer(piece, getLineBreak);
      FlattenSnoc(chunkLines, piece);
      lineBuffers := lineBuffers + [chunk];
      chunkLines := chunkLines + [piece];
      chunkBreaks := chunkBreaks + [[]];
      chunkRows := chunkRows + [|piece|];
      assert chunkRows[..|chunkRows| - 1] == old(chunkRows);
      length := length + chunk.length;
      screenLength := screenLength + chunk.screenLength;
    }

    /**
     * `loadText(text)`: the text's lines, split at every line terminator,
     * are added in fresh chunks of at most `lineLimit` lines. The new chunks
     * are not wrapped yet: no breaks, one row per line.
     */
    method LoadText(text: string)
      requires Consistent()
      modifies this
      ensures Consistent()
      ensures Lines() == old(Lines()) + SplitLines(text)
      ensures length == old(length) + |SplitLines(text)| && screenLength == old(screenLength) + |SplitLines(text)|
      ensures |lineBuffers| >= |old(lineBuffers)| && lineBuffers[..|old(lineBuffers)|] == old(lineBuffers)
      ensures chunkBreaks[..|old(lineBuffers)|] == old(chunkBreaks) && chunkRows[..|old(lineBuffers)|] == old(chunkRows)
      ensures forall j :: |old(lineBuffers)| <= j < |lineBuffers| ==>
                fresh(lineBuffers[j]) && 0 < |chunkLines[j]| <= lineLimit &&
                chunkBreaks[j] == [] && chunkRows[j] == |chunkLines[j]|
    {
      var lines := SplitLines(text);
      var i := 0;
      while i < |lines|
        invariant Consistent() && 0 <= i
        invariant Lines() == old(Lines()) + lines[..if i < |lines| then i else |lines|]
        invariant length == old(length) + (if i < |lines| then i else |lines|)
        invariant screenLength == old(screenLength) + (if i < |lines| then i else |lines|)
        invariant |lineBuffers| >= |old(lineBuffers)| && lineBuffers[..|old(lineBuffers)|] == old(lineBuffers)
        invariant chunkBreaks[..|old(lineBuffers)|] == old(chunkBreaks) && chunkRows[..|old(lineBuffers)|] == old(chunkRows)
        invariant forall j :: |old(lineBuffers)| <= j < |lineBuffers| ==>
                    fresh(lineBuffers[j]) && 0 < |chunkLines[j]| <= lineLimit &&
                    chunkBreaks[j] == [] && chunkRows[j] == |chunkLines[j]|
      {
        var end := if i + lineLimit < |lines| then i + lineLimit else |lines|;
        var piece := lines[i..end];
        AddChunk(piece);
        assert lines[..end] == lines[..i] + piece;
        i := i + lineLimit;
      }
      assert lines[..|lines|] == lines;
    }

    /** The rows before chunk `k`: the sum of the counters of the chunks before it. */
    method RowsBeforeChunk(k: nat) returns (rows: int)
      requires Valid() && k <= |lineBuffers|
      ensures rows == Rows(Flatten(chunkBreaks[..k]))
    {
      rows := 0;
      var j := 0;
      while j < k
        invariant 0 <= j <= k
        invariant rows == Sum(chunkRows[..j])
      {
        assert lineBuffers[j].screenLength == chunkRows[j];
        SumStep(chunkRows, j);
        rows := rows + lineBuffers[j].screenLength;
        j := j + 1;
      }
      SumRows(chunkRows, chunkBreaks, k);
    }

    /**
     * `bufferToScreen`: the line is clamped into the document, then its screen
     * row is the rows before it plus the number of its breaks at or before
     * the column, and the screen column is measured from that segment's start.
     */
    method BufferToScreen(bufferLine: int, bufferColumn: int) returns (screen: (int, int))
      requires Valid() && length > 0
      ensures screen == ToScreen(Breaks(), Clamp(0, length - 1, bufferLine), bufferColumn)
    {
      var line := Clamp(0, length - 1, bufferLine);
      var screenLine, bufferBreaks := LineScreenStart(line);
      var screenOffset := CountBreaksUpTo(bufferBreaks, bufferColumn);
      var x := if screenOffset >= 1 then bufferBreaks[screenOffset - 1] else 0;
      ScreenOfLine(Breaks(), line, screenLine, bufferColumn, screenOffset, x);
      screen := (screenLine + screenOffset, bufferColumn - x);
    }

    /**
     * The first screen row of line `line` (the rows of the chunks before its
     * chunk, then of the lines before it in its chunk) and its breaks.
     */
    method LineScreenStart(line: int) returns (screenLine: int, lineBreaks: seq<int>)
      requires Valid() && 0 <= line < length
      ensures screenLine == Rows(Breaks()[..line]) && lineBreaks == Breaks()[line]
    {
      var info := GetLineInfo(line);
      var buffer, idx, k := info.value.chunk, info.value.index, info.value.chunkIndex;
      LineRowsSplit(k, idx, line);
      assert buffer.breaks == chunkBreaks[k];
      var before := RowsBeforeChunk(k);
      var within := RowsOfLines(buffer.breaks, idx);
      screenLine := before + within;
      lineBreaks := buffer.breaks[idx];
    }

    /** Line `idx` of chunk `k`: its breaks, and the rows before it split at the chunk boundary. */
    lemma LineRowsSplit(k: nat, idx: nat, line: int)
      requires ChunksValid() && k < |chunkLines| && idx < |chunkLines[k]|
      requires line == Before(chunkLines, k) + idx
      ensures 0 <= line < |Breaks()|
      ensures Breaks()[line] == chunkBreaks[k][idx]
      ensures Rows(Breaks()[..line]) == Rows(Flatten(chunkBreaks[..k])) + Rows(chunkBreaks[k][..idx])
    {
      ValidShape();
      FlattenPrefix(chunkBreaks, k, idx);
      FlattenIndex(chunkBreaks, k, idx);
      RowsConcat(Flatten(chunkBreaks[..k]), chunkBreaks[k][..idx]);
    }

    /**
     * `getScreenLineInfo`: the chunk whose rows reach screen row `lineNumber`,
     * then the line inside it; the record carries the line's text, its
     * document line number and the segment's start and end columns. None
     * when no row is found.
     */
    method GetScreenLineInfo(lineNumber: int) returns (info: Option<ScreenLineInfo>)
      requires Valid()
      ensures info == ScreenLineOf(Lines(), Breaks(), lineNumber)
    {
      ghost var bss, lss, doc := chunkBreaks, chunkLines, Breaks();
      assert bss[0..] == bss;
      var bufferScreenStart := 0;
      var bufferStart := 0;
      var k := 0;
      while k < |lineBuffers|
        invariant 0 <= k <= |lineBuffers|
        invariant bufferStart == Before(lss, k)
        invariant ScreenSearch(doc, bss, k, lineNumber, bufferScreenStart, bufferStart)
      {
        var found, nextScreenStart, nextStart := SearchChunk(k, lineNumber, bufferScreenStart, bufferStart, doc, bss, lss);
        if found.Some? {
          info := ScreenLineAt(k, found.value.0, found.value.1, bufferStart, lineNumber);
          return;
        }
        bufferScreenStart, bufferStart := nextScreenStart, nextStart;
        k := k + 1;
      }
      info := None;
    }

    /**
     * One step of `getScreenLineInfo`'s search: the row's place in chunk `k`
     * when the chunk's rows reach it, otherwise the search moves past the
     * chunk and the row and line counts move past its rows and lines.
     */
    method SearchChunk(k: nat, lineNumber: int, screenStart: int, start: nat,
                       ghost doc: seq<seq<int>>, ghost bss: seq<seq<seq<int>>>, ghost lss: seq<seq<string>>)
      returns (found: Option<(nat, int)>, nextScreenStart: int, nextStart: nat)
      requires Valid() && k < |lineBuffers| && doc == Breaks() && bss == chunkBreaks && lss == chunkLines
      requires start == Before(lss, k) && ScreenSearch(doc, bss, k, lineNumber, screenStart, start)
      ensures found.Some? ==> found.value.0 < |lss[k]|
      ensures found.Some? ==> LocateRow(doc, lineNumber) == Some((start + found.value.0, found.value.1))
      ensures found.None? ==> ScreenSearch(doc, bss, k + 1, lineNumber, nextScreenStart, nextStart)
      ensures nextStart == Before(lss, k + 1)
    {
      var buffer := lineBuffers[k];
      ChunkCounters(k);
      BeforeStep(lss, k);
      nextScreenStart, nextStart := screenStart + buffer.screenLength, start + buffer.length;
      found := None;
      if lineNumber < nextScreenStart {
        found := LocateInChunk(buffer.breaks, lineNumber - screenStart);
        if found.Some? {
          ScreenSearchHere(doc, bss, k, lineNumber, screenStart, start, found.value.0, found.value.1);
          return;
        }
        LocateFound(bss[k], lineNumber - screenStart);
      }
      ScreenSearchSkip(doc, bss, k, lineNumber, screenStart, start, buffer.screenLength, buffer.length);
    }

    /** What chunk `k` of a valid buffer holds: its breaks, and counters that match them. */
    lemma ChunkCounters(k: nat)
      requires Valid() && k < |lineBuffers|
      ensures lineBuffers[k].breaks == chunkBreaks[k] && lineBuffers[k].lines == chunkLines[k]
      ensures lineBuffers[k].screenLength == Rows(chunkBreaks[k]) && lineBuffers[k].length == |chunkBreaks[k]|
    {
      assert ChunkOk(k);
    }

    /** The screen-line record of segment `s` of line `n` of chunk `k`, whose first line is `bufferStart`. */
    method ScreenLineAt(k: nat, n: nat, s: int, bufferStart: int, ghost row: int) returns (info: Option<ScreenLineInfo>)
      requires Valid() && k < |lineBuffers| && n < |chunkLines[k]| && bufferStart == Before(chunkLines, k)
      requires LocateRow(Breaks(), row) == Some((bufferStart + n, s))
      ensures info == ScreenLineOf(Lines(), Breaks(), row)
    {
      ValidShape();
      FlattenIndex(chunkLines, k, n);
      FlattenIndex(chunkBreaks, k, n);
      var buffer := lineBuffers[k];
      assert buffer.lines == chunkLines[k] && buffer.breaks == chunkBreaks[k];
      var lineBreaks := buffer.breaks[n];
      var startColumn := if 1 <= s <= |lineBreaks| then lineBreaks[s - 1] else 0;
      var endColumn := if 0 <= s < |lineBreaks| then Some(lineBreaks[s]) else None;
      info := Some(ScreenLineInfo(buffer.lines[n], n + bufferStart, startColumn, endColumn));
    }

    /**
     * `screenToBuffer`: the owning line of screen row `screenLine`, and the
     * column offset by the start of that row's segment; None when the row is
     * not found.
     */
    method ScreenToBuffer(screenLine: int, screenColumn: int) returns (position: Option<(nat, int)>)
      requires Valid()
      ensures position == ToBuffer(Breaks(), screenLine, screenColumn)
    {
      var info := GetScreenLineInfo(screenLine);
      if info.None? {
        return None;
      }
      position := Some((info.value.bufferLineNumber, info.value.startColumn + screenColumn));
    }

    /**
     * `getScreenLineContent`: the text shown on screen row `lineNumber`, the
     * slice of its line between the segment's start and end; "" when the row
     * is not found or its line is empty.
     */
    method GetScreenLineContent(lineNumber: int) returns (text: string)
      requires Valid()
      ensures text == ScreenRowText(Lines(), Breaks(), lineNumber)
    {
      var info := GetScreenLineInfo(lineNumber);
      if info.None? || info.value.bufferLine == "" {
        return "";
      }
      var line := info.value.bufferLine;
      text := Slice(line, info.value.startColumn, info.value.endColumn.GetOr(|line|));
    }

    /** `wrapScreenLine`: rewrap the logical line that owns screen row `lineNumber`. */
    method WrapScreenLine(lineNumber: int)
      requires Valid() && LocateRow(Breaks(), lineNumber).Some?
      modifies this, lineBuffers
      ensures Valid() && lineBuffers == old(lineBuffers) && length == old(length)
      ensures Lines() == old(Lines())
      ensures var line := old(LocateRow(Breaks(), lineNumber).value.0);
              Breaks() == old(Breaks())[line := getLineBreak(Lines()[line])]
      ensures old(Wrapped()) ==> Wrapped()
    {
      var info := GetScreenLineInfo(lineNumber);
      WrapLine(info.value.bufferLineNumber);
    }
  }
}
