/**
 * Soft-wrap geometry on the flattened document (src/buffer.js). Logical line
 * `l` carries an ordered list of break columns `bs[l]`; a break value is the
 * first column of the next wrapped segment, so line `l` occupies
 * `|bs[l]| + 1` screen rows. These functions are the buffer-space <-> screen-space
 * mapping that `Buffer.bufferToScreen`, `getScreenLineInfo` and `screenToBuffer`
 * compute chunk by chunk.
 */
module Screen {
  import opened Wrappers
  import opened JsString
  import opened Flat

  /** Screen rows taken by a run of lines: one per line plus one per break. */
  function Rows(bs: seq<seq<int>>): (n: nat)
    ensures n >= |bs|
  {
    if bs == [] then 0 else |bs[0]| + 1 + Rows(bs[1..])
  }

  lemma {:induction false} RowsConcat(a: seq<seq<int>>, b: seq<seq<int>>)
    ensures Rows(a + b) == Rows(a) + Rows(b)
  {
    if a == [] {
      assert a + b == b;
    } else {
      assert (a + b)[1..] == a[1..] + b;
      RowsConcat(a[1..], b);
    }
  }

  /** Rows of a prefix grow by the next line's rows. */
  lemma RowsStep(bs: seq<seq<int>>, l: nat)
    requires l < |bs|
    ensures Rows(bs[..l + 1]) == Rows(bs[..l]) + |bs[l]| + 1
  {
    assert bs[..l + 1] == bs[..l] + [bs[l]];
    RowsConcat(bs[..l], [bs[l]]);
  }

  /** Rewrapping one line changes the row count by that line's change in breaks. */
  lemma RowsUpdate(bs: seq<seq<int>>, l: nat, x: seq<int>)
    requires l < |bs|
    ensures Rows(bs[l := x]) == Rows(bs) - |bs[l]| + |x|
  {
    assert bs == bs[..l] + [bs[l]] + bs[l+1..];
    assert bs[l := x] == bs[..l] + [x] + bs[l+1..];
    RowsConcat(bs[..l] + [bs[l]], bs[l+1..]);
    RowsConcat(bs[..l], [bs[l]]);
    RowsConcat(bs[..l] + [x], bs[l+1..]);
    RowsConcat(bs[..l], [x]);
  }

  /** Inserting a line adds its rows. */
  lemma RowsInsert(bs: seq<seq<int>>, l: nat, x: seq<int>)
    requires l <= |bs|
    ensures Rows(bs[..l] + [x] + bs[l..]) == Rows(bs) + |x| + 1
  {
    assert bs == bs[..l] + bs[l..];
    RowsConcat(bs[..l], bs[l..]);
    RowsConcat(bs[..l] + [x], bs[l..]);
    RowsConcat(bs[..l], [x]);
  }

  /** Removing a line takes away its rows. */
  lemma RowsRemove(bs: seq<seq<int>>, l: nat)
    requires l < |bs|
    ensures Rows(bs[..l] + bs[l+1..]) == Rows(bs) - |bs[l]| - 1
  {
    assert bs == bs[..l] + [bs[l]] + bs[l+1..];
    RowsConcat(bs[..l] + [bs[l]], bs[l+1..]);
    RowsConcat(bs[..l], [bs[l]]);
    RowsConcat(bs[..l], bs[l+1..]);
  }

  /** The rows before line `l` and the line's own rows all lie inside the document. */
  lemma RowsPrefixBound(bs: seq<seq<int>>, l: nat)
    requires l < |bs|
    ensures Rows(bs[..l]) + |bs[l]| < Rows(bs)
  {
    RowsRemove(bs, l);
    RowsConcat(bs[..l], bs[l+1..]);
  }

  /** Row totals of a list of chunks, chunk by chunk. */
  function ChunkRows(bss: seq<seq<seq<int>>>): nat {
    if bss == [] then 0 else Rows(bss[0]) + ChunkRows(bss[1..])
  }

  /** The rows of the whole document are the sum of the rows of its chunks. */
  lemma {:induction false} RowsFlatten(bss: seq<seq<seq<int>>>)
    ensures Rows(Flatten(bss)) == ChunkRows(bss)
  {
    if bss != [] {
      RowsFlatten(bss[1..]);
      RowsConcat(bss[0], Flatten(bss[1..]));
    }
  }

  /**
   * How many wrapped segments precede column `c`: the length of the longest
   * prefix of breaks that are all at most `c` (the scan stops at the first
   * break strictly greater than `c`).
   */
  function SegmentOffset(b: seq<int>, c: int): (k: nat)
    ensures k <= |b|
    ensures forall j :: 0 <= j < k ==> b[j] <= c
    ensures k < |b| ==> b[k] > c
  {
    if b == [] || b[0] > c then 0 else 1 + SegmentOffset(b[1..], c)
  }

  /** First column of segment `s` (`breaks[s - 1] || 0`). */
  function SegmentStart(b: seq<int>, s: int): int {
    if 1 <= s <= |b| then b[s - 1] else 0
  }

  /** End column of segment `s` (`breaks[s]`), or None for the last segment. */
  function SegmentEnd(b: seq<int>, s: int): Option<int> {
    if 0 <= s < |b| then Some(b[s]) else None
  }

  /** `bufferToScreen` for an in-range logical line: (screen row, screen column). */
  function ToScreen(bs: seq<seq<int>>, l: nat, c: int): (int, int)
    requires l < |bs|
  {
    var off := SegmentOffset(bs[l], c);
    (Rows(bs[..l]) + off, c - SegmentStart(bs[l], off))
  }

  /**
   * The (logical line, segment) owning screen row `row`, found as
   * `getScreenLineInfo` does: the first line whose rows reach `row`.
   * A negative row lands on line 0.
   */
  function LocateRow(bs: seq<seq<int>>, row: int): (r: Option<(nat, int)>)
    ensures r.Some? ==> r.value.0 < |bs|
  {
    if bs == [] then None
    else if row <= |bs[0]| then Some((0, row))
    else match LocateRow(bs[1..], row - |bs[0]| - 1)
      case None => None
      case Some(found) => Some((found.0 + 1, found.1))
  }

  /** `screenToBuffer`: the owning line and the segment start plus the screen column. */
  function ToBuffer(bs: seq<seq<int>>, row: int, col: int): Option<(nat, int)> {
    match LocateRow(bs, row)
    case None => None
    case Some(found) => Some((found.0, SegmentStart(bs[found.0], found.1) + col))
  }

  function Shift(r: Option<(nat, int)>, n: nat): Option<(nat, int)> {
    match r
    case None => None
    case Some(found) => Some((found.0 + n, found.1))
  }

  /** Locating in a concatenation: in the first part if the row is there, else in the second. */
  lemma {:induction false} LocateConcat(a: seq<seq<int>>, b: seq<seq<int>>, row: int)
    ensures LocateRow(a + b, row) ==
              if a != [] && row < Rows(a) then LocateRow(a, row) else Shift(LocateRow(b, row - Rows(a)), |a|)
  {
    if a == [] {
      assert a + b == b;
    } else {
      assert (a + b)[0] == a[0];
      assert (a + b)[1..] == a[1..] + b;
      if row > |a[0]| {
        LocateConcat(a[1..], b, row - |a[0]| - 1);
      }
    }
  }

  /** A row is found exactly when it lies before the last row of a non-empty document. */
  lemma {:induction false} LocateFound(bs: seq<seq<int>>, row: int)
    ensures LocateRow(bs, row).Some? <==> bs != [] && row < Rows(bs)
  {
    if bs != [] && row > |bs[0]| {
      LocateFound(bs[1..], row - |bs[0]| - 1);
    }
  }

  /** A found row lies inside its line: `row` is the line's first row plus the segment. */
  lemma {:induction false} LocateSound(bs: seq<seq<int>>, row: int)
    requires row >= 0 && LocateRow(bs, row).Some?
    ensures var (l, s) := LocateRow(bs, row).value;
            0 <= s <= |bs[l]| && Rows(bs[..l]) + s == row
  {
    if row > |bs[0]| {
      LocateSound(bs[1..], row - |bs[0]| - 1);
      var (l, s) := LocateRow(bs[1..], row - |bs[0]| - 1).value;
      assert bs[..l + 1] == [bs[0]] + bs[1..][..l];
    }
  }

  /** The rows of line `l` are located back at line `l`, segment by segment. */
  lemma {:induction false} LocatePrefix(bs: seq<seq<int>>, l: nat, s: int)
    requires l < |bs| && 0 <= s <= |bs[l]|
    ensures LocateRow(bs, Rows(bs[..l]) + s) == Some((l, s))
  {
    if l > 0 {
      assert bs[..l] == [bs[0]] + bs[1..][..l - 1];
      LocatePrefix(bs[1..], l - 1, s);
    }
  }

  /**
   * Round trip: mapping any column of any line to the screen and back gives
   * the same buffer position. No assumption on the break values is needed.
   */
  lemma RoundTrip(bs: seq<seq<int>>, l: nat, c: int)
    requires l < |bs|
    ensures ToBuffer(bs, ToScreen(bs, l, c).0, ToScreen(bs, l, c).1) == Some((l, c))
  {
    LocatePrefix(bs, l, SegmentOffset(bs[l], c));
  }

  /** Break offsets that are strictly ascending and inside (0, n]. */
  ghost predicate BreaksOk(b: seq<int>, n: int) {
    && (forall j :: 0 <= j < |b| ==> 0 < b[j] <= n)
    && (forall i, j :: 0 <= i < j < |b| ==> b[i] < b[j])
  }

  /** Width in columns of segment `s` of a line of length `n`. */
  function SegmentWidth(b: seq<int>, s: int, n: int): int {
    SegmentEnd(b, s).GetOr(n) - SegmentStart(b, s)
  }

  /** With strictly ascending breaks, a column strictly inside a segment is counted to that segment. */
  lemma OffsetInsideSegment(b: seq<int>, s: nat, c: int)
    requires forall j :: 0 <= j < |b| ==> 0 < b[j]
    requires forall i, j :: 0 <= i < j < |b| ==> b[i] < b[j]
    requires s <= |b|
    requires SegmentStart(b, s) <= c && (s < |b| ==> c < b[s])
    ensures SegmentOffset(b, c) == s
  {
  }

  /**
   * The other direction: with ascending positive breaks, a screen position
   * strictly inside segment `s` of line `l` maps to the buffer and back to
   * itself. (The column just past a segment's last character belongs to the
   * next row.)
   */
  lemma ScreenRoundTrip(bs: seq<seq<int>>, l: nat, s: nat, col: int)
    requires l < |bs| && s <= |bs[l]| && 0 <= col
    requires forall j :: 0 <= j < |bs[l]| ==> 0 < bs[l][j]
    requires forall i, j :: 0 <= i < j < |bs[l]| ==> bs[l][i] < bs[l][j]
    requires s < |bs[l]| ==> col < bs[l][s] - SegmentStart(bs[l], s)
    ensures ToBuffer(bs, Rows(bs[..l]) + s, col) == Some((l, SegmentStart(bs[l], s) + col))
    ensures ToScreen(bs, l, SegmentStart(bs[l], s) + col) == (Rows(bs[..l]) + s, col)
  {
    LocatePrefix(bs, l, s);
    OffsetInsideSegment(bs[l], s, SegmentStart(bs[l], s) + col);
  }

  /** A zero break makes an empty first segment: its only column maps to the next row. */
  lemma ZeroBreakBreaksScreenRoundTrip()
    ensures LocateRow([[0]], 0) == Some((0, 0))
    ensures ToBuffer([[0]], 0, 0) == Some((0, 0))
    ensures ToScreen([[0]], 0, 0) == (1, 0)
  {
    assert [[0]][..0] == [];
  }

  /** The example of a line wrapped at columns 5 and 10. */
  lemma SegmentExample()
    ensures SegmentOffset([5, 10], 7) == 1
    ensures ToScreen([[5, 10]], 0, 7) == (1, 2)
  {
    assert [[5, 10]][..0] == [];
  }

  /**
   * `getScreenLineContent`: the slice of the owning logical line between the
   * segment's start and end (to the end of the line for the last segment), or
   * "" when the row is not found or the line is empty.
   */
  function ScreenRowText(lines: seq<string>, bs: seq<seq<int>>, row: int): string {
    match LocateRow(bs, row)
    case None => ""
    case Some(found) =>
      if found.0 < |lines| && lines[found.0] != "" then
        Slice(lines[found.0], SegmentStart(bs[found.0], found.1),
              SegmentEnd(bs[found.0], found.1).GetOr(|lines[found.0]|))
      else ""
  }

  /** With well-formed breaks, the text of segment `s` of line `l` is exactly that segment. */
  lemma ScreenRowTextWidth(lines: seq<string>, bs: seq<seq<int>>, l: nat, s: nat)
    requires |lines| == |bs| && l < |bs| && s <= |bs[l]|
    requires BreaksOk(bs[l], |lines[l]|)
    ensures 0 <= SegmentStart(bs[l], s) <= SegmentEnd(bs[l], s).GetOr(|lines[l]|) <= |lines[l]|
    ensures |ScreenRowText(lines, bs, Rows(bs[..l]) + s)| == SegmentWidth(bs[l], s, |lines[l]|)
  {
    LocatePrefix(bs, l, s);
    if s >= 1 && s < |bs[l]| {
      assert bs[l][s - 1] < bs[l][s];
    }
  }

  /** Lines without breaks take one row each. */
  lemma {:induction false} RowsUnwrapped(bs: seq<seq<int>>)
    requires forall j :: 0 <= j < |bs| ==> bs[j] == []
    ensures Rows(bs) == |bs|
  {
    if bs != [] {
      assert forall j :: 0 <= j < |bs[1..]| ==> bs[1..][j] == bs[j + 1];
      RowsUnwrapped(bs[1..]);
    }
  }

  /** Without breaks, screen row `l` shows exactly line `l`. */
  lemma UnwrappedRowText(lines: seq<string>, bs: seq<seq<int>>, l: nat)
    requires |lines| == |bs| && l < |bs|
    requires forall j :: 0 <= j < |bs| ==> bs[j] == []
    ensures ScreenRowText(lines, bs, l) == lines[l]
  {
    assert forall j :: 0 <= j < l ==> bs[..l][j] == bs[j];
    RowsUnwrapped(bs[..l]);
    LocatePrefix(bs, l, 0);
    SliceInRange(lines[l], 0, |lines[l]|);
  }
}
