/**
 * What the line-level edits of `Buffer` (src/buffer.js) do to the text of
 * the document, as functions on the list of lines. The `Buffer` methods are
 * specified by these, and the properties the editor relies on (insert then
 * delete restores a line, split then join restores the document, a swap moves
 * one line and keeps all of them) are proved here.
 */
module LineEdits {
  import opened JsString
  import opened Generic

  /** `insert(line, column, text)` on the line's text: append at or past the end, else splice. */
  function InsertText(s: string, column: int, text: string): string {
    if column >= |s| then s + text
    else Slice(s, 0, column) + text + SliceFrom(s, column)
  }

  /** Inside the line, the text lands between the prefix and the suffix at `column`. */
  lemma InsertTextSplices(s: string, column: int, text: string)
    requires 0 <= column <= |s|
    ensures InsertText(s, column, text) == s[..column] + text + s[column..]
  {
  }

  /** At any column the insert keeps every character and adds the text. */
  lemma InsertTextLength(s: string, column: int, text: string)
    ensures |InsertText(s, column, text)| == |s| + |text|
  {
    if column < |s| {
      SliceSplit(s, column);
    }
  }

  /**
   * `delete(line, column, change)` on the line's text: nothing for 0; for a
   * negative change the |change| characters ending at `column`; a positive
   * change is re-expressed as a backward delete from `column + change`.
   */
  function DeleteText(s: string, column: int, change: int): string
    decreases if change > 0 then 1 else 0
  {
    if change == 0 then s
    else if change > 0 then DeleteText(s, column + change, -change)
    else Slice(s, 0, column + change) + SliceFrom(s, column)
  }

  /** A backward delete of `n` characters removes exactly those before `column`. */
  lemma DeleteBackward(s: string, column: int, n: int)
    requires 0 <= n <= column <= |s|
    ensures DeleteText(s, column, -n) == s[..column - n] + s[column..]
  {
  }

  /** A forward delete of `n` characters removes exactly those from `column` on. */
  lemma DeleteForward(s: string, column: int, n: int)
    requires 0 <= column && 0 <= n && column + n <= |s|
    ensures DeleteText(s, column, n) == s[..column] + s[column + n..]
  {
    if n > 0 {
      DeleteBackward(s, column + n, n);
    }
  }

  /** Inserting `t` at `c` and deleting |t| characters backward from `c + |t|` restores the line. */
  lemma InsertDeleteInverse(s: string, c: int, t: string)
    requires 0 <= c <= |s|
    ensures DeleteText(InsertText(s, c, t), c + |t|, -|t|) == s
  {
    var m := InsertText(s, c, t);
    InsertTextSplices(s, c, t);
    DeleteBackward(m, c + |t|, |t|);
    assert m[..c] == s[..c];
    assert m[c + |t|..] == s[c..];
    assert s[..c] + s[c..] == s;
  }

  /** Sequence `xs` with `x` inserted before position `p`. */
  function InsertAt<T>(xs: seq<T>, p: nat, x: T): (r: seq<T>)
    requires p <= |xs|
    ensures |r| == |xs| + 1
  {
    assert xs == xs[..p] + xs[p..];
    xs[..p] + [x] + xs[p..]
  }

  /** Sequence `xs` without position `p`. */
  function RemoveAt<T>(xs: seq<T>, p: nat): (r: seq<T>)
    requires p < |xs|
    ensures |r| == |xs| - 1
  {
    assert xs == xs[..p] + [xs[p]] + xs[p + 1..];
    xs[..p] + xs[p + 1..]
  }

  /** Inserting adds exactly one occurrence of the element. */
  lemma InsertAtMultiset<T>(xs: seq<T>, p: nat, x: T)
    requires p <= |xs|
    ensures multiset(InsertAt(xs, p, x)) == multiset(xs) + multiset{x}
  {
    assert xs == xs[..p] + xs[p..];
  }

  /** Removing takes away exactly one occurrence of the element. */
  lemma RemoveAtMultiset<T>(xs: seq<T>, p: nat)
    requires p < |xs|
    ensures multiset(RemoveAt(xs, p)) == multiset(xs) - multiset{xs[p]}
  {
    assert xs == xs[..p] + [xs[p]] + xs[p + 1..];
  }

  /**
   * Where `insertLine(index, text)` puts the new line in a document of `n`
   * lines: past the end it appends, before 0 it inserts at 0.
   */
  function InsertLinePosition(n: nat, index: int): (p: nat)
    ensures p <= n
    ensures 0 <= index <= n ==> p == index
  {
    if index > n - 1 then n else if index < 0 then 0 else index
  }

  /** `splitDown(l, c)`: line `l` keeps the text before `c`; the rest becomes line `l + 1`. */
  function SplitDownLines(ls: seq<string>, l: nat, c: int): seq<string>
    requires l < |ls|
  {
    ls[..l] + [Slice(ls[l], 0, c), SliceFrom(ls[l], c)] + ls[l + 1..]
  }

  /** `splitUp(l)`: line `l` is removed and appended to line `l - 1`; nothing at line 0. */
  function SplitUpLines(ls: seq<string>, l: nat): seq<string>
    requires l < |ls|
  {
    if l == 0 then ls else ls[..l - 1] + [ls[l - 1] + ls[l]] + ls[l + 1..]
  }

  /** A split adds one line, and the two halves concatenate to the original line. */
  lemma SplitDownShape(ls: seq<string>, l: nat, c: int)
    requires l < |ls|
    ensures |SplitDownLines(ls, l, c)| == |ls| + 1
    ensures SplitDownLines(ls, l, c)[l] + SplitDownLines(ls, l, c)[l + 1] == ls[l]
    ensures forall i :: 0 <= i < l ==> SplitDownLines(ls, l, c)[i] == ls[i]
    ensures forall i :: l + 1 < i < |ls| + 1 ==> SplitDownLines(ls, l, c)[i] == ls[i - 1]
  {
    SliceSplit(ls[l], c);
  }

  /** `splitDown` as the buffer does it: shorten line `l`, then insert the rest after it. */
  lemma SplitDownAsInsert(ls: seq<string>, l: nat, c: int)
    requires l < |ls|
    ensures SplitDownLines(ls, l, c) == InsertAt(ls[l := Slice(ls[l], 0, c)], l + 1, SliceFrom(ls[l], c))
  {
    var ms := ls[l := Slice(ls[l], 0, c)];
    assert ms[..l + 1] == ls[..l] + [Slice(ls[l], 0, c)];
    assert ms[l + 1..] == ls[l + 1..];
  }

  /** `splitUp` as the buffer does it: remove line `l`, then append it to line `l - 1`. */
  lemma SplitUpAsRemove(ls: seq<string>, l: nat)
    requires 0 < l < |ls|
    ensures SplitUpLines(ls, l) == RemoveAt(ls, l)[l - 1 := ls[l - 1] + ls[l]]
  {
    var ms := RemoveAt(ls, l);
    assert ms == ls[..l - 1] + [ls[l - 1]] + ls[l + 1..];
  }

  /** `splitUp(l + 1)` after `splitDown(l, c)` restores the lines, at any column. */
  lemma SplitRoundTrip(ls: seq<string>, l: nat, c: int)
    requires l < |ls|
    ensures SplitUpLines(SplitDownLines(ls, l, c), l + 1) == ls
  {
    var d := SplitDownLines(ls, l, c);
    SplitDownShape(ls, l, c);
    assert d[..l] == ls[..l];
    assert d[l + 2..] == ls[l + 1..];
    assert ls == ls[..l] + [ls[l]] + ls[l + 1..];
  }

  /**
   * `swapLine(index, change)` away from the edges: the line is removed and
   * inserted again at `index + change` in the shortened document.
   */
  function SwapLineLines<T>(xs: seq<T>, index: nat, change: int): (r: seq<T>)
    requires index < |xs|
    ensures |r| == |xs|
  {
    var rest := RemoveAt(xs, index);
    InsertAt(rest, InsertLinePosition(|rest|, index + change), xs[index])
  }

  /**
   * A swap keeps the number of lines and the multiset of lines, and the moved
   * line ends at `index + change` clamped into the document.
   */
  lemma SwapLineMoves<T>(xs: seq<T>, index: nat, change: int)
    requires index < |xs|
    ensures |SwapLineLines(xs, index, change)| == |xs|
    ensures multiset(SwapLineLines(xs, index, change)) == multiset(xs)
    ensures SwapLineLines(xs, index, change)[Clamp(0, |xs| - 1, index + change)] == xs[index]
  {
    var rest := RemoveAt(xs, index);
    RemoveAtMultiset(xs, index);
    InsertAtMultiset(rest, InsertLinePosition(|rest|, index + change), xs[index]);
    assert multiset(rest) + multiset{xs[index]} == multiset(xs) by {
      assert xs[index] in multiset(xs);
    }
  }

  /** Moving a line by one exchanges it with its neighbour and leaves the others in place. */
  lemma SwapLineExchanges<T>(xs: seq<T>, index: nat, change: int)
    requires index < |xs| && (change == 1 || change == -1)
    requires 0 <= index + change < |xs|
    ensures SwapLineLines(xs, index, change) == xs[index := xs[index + change]][index + change := xs[index]]
  {
    var r := SwapLineLines(xs, index, change);
    var e := xs[index := xs[index + change]][index + change := xs[index]];
    assert |r| == |e|;
    forall i | 0 <= i < |r| ensures r[i] == e[i] {
    }
  }

  /** `swapLine(index, change)` with its edge guard: nothing happens at the top going up or at the bottom going down. */
  function SwapLineAt<T>(xs: seq<T>, index: nat, change: int): (r: seq<T>)
    requires index < |xs|
    ensures |r| == |xs|
  {
    if (index == 0 && change < 0) || (index == |xs| - 1 && change > 0) then xs
    else SwapLineLines(xs, index, change)
  }

  /**
   * `swapLines(start, end, change)`: `swapLine(i, change)` for every line of
   * the block, first to last when moving up and last to first otherwise.
   */
  function SwapLinesLines<T>(xs: seq<T>, start: int, end: int, change: int): (r: seq<T>)
    requires start > end || (0 <= start && end < |xs|)
    ensures |r| == |xs|
    decreases end - start
  {
    if start > end then xs
    else if change < 0 then SwapLineAt(SwapLinesLines(xs, start, end - 1, change), end, change)
    else SwapLineAt(SwapLinesLines(xs, start + 1, end, change), start, change)
  }

  /** One guarded swap keeps every line. */
  lemma SwapLineAtKeeps<T>(xs: seq<T>, index: nat, change: int)
    requires index < |xs|
    ensures multiset(SwapLineAt(xs, index, change)) == multiset(xs)
  {
    SwapLineMoves(xs, index, change);
  }

  /** Moving a block keeps every line: the result is a permutation. */
  lemma {:induction false} SwapLinesKeeps<T>(xs: seq<T>, start: int, end: int, change: int)
    requires start > end || (0 <= start && end < |xs|)
    ensures multiset(SwapLinesLines(xs, start, end, change)) == multiset(xs)
    decreases end - start
  {
    if start <= end {
      var start', end' := if change < 0 then start else start + 1, if change < 0 then end - 1 else end;
      SwapLinesKeeps(xs, start', end', change);
      SwapLinesStepKeeps(xs, start, end, change, start', end');
    }
  }

  /** The last swap of a block move keeps the lines the earlier swaps left. */
  lemma SwapLinesStepKeeps<T>(xs: seq<T>, start: int, end: int, change: int, start': int, end': int)
    requires 0 <= start <= end < |xs|
    requires start' == (if change < 0 then start else start + 1) && end' == (if change < 0 then end - 1 else end)
    ensures multiset(SwapLinesLines(xs, start, end, change)) == multiset(SwapLinesLines(xs, start', end', change))
  {
    if change < 0 {
      SwapLineAtKeeps(SwapLinesLines(xs, start, end - 1, change), end, change);
    } else {
      SwapLineAtKeeps(SwapLinesLines(xs, start + 1, end, change), start, change);
    }
  }

  /** Lines `start..i` moved up by one with line `start - 1` carried below them. */
  function UpState<T>(xs: seq<T>, start: nat, i: nat): seq<T>
    requires 1 <= start <= i <= |xs|
  {
    xs[..start - 1] + xs[start..i] + [xs[start - 1]] + xs[i..]
  }

  /** Moving lines `start..i - 1` up one at a time carries line `start - 1` down past them. */
  lemma {:induction false} SwapUpSteps<T>(xs: seq<T>, start: nat, i: nat)
    requires 1 <= start <= i <= |xs|
    ensures SwapLinesLines(xs, start, i - 1, -1) == UpState(xs, start, i)
    decreases i
  {
    if i == start {
      UpStateStart(xs, start);
    } else {
      SwapUpSteps(xs, start, i - 1);
      SwapUpStep(xs, start, i);
    }
  }

  /** Before any swap the carried line is still in its place. */
  lemma UpStateStart<T>(xs: seq<T>, start: nat)
    requires 1 <= start <= |xs|
    ensures UpState(xs, start, start) == xs
  {
    assert xs == xs[..start - 1] + [xs[start - 1]] + xs[start..];
  }

  /** Moving line `i - 1` up past the carried line carries it one line further down. */
  lemma SwapUpStep<T>(xs: seq<T>, start: nat, i: nat)
    requires 1 <= start < i <= |xs|
    requires SwapLinesLines(xs, start, i - 2, -1) == UpState(xs, start, i - 1)
    ensures SwapLinesLines(xs, start, i - 1, -1) == UpState(xs, start, i)
  {
    var ys := UpState(xs, start, i - 1);
    var rest := RemoveAt(ys, i - 1);
    assert InsertLinePosition(|rest|, i - 2) == i - 2;
    var r := InsertAt(rest, i - 2, ys[i - 1]);
    var e := UpState(xs, start, i);
    assert |r| == |e|;
    forall k | 0 <= k < |r| ensures r[k] == e[k] {
    }
  }

  /**
   * With `change == -1` and the block not at the top, the block moves up one
   * line intact and the line above it goes below it.
   */
  lemma BlockMovesUp<T>(xs: seq<T>, start: nat, end: nat)
    requires 1 <= start <= end < |xs|
    ensures SwapLinesLines(xs, start, end, -1) ==
            xs[..start - 1] + xs[start..end + 1] + [xs[start - 1]] + xs[end + 1..]
  {
    SwapUpSteps(xs, start, end + 1);
  }

  /** Lines `j + 1..end` moved down by one with line `end + 1` carried above them. */
  function DownState<T>(xs: seq<T>, j: int, end: nat): seq<T>
    requires -1 <= j <= end && end + 1 < |xs|
  {
    xs[..j + 1] + [xs[end + 1]] + xs[j + 1..end + 1] + xs[end + 2..]
  }

  /** Moving lines `j + 1..end` down one at a time carries line `end + 1` up past them. */
  lemma {:induction false} SwapDownSteps<T>(xs: seq<T>, j: int, end: nat)
    requires -1 <= j <= end && end + 1 < |xs|
    ensures SwapLinesLines(xs, j + 1, end, 1) == DownState(xs, j, end)
    decreases end - j
  {
    if j == end {
      DownStateEnd(xs, end);
    } else {
      SwapDownSteps(xs, j + 1, end);
      SwapDownStep(xs, j, end);
    }
  }

  /** Before any swap the carried line is still in its place. */
  lemma DownStateEnd<T>(xs: seq<T>, end: nat)
    requires end + 1 < |xs|
    ensures DownState(xs, end, end) == xs
  {
    assert xs == xs[..end + 1] + [xs[end + 1]] + xs[end + 2..];
  }

  /** Moving line `j + 1` down past the carried line carries it one line further up. */
  lemma SwapDownStep<T>(xs: seq<T>, j: int, end: nat)
    requires -1 <= j < end && end + 1 < |xs|
    requires SwapLinesLines(xs, j + 2, end, 1) == DownState(xs, j + 1, end)
    ensures SwapLinesLines(xs, j + 1, end, 1) == DownState(xs, j, end)
  {
    var ys := DownState(xs, j + 1, end);
    var rest := RemoveAt(ys, j + 1);
    assert InsertLinePosition(|rest|, j + 2) == j + 2;
    var r := InsertAt(rest, j + 2, ys[j + 1]);
    var e := DownState(xs, j, end);
    assert |r| == |e|;
    forall k | 0 <= k < |r| ensures r[k] == e[k] {
      if k <= j {
        assert r[k] == ys[k] == xs[k];
      } else if k == j + 1 {
        assert r[k] == ys[j + 2] == xs[end + 1];
      } else if k > j + 2 {
        assert r[k] == ys[k];
      }
    }
  }

  /**
   * With `change == 1` and the block not at the bottom, the block moves down
   * one line intact and the line below it goes above it.
   */
  lemma BlockMovesDown<T>(xs: seq<T>, start: nat, end: nat)
    requires start <= end && end + 1 < |xs|
    ensures SwapLinesLines(xs, start, end, 1) ==
            xs[..start] + [xs[end + 1]] + xs[start..end + 1] + xs[end + 2..]
  {
    SwapDownSteps(xs, start - 1, end);
  }

  /**
   * At the top, moving a two-line block up leaves the first line where it is
   * and swaps the second above it: the block is broken up.
   */
  lemma SwapLinesAtTopBreaksBlock()
    ensures SwapLinesLines(["a", "b", "c"], 0, 1, -1) == ["b", "a", "c"]
  {
    var xs := ["a", "b", "c"];
    assert SwapLineAt(xs, 0, -1) == xs;
    assert RemoveAt(xs, 1) == ["a", "c"];
    assert InsertAt(["a", "c"], 0, "b") == ["b", "a", "c"];
    assert SwapLineAt(xs, 1, -1) == ["b", "a", "c"];
  }

  /**
   * Moving a block with the edge check on the whole block: at the top going
   * up or at the bottom going down nothing moves; otherwise as `swapLines`.
   */
  function MoveLinesLines<T>(xs: seq<T>, start: nat, end: nat, change: int): (r: seq<T>)
    requires start <= end < |xs|
    ensures |r| == |xs|
  {
    if (change < 0 && start == 0) || (change > 0 && end == |xs| - 1) then xs
    else SwapLinesLines(xs, start, end, change)
  }

  /** With the whole-block edge check a one-line move either keeps the block intact or changes nothing. */
  lemma MoveLinesKeepsBlock<T>(xs: seq<T>, start: nat, end: nat, change: int)
    requires start <= end < |xs| && (change == 1 || change == -1)
    ensures multiset(MoveLinesLines(xs, start, end, change)) == multiset(xs)
    ensures change == -1 ==>
              MoveLinesLines(xs, start, end, change) ==
              (if start == 0 then xs else xs[..start - 1] + xs[start..end + 1] + [xs[start - 1]] + xs[end + 1..])
    ensures change == 1 ==>
              MoveLinesLines(xs, start, end, change) ==
              (if end == |xs| - 1 then xs else xs[..start] + [xs[end + 1]] + xs[start..end + 1] + xs[end + 2..])
  {
    SwapLinesKeeps(xs, start, end, change);
    if change == -1 && start > 0 {
      BlockMovesUp(xs, start, end);
    }
    if change == 1 && end < |xs| - 1 {
      BlockMovesDown(xs, start, end);
    }
  }

  /** Away from the edges, the moved block sits one line up or down, unchanged. */
  lemma MoveLinesBlockLands<T>(xs: seq<T>, start: nat, end: nat, change: int)
    requires start <= end < |xs| && (change == 1 || change == -1)
    requires !((change < 0 && start == 0) || (change > 0 && end == |xs| - 1))
    ensures 0 <= start + change && end + change < |xs|
    ensures MoveLinesLines(xs, start, end, change)[start + change..end + change + 1] == xs[start..end + 1]
  {
    if change == -1 {
      var a, b, c := xs[..start - 1], xs[start..end + 1], [xs[start - 1]] + xs[end + 1..];
      assert MoveLinesLines(xs, start, end, change) == a + b + c by {
        MoveLinesKeepsBlock(xs, start, end, change);
      }
      MiddleSlice(a, b, c);
    } else {
      var a, b, c := xs[..start] + [xs[end + 1]], xs[start..end + 1], xs[end + 2..];
      assert MoveLinesLines(xs, start, end, change) == a + b + c by {
        MoveLinesKeepsBlock(xs, start, end, change);
      }
      MiddleSlice(a, b, c);
    }
  }

  /** The middle part of a three-part concatenation is found at its offset. */
  lemma MiddleSlice<T>(a: seq<T>, b: seq<T>, c: seq<T>)
    ensures (a + b + c)[|a|..|a| + |b|] == b
  {
  }

  /**
   * `deleteSelection` across lines `sl < el`: line `sl` loses the characters
   * between `sc` and `len` (a delete of `sc - len` at `len`), the lines
   * strictly between go, line `el` loses its first `ec` characters and what
   * remains of it is appended to line `sl`.
   */
  function DeleteAcross(ls: seq<string>, sl: nat, sc: int, el: nat, ec: int, len: int): (r: seq<string>)
    requires sl < el < |ls|
    ensures |r| == |ls| - (el - sl)
  {
    ls[..sl] + [DeleteText(ls[sl], len, sc - len) + DeleteText(ls[el], 0, ec)] + ls[el + 1..]
  }

  /**
   * The cross-line deletion done step by step: cut line `sl`, drop the lines
   * strictly between `sl` and `el`, cut the start of what was line `el` and
   * join it to line `sl`.
   */
  lemma DeleteAcrossSteps(ls: seq<string>, sl: nat, sc: int, el: nat, ec: int, len: int,
                           cut: seq<string>, dropped: seq<string>)
    requires sl < el < |ls|
    requires cut == ls[sl := DeleteText(ls[sl], len, sc - len)]
    requires dropped == cut[..sl + 1] + cut[el..]
    ensures SplitUpLines(dropped[sl + 1 := DeleteText(dropped[sl + 1], 0, ec)], sl + 1)
              == DeleteAcross(ls, sl, sc, el, ec, len)
  {
    assert dropped[sl + 1] == ls[el];
    var joined := dropped[sl + 1 := DeleteText(ls[el], 0, ec)];
    assert joined[..sl] == ls[..sl];
    assert joined[sl + 2..] == ls[el + 1..];
  }

  /**
   * The document with the text from (`sl`, `sc`) up to (`el`, `ec`) taken
   * out: the part of line `sl` before `sc` joined to the part of line `el`
   * from `ec` on.
   */
  function DeleteRange(ls: seq<string>, sl: nat, sc: nat, el: nat, ec: nat): (r: seq<string>)
    requires sl <= el < |ls| && sc <= |ls[sl]| && ec <= |ls[el]| && (sl == el ==> sc <= ec)
    ensures |r| == |ls| - (el - sl)
    ensures r[..sl] == ls[..sl] && r[sl + 1..] == ls[el + 1..]
    ensures r[sl] == ls[sl][..sc] + ls[el][ec..]
  {
    ls[..sl] + [ls[sl][..sc] + ls[el][ec..]] + ls[el + 1..]
  }

  /** A deletion inside one line from `sc` to `ec` is the range deletion. */
  lemma DeleteWithinLine(ls: seq<string>, l: nat, sc: nat, ec: nat)
    requires l < |ls| && sc <= ec <= |ls[l]|
    ensures ls[l := DeleteText(ls[l], sc, ec - sc)] == DeleteRange(ls, l, sc, l, ec)
  {
    DeleteForward(ls[l], sc, ec - sc);
  }

  /**
   * With `len` the length of line `sl`, the cross-line deletion of
   * `deleteSelection` is the range deletion.
   */
  lemma DeleteAcrossIsRange(ls: seq<string>, sl: nat, sc: nat, el: nat, ec: nat)
    requires sl < el < |ls| && sc <= |ls[sl]| && ec <= |ls[el]|
    ensures DeleteAcross(ls, sl, sc, el, ec, |ls[sl]|) == DeleteRange(ls, sl, sc, el, ec)
  {
    DeleteBackward(ls[sl], |ls[sl]|, |ls[sl]| - sc);
    assert DeleteText(ls[sl], |ls[sl]|, sc - |ls[sl]|) == ls[sl][..sc];
    DeleteForward(ls[el], 0, ec);
    assert DeleteText(ls[el], 0, ec) == ls[el][ec..];
  }

  /**
   * With `len` short of the end of line `sl`, the characters from `len` on
   * survive: on ["abcdef", "gh"], deleting from (0, 1) to (1, 1) with
   * `len` 3 leaves "adefh" instead of "ah".
   */
  lemma DeleteAcrossShortLen()
    ensures DeleteAcross(["abcdef", "gh"], 0, 1, 1, 1, 3) == ["adefh"]
    ensures DeleteRange(["abcdef", "gh"], 0, 1, 1, 1) == ["ah"]
  {
    assert Slice("abcdef", 0, 1) == "a";
    assert SliceFrom("abcdef", 3) == "def";
    assert Slice("gh", 0, 0) == "";
    assert SliceFrom("gh", 1) == "h";
    var ls := ["abcdef", "gh"];
    assert DeleteText(ls[0], 3, -2) == "adef";
    assert DeleteText(ls[1], 0, 1) == "h";
    assert "adef" + "h" == "adefh";
    assert ls[..0] == [] && ls[2..] == [];
    assert DeleteAcross(ls, 0, 1, 1, 1, 3) == [] + ["adef" + "h"] + [];
    assert ls[0][..1] + ls[1][1..] == "ah";
  }
}
