/**
 * The JavaScript string primitives the editor relies on: `String.prototype.slice`
 * with its clamping of negative and oversized indices, and the split of loaded
 * text on the line terminators `\r\n`, `\r` and `\n`.
 */
module JsString {

  /** Where `slice` puts an index: negative counts from the end, then clamped to [0, n]. */
  function SliceIndex(i: int, n: nat): (k: nat)
    ensures k <= n
    ensures 0 <= i <= n ==> k == i
    ensures i > n ==> k == n
    ensures i < 0 ==> k == if n + i < 0 then 0 else n + i
  {
    if i < 0 then (if n + i < 0 then 0 else n + i) else if i > n then n else i
  }

  /** `s.slice(b, e)`: the characters between the two normalised indices, or "" if they cross. */
  function Slice(s: string, b: int, e: int): string {
    var from, to := SliceIndex(b, |s|), SliceIndex(e, |s|);
    if from < to then s[from..to] else ""
  }

  /** `s.slice(b)`: everything from the normalised index `b` on. */
  function SliceFrom(s: string, b: int): string {
    Slice(s, b, |s|)
  }

  /** Inside the string, `slice` is plain sub-sequence selection. */
  lemma SliceInRange(s: string, b: int, e: int)
    requires 0 <= b <= e <= |s|
    ensures Slice(s, b, e) == s[b..e]
  {
  }

  /**
   * Cutting a string at any index, negative or past the end included, and
   * putting the two halves back together gives the string again.
   */
  lemma SliceSplit(s: string, c: int)
    ensures Slice(s, 0, c) + SliceFrom(s, c) == s
  {
    var k := SliceIndex(c, |s|);
    assert Slice(s, 0, c) == s[..k];
    assert SliceFrom(s, c) == s[k..];
    assert s[..k] + s[k..] == s;
  }

  /** The line terminators of `text.split(/\r\n|\r|\n/)`. */
  predicate IsTerminator(ch: char) {
    ch == '\n' || ch == '\r'
  }

  /**
   * `text.split(/\r\n|\r|\n/)`: the lines between terminators, where `\r\n`
   * counts as one terminator. The result is never empty.
   */
  function SplitLines(text: string): (lines: seq<string>)
    ensures |lines| >= 1
    decreases |text|
  {
    if text == [] then [""]
    else if text[0] == '\n' then [""] + SplitLines(text[1..])
    else if text[0] == '\r' then
      if |text| > 1 && text[1] == '\n' then [""] + SplitLines(text[2..])
      else [""] + SplitLines(text[1..])
    else
      var rest := SplitLines(text[1..]);
      [[text[0]] + rest[0]] + rest[1..]
  }

  /** Number of terminators the split consumes (`\r\n` counted once). */
  function Terminators(text: string): nat
    decreases |text|
  {
    if text == [] then 0
    else if text[0] == '\r' && |text| > 1 && text[1] == '\n' then 1 + Terminators(text[2..])
    else if IsTerminator(text[0]) then 1 + Terminators(text[1..])
    else Terminators(text[1..])
  }

  /** `lines.join('\n')`. */
  function JoinLines(lines: seq<string>): string {
    if lines == [] then ""
    else if |lines| == 1 then lines[0]
    else lines[0] + "\n" + JoinLines(lines[1..])
  }

  /** Splitting yields one more line than there are terminators. */
  lemma {:induction false} SplitLinesCount(text: string)
    ensures |SplitLines(text)| == Terminators(text) + 1
    decreases |text|
  {
    if text == [] {
    } else if text[0] == '\n' {
      SplitLinesCount(text[1..]);
    } else if text[0] == '\r' {
      if |text| > 1 && text[1] == '\n' {
        SplitLinesCount(text[2..]);
      } else {
        SplitLinesCount(text[1..]);
      }
    } else {
      SplitLinesCount(text[1..]);
    }
  }

  /** No line produced by the split contains a terminator. */
  lemma {:induction false} SplitLinesHaveNoTerminators(text: string)
    ensures forall i, j :: 0 <= i < |SplitLines(text)| && 0 <= j < |SplitLines(text)[i]| ==>
              !IsTerminator(SplitLines(text)[i][j])
    decreases |text|
  {
    if text == [] {
    } else if text[0] == '\n' {
      SplitLinesHaveNoTerminators(text[1..]);
    } else if text[0] == '\r' {
      if |text| > 1 && text[1] == '\n' {
        SplitLinesHaveNoTerminators(text[2..]);
      } else {
        SplitLinesHaveNoTerminators(text[1..]);
      }
    } else {
      var rest := SplitLines(text[1..]);
      SplitLinesHaveNoTerminators(text[1..]);
      assert SplitLines(text) == [[text[0]] + rest[0]] + rest[1..];
    }
  }

  lemma JoinPrepend(ch: char, lines: seq<string>)
    requires |lines| >= 1
    ensures JoinLines([[ch] + lines[0]] + lines[1..]) == [ch] + JoinLines(lines)
  {
    var first := [[ch] + lines[0]] + lines[1..];
    if |lines| > 1 {
      assert first[1..] == lines[1..];
    }
  }

  /** Text that uses only `\n` as terminator is restored by joining its lines with `\n`. */
  lemma {:induction false} SplitJoinRoundTrip(text: string)
    requires forall i :: 0 <= i < |text| ==> text[i] != '\r'
    ensures JoinLines(SplitLines(text)) == text
    decreases |text|
  {
    if text == [] {
    } else if text[0] == '\n' {
      SplitJoinRoundTrip(text[1..]);
      var rest := SplitLines(text[1..]);
      assert ([""] + rest)[1..] == rest;
    } else {
      SplitJoinRoundTrip(text[1..]);
      JoinPrepend(text[0], SplitLines(text[1..]));
      assert [text[0]] + text[1..] == text;
    }
  }
}
