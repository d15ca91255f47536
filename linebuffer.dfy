/**
 * A chunk of the document (`LineBuffer` in src/buffer.js): a bounded run of
 * logical lines with, in lockstep, each line's soft-wrap break offsets and
 * two running counters, `length` (lines) and `screenLength` (screen rows).
 */
module LineBuffers {
  import opened Screen

  class LineBuffer {
    var lines: seq<string>
    var breaks: seq<seq<int>>
    var length: int
    var screenLength: int
    /** The wrap function supplied by the measuring layer. */
    const getLineBreak: string -> seq<int>

    /** The line counter matches the lines. */
    ghost predicate Counted()
      reads this
    {
      length == |lines|
    }

    /**
     * The chunk invariant every edit keeps: one break list per line, and the
     * screen-row counter equal to the sum of `breaks[i].length + 1`.
     */
    ghost predicate Valid()
      reads this
    {
      Counted() && |breaks| == |lines| && screenLength == Rows(breaks)
    }

    /** Every line's breaks are those the wrap function gives for its current text. */
    ghost predicate Wrapped()
      reads this
    {
      Valid() && forall i :: 0 <= i < |lines| ==> breaks[i] == getLineBreak(lines[i])
    }

    /** A fresh chunk is counted but not yet wrapped: no breaks, one row per line. */
    constructor (lines: seq<string>, getLineBreak: string -> seq<int>)
      ensures this.lines == lines && breaks == []
      ensures length == |lines| && screenLength == |lines|
      ensures this.getLineBreak == getLineBreak
      ensures Counted()
    {
      this.lines := lines;
      this.breaks := [];
      this.getLineBreak := getLineBreak;
      this.length := |lines|;
      this.screenLength := |lines|;
    }

    /** `wrap`: recompute every line's breaks and the row counter from scratch. */
    method Wrap()
      requires Counted()
      modifies this
      ensures lines == old(lines) && length == old(length)
      ensures Wrapped()
    {
      var ls := lines;
      breaks := seq(|ls|, i requires 0 <= i < |ls| => getLineBreak(ls[i]));
      screenLength := Rows(breaks);
    }

    /** `wrapLine`: rewrap one line and adjust the row counter by its change in breaks. */
    method WrapLine(lineNumber: int)
      requires Valid() && 0 <= lineNumber < |lines|
      modifies this
      ensures Valid()
      ensures lines == old(lines) && length == old(length)
      ensures breaks == old(breaks)[lineNumber := getLineBreak(lines[lineNumber])]
      ensures old(Wrapped()) ==> Wrapped()
    {
      var line := lines[lineNumber];
      var before := |breaks[lineNumber]| + 1;
      RowsUpdate(breaks, lineNumber, getLineBreak(line));
      breaks := breaks[lineNumber := getLineBreak(line)];
      screenLength := screenLength + |breaks[lineNumber]| + 1 - before;
    }

    /** `append`: add a wrapped line at the end. */
    method Append(text: string)
      requires Valid()
      modifies this
      ensures Valid()
      ensures lines == old(lines) + [text]
      ensures breaks == old(breaks) + [getLineBreak(text)]
      ensures old(Wrapped()) ==> Wrapped()
    {
      lines := lines + [text];
      var lineBreaks := getLineBreak(text);
      RowsInsert(breaks, |breaks|, lineBreaks);
      assert breaks[..|breaks|] + [lineBreaks] + breaks[|breaks|..] == breaks + [lineBreaks];
      breaks := breaks + [lineBreaks];
      length := length + 1;
      screenLength := screenLength + |lineBreaks| + 1;
    }

    /** `insert`: add a wrapped line before position `index`. */
    method Insert(index: int, text: string)
      requires Valid() && 0 <= index <= |lines|
      modifies this
      ensures Valid()
      ensures lines == old(lines)[..index] + [text] + old(lines)[index..]
      ensures breaks == old(breaks)[..index] + [getLineBreak(text)] + old(breaks)[index..]
      ensures old(Wrapped()) ==> Wrapped()
    {
      var lineBreaks := getLineBreak(text);
      RowsInsert(breaks, index, lineBreaks);
      lines := lines[..index] + [text] + lines[index..];
      breaks := breaks[..index] + [lineBreaks] + breaks[index..];
      length := length + 1;
      screenLength := screenLength + |lineBreaks| + 1;
      if old(Wrapped()) {
        forall i | 0 <= i < |lines| ensures breaks[i] == getLineBreak(lines[i]) {
          if i > index {
            assert lines[i] == old(lines)[i - 1] && breaks[i] == old(breaks)[i - 1];
          }
        }
      }
    }

    /** `remove`: take out line `index` with its breaks and return its text. */
    method Remove(index: int) returns (deleted: string)
      requires Valid() && 0 <= index < |lines|
      modifies this
      ensures Valid()
      ensures deleted == old(lines)[index]
      ensures lines == old(lines)[..index] + old(lines)[index + 1..]
      ensures breaks == old(breaks)[..index] + old(breaks)[index + 1..]
      ensures old(Wrapped()) ==> Wrapped()
    {
      deleted := lines[index];
      var lineBreaks := breaks[index];
      RowsRemove(breaks, index);
      lines := lines[..index] + lines[index + 1..];
      breaks := breaks[..index] + breaks[index + 1..];
      length := length - 1;
      screenLength := screenLength - (|lineBreaks| + 1);
      if old(Wrapped()) {
        forall i | 0 <= i < |lines| ensures breaks[i] == getLineBreak(lines[i]) {
          if i >= index {
            assert lines[i] == old(lines)[i + 1] && breaks[i] == old(breaks)[i + 1];
          }
        }
      }
    }
  }
}
