# writer: a verified model of the editor's text core

This project models the text core of the `writer` editor in Dafny:

- **The document store.** A `Buffer` is a list of `LineBuffer` chunks. Each chunk holds its lines and, in lockstep, each line's soft-wrap break offsets. It also keeps two counters: the number of lines and the number of screen rows.
- **Coordinate mapping.** Buffer positions (logical line, column) map to screen positions (wrapped row, column) and back.
- **Line edits.** The edits are insert, delete, insertLine, removeLine, splitDown, splitUp, swapLine and swapLines.
- **`Point` and `Selection`.** A `Point` has a strict lexicographic order. A `Selection` keeps `direction`, `isCollapsed`, `start` and `end` derived from its anchor and focus.
- **`Cursor`.** Its motions are left/right, up/down through screen space, line and paragraph bounds, word moves and `deleteSelection`.
- **The editor's multi-cursor functions** from `src/utils.js`. These are `insertText`, `backspace`, `deleteToStartOfLine`, `newline`, `swapLine`, `getSelectionText`, `removeLine`, the cursor-set motions, `mergeCursors`, `flattenToOneCursor`, `moveToTop`/`moveToBottom`, `selectAll`, and the helpers `clamp`, `first` and `last`.

Each class that updates fields in place is a Dafny `class`: `LineBuffer`, `Buffer`, `Selection`, `Cursor`, and the editor, which holds the buffer and the cursor list. Its methods are specified through ghost views:

- `Buffer.Lines()` and `Buffer.Breaks()` are the flattened document and its break lists.
- `SpanOf(cursor)` is a cursor's anchor and focus.
- A few pure functions say where each edit and each motion leaves the document and the cursor. These are the `LineEdits`, `Motion` and `Screen` modules, and the per-cursor functions of `Editing`.

The properties of an operation are proved about those functions. Examples: round trips, permutations, and which cursor a merge keeps.

The soft-wrap function `getLineBreak` is a parameter of type `string -> seq<int>`. The word-boundary oracle of the browser is a parameter of type `(string, Direction, int) -> int`. Neither is interpreted.

Facts that need well-formed break lists assume so explicitly, through `BreaksOk` and `AllBreaksOk`: breaks must be strictly ascending and inside (0, length]. Examples are screen → buffer → screen, and where a vertical move lands. The round trip buffer → screen → buffer needs no assumption on the breaks at all. `ZeroBreakBreaksScreenRoundTrip` shows what a zero break does to the other direction (src/measure.js:62-63 can produce one).

Modules, one per file:

| file | module | models |
|---|---|---|
| `wrappers.dfy` | `Wrappers` | `Option` |
| `position.dfy` | `Position` | src/position.js |
| `selections.dfy` | `Selections` | src/selection.js |
| `jsstring.dfy` | `JsString` | `String.prototype.slice` and the line split of `loadText` |
| `flat.dfy` | `Flat` | the chunk list flattened into one document |
| `screen.dfy` | `Screen` | the geometry of wrapped rows |
| `linebuffer.dfy` | `LineBuffers` | `LineBuffer` |
| `buffer.dfy` | `Buffers` | `Buffer` |
| `edits.dfy` | `LineEdits` | line-level edits as functions |
| `motion.dfy` | `Motion` | motion targets |
| `cursors.dfy` | `Cursors` | `Cursor` |
| `generic.dfy` | `Generic` | `clamp`, `first` and `last` |
| `editing.dfy` | `Editing` | the editor functions of src/utils.js |

## Model

| member | source | states |
|---|---|---|
| Position.From | src/position.js:7-9 | the copy equals its argument in both directions |
| Position.EqualsIsIdentity | src/position.js:15-17 | `equals` holds exactly when line and column are both equal |
| Position.AfterIsConverseOfBefore | src/position.js:23-42 | `p.after(q)` holds exactly when `q.before(p)` |
| Position.Trichotomy | src/position.js:15-42 | for any two points exactly one of before, equals and after holds |
| Position.BeforeIsStrictOrder | src/position.js:23-29 | `before` is irreflexive and transitive |
| Selections.GetDirection | src/selection.js:51-57 | the direction is backward exactly when the focus is before the anchor |
| Selections.DirectionOrdersEnds | src/selection.js:43-48 | start and end are anchor and focus in some order, and start is never after end |
| Selections.Selection.constructor | src/selection.js:7-20 | all four points are at the given point, or at (0, 0) without one; the selection is collapsed, forward and consistent |
| Selections.Selection.Derive | src/selection.js:43-48 | focus and anchor are kept, and the derived fields become consistent with them |
| Selections.Selection.SetFocus | src/selection.js:33-36 | the new focus, the same anchor, and consistent derived fields |
| Selections.Selection.SetAnchor | src/selection.js:38-41 | the new anchor, the same focus, and consistent derived fields |
| Selections.Selection.StartNotAfterEnd | src/selection.js:43-48 | in a consistent selection start is not after end, it is collapsed exactly when start equals end, and start and end are anchor and focus |
| Generic.Clamp | src/utils.js:577-579 | the result is within [min, max] when min <= max, equals the value when the value is in range, and is the bound that was crossed otherwise |
| Generic.First | src/utils.js:595-597 | some exactly when the array is non-empty, and then its first element |
| Generic.Last | src/utils.js:586-588 | some exactly when the array is non-empty, and then its last element |
| JsString.SliceIndex | src/buffer.js:396-397 | `slice` counts a negative index from the end and clamps into [0, n] |
| JsString.SliceInRange | src/buffer.js:299-300 | inside the string, `slice` is plain sub-sequence selection |
| JsString.SliceSplit | src/buffer.js:396-397 | the two halves of a cut at any index, negative or past the end, concatenate to the string |
| JsString.SplitLines | src/buffer.js:148 | the split of loaded text is never empty |
| JsString.SplitLinesCount | src/buffer.js:148 | the split yields one more line than the text has terminators, with `\r\n` counted once |
| JsString.SplitLinesHaveNoTerminators | src/buffer.js:148 | no split line contains `\r` or `\n` |
| JsString.SplitJoinRoundTrip | src/buffer.js:148 | text with only `\n` terminators is restored by joining its lines with `\n` |
| Screen.Rows | src/buffer.js:19-24 | a run of lines takes at least one screen row per line |
| Screen.RowsUpdate | src/buffer.js:27-32 | rewrapping one line changes the row count by that line's change in breaks |
| Screen.RowsInsert | src/buffer.js:44-50 | inserting a line adds its breaks plus one row |
| Screen.RowsRemove | src/buffer.js:53-59 | removing a line takes away its breaks plus one row |
| Screen.RowsFlatten | src/buffer.js:114-118 | the document's rows are the sum of the rows of its chunks |
| Screen.SegmentOffset | src/buffer.js:195-203 | the offset is the longest prefix of breaks all at or before the column, and the break after it is past the column |
| Screen.LocateRow | src/buffer.js:238-257 | a located row lies on an existing line |
| Screen.LocateFound | src/buffer.js:222-265 | a screen row is found exactly when the document is non-empty and the row is below the number of rows |
| Screen.LocateSound | src/buffer.js:238-252 | a found row is the line's first row plus the segment, and the segment is within the line's breaks |
| Screen.LocatePrefix | src/buffer.js:238-252 | every row of line `l` is located back at line `l`, segment by segment |
| Screen.LocateConcat | src/buffer.js:226-261 | locating a row in a concatenation looks in the first part when the row is there, and in the second part, shifted, otherwise |
| Screen.RoundTrip | src/buffer.js:171-209 | for every line and every column, `screenToBuffer(bufferToScreen(l, c)) == (l, c)`, with no assumption on the breaks |
| Screen.OffsetInsideSegment | src/buffer.js:197-203 | with ascending positive breaks, a column inside segment `s` is counted to segment `s` |
| Screen.ScreenRoundTrip | src/buffer.js:171-209 | with ascending positive breaks, a screen position inside a segment maps to the buffer and back to itself |
| Screen.ZeroBreakBreaksScreenRoundTrip | src/buffer.js:197-207 | a zero break makes row 0 map to a position that `bufferToScreen` puts on row 1 |
| Screen.SegmentExample | src/buffer.js:179-209 | breaks [5, 10] at column 7 give offset 1 and screen column 2 |
| Screen.ScreenRowTextWidth | src/buffer.js:211-220 | with well-formed breaks a row's text is exactly as wide as its segment |
| Screen.UnwrappedRowText | src/buffer.js:211-220 | without breaks, screen row `l` shows exactly line `l` |
| LineBuffers.LineBuffer.constructor | src/buffer.js:6-16 | the given lines with no breaks, `length` and `screenLength` equal to the number of lines |
| LineBuffers.LineBuffer.Wrap | src/buffer.js:19-24 | lines unchanged; every line gets the breaks the wrap function gives it, and `screenLength` is the sum of `breaks[i].length + 1` |
| LineBuffers.LineBuffer.WrapLine | src/buffer.js:27-32 | only the line's breaks change; the counters stay consistent |
| LineBuffers.LineBuffer.Append | src/buffer.js:35-41 | the line and its fresh breaks are added at the end; the counters stay consistent |
| LineBuffers.LineBuffer.Insert | src/buffer.js:44-50 | the line and its fresh breaks are inserted at `index`; the counters stay consistent |
| LineBuffers.LineBuffer.Remove | src/buffer.js:53-59 | the line and its breaks leave, the removed text is returned, and the counters stay consistent |
| Buffers.FindChunk | src/buffer.js:271-289 | a found chunk exists |
| Buffers.FindChunkFound | src/buffer.js:271-289 | a line is found exactly when there are chunks and it is before the end of the document |
| Buffers.FindChunkSound | src/buffer.js:276-280 | a found non-negative line is the element at the found index of the found chunk |
| Buffers.SplitDownLeavesStaleBreaks | src/buffer.js:392-401 | as written, `splitDown` on a wrapped document can leave it unwrapped (Finding 1) |
| Buffers.RowsOfLines | src/buffer.js:190-192 | the loop sums the rows of the first `n` lines |
| Buffers.CountBreaksUpTo | src/buffer.js:195-203 | the loop's count is the segment offset of the column |
| Buffers.LocateInChunk | src/buffer.js:235-257 | the inner loop finds the line and segment `LocateRow` gives |
| Buffers.Buffer.constructor | src/buffer.js:63-73 | an empty document with zero counters and no chunks, which is wrapped |
| Buffers.Buffer.RecalculateScreenLength | src/buffer.js:114-118 | the row counter becomes the rows of the document |
| Buffers.Buffer.GetLineInfo | src/buffer.js:271-289 | the chunk holding the line, the line's index within it and the chunk's position; none exactly when there are no chunks or the line is past the end; a negative line lands in chunk 0 with a negative index |
| Buffers.Buffer.GetLineContent | src/buffer.js:161-164 | the line's text; none outside the document |
| Buffers.Buffer.WrapLine | src/buffer.js:75-79 | only the line's breaks change, to those of its text |
| Buffers.Buffer.Insert | src/buffer.js:292-307 | the line becomes `InsertText` of it (prefix + text + suffix, or appended at or past the end) and is rewrapped; nothing else changes |
| Buffers.Buffer.Append | src/buffer.js:310-312 | the text is added at the end of the line, which is rewrapped |
| Buffers.Buffer.Delete | src/buffer.js:375-390 | the line becomes `DeleteText` of it, and nothing happens for a zero change; the breaks are not touched |
| Buffers.Buffer.AppendLine | src/buffer.js:315-321 | a new last line with its breaks is added to the last chunk |
| Buffers.Buffer.InsertLine | src/buffer.js:324-337 | the line goes in at `InsertLinePosition`: appended past the end, first before 0 |
| Buffers.Buffer.RemoveLine | src/buffer.js:344-350 | the line and its breaks leave, and its text is returned |
| Buffers.Buffer.SwapLine | src/buffer.js:364-373 | nothing happens at the top going up or at the bottom going down, and then the result is false; otherwise the line moves to `index + change` and the result is true |
| Buffers.Buffer.SwapLines | src/buffer.js:352-362 | the lines become `SwapLinesLines` of them, and a wrapped buffer stays wrapped |
| Buffers.Buffer.SwapLinesUp | src/buffer.js:353-356 | the upward loop leaves lines `start..end` moved one at a time, top to bottom |
| Buffers.Buffer.SwapLinesDown | src/buffer.js:357-360 | the downward loop leaves lines `end..start` moved one at a time, bottom to top |
| Buffers.Buffer.MoveLines | src/buffer.js:352-373 | the corrected block move: the lines become `MoveLinesLines` of them (Finding 2) |
| Buffers.Buffer.SplitDown | src/buffer.js:392-401 | as written: the lines become `SplitDownLines`; only the new line is wrapped, and the shortened line keeps its old breaks (Finding 1) |
| Buffers.Buffer.SplitDownRewrapped | src/buffer.js:392-401 | the corrected split: the same lines, and a wrapped buffer stays wrapped |
| Buffers.Buffer.SplitUp | src/buffer.js:403-407 | the lines become `SplitUpLines` (nothing at line 0), and a wrapped buffer stays wrapped |
| Buffers.Buffer.WrapLineBuffer | src/buffer.js:109-112 | chunk `index`, if any, is wrapped, and the other chunks keep their breaks and counters |
| Buffers.Buffer.WrapAllLineBuffersSync | src/buffer.js:102-107 | every chunk from `start` on is wrapped; from chunk 0 the whole buffer ends wrapped |
| Buffers.Buffer.LoadText | src/buffer.js:147-159 | the document gains the text's split lines, in fresh chunks of 1 to 5000 lines each with no breaks and one row per line |
| Buffers.Buffer.BufferToScreen | src/buffer.js:179-209 | the line is clamped into the document, and the result is `ToScreen` of the flattened breaks |
| Buffers.Buffer.GetScreenLineInfo | src/buffer.js:222-265 | the record of the line and segment `LocateRow` finds in the flattened document; none exactly when the row is not found |
| Buffers.Buffer.ScreenToBuffer | src/buffer.js:171-177 | `ToBuffer` on the flattened breaks |
| Buffers.Buffer.GetScreenLineContent | src/buffer.js:211-220 | the text of the row, `ScreenRowText` of the document |
| Buffers.Buffer.WrapScreenLine | src/buffer.js:81-84 | the line owning the row is rewrapped |
| LineEdits.InsertTextSplices | src/buffer.js:292-303 | inside the line the text lands between the prefix and the suffix at `column` |
| LineEdits.InsertTextLength | src/buffer.js:292-303 | an insert at any column keeps every character and adds the text |
| LineEdits.DeleteBackward | src/buffer.js:384-388 | a negative change removes exactly the characters ending at `column` |
| LineEdits.DeleteForward | src/buffer.js:380-382 | a positive change removes exactly the characters from `column` on |
| LineEdits.InsertDeleteInverse | src/buffer.js:292-307 | `insert(l, c, t)` followed by `delete(l, c + \|t\|, -\|t\|)` restores the line |
| LineEdits.InsertAtMultiset | src/buffer.js:44-50 | inserting a line adds exactly one occurrence of it |
| LineEdits.RemoveAtMultiset | src/buffer.js:53-59 | removing a line takes away exactly one occurrence of it |
| LineEdits.InsertLinePosition | src/buffer.js:324-337 | past the end the line is appended, and before 0 it goes first |
| LineEdits.SplitDownShape | src/buffer.js:392-401 | a split adds one line, and its two halves concatenate to the original line |
| LineEdits.SplitDownAsInsert | src/buffer.js:392-401 | `splitDown` is shortening the line and then inserting the rest after it |
| LineEdits.SplitUpAsRemove | src/buffer.js:403-407 | `splitUp` is removing the line and then appending it to the line above |
| LineEdits.SplitRoundTrip | src/buffer.js:392-407 | `splitUp(l + 1)` after `splitDown(l, c)` restores the lines at any column |
| LineEdits.SwapLineLines | src/buffer.js:369-372 | the line is removed and inserted again at `index + change` |
| LineEdits.SwapLineMoves | src/buffer.js:364-373 | a swap keeps the number and the multiset of lines, and the line lands at `index + change` clamped into the document |
| LineEdits.SwapLineExchanges | src/buffer.js:364-373 | moving a line by one exchanges it with its neighbour and leaves the others in place |
| LineEdits.SwapLineAt | src/buffer.js:364-373 | the guarded swap keeps the number of lines |
| LineEdits.SwapLinesLines | src/buffer.js:352-362 | moving a block keeps the number of lines |
| LineEdits.SwapLinesKeeps | src/buffer.js:352-362 | moving a block is a permutation of the lines |
| LineEdits.BlockMovesUp | src/buffer.js:353-356 | away from the top, moving up keeps the block intact one line higher, with the line above it moved below it |
| LineEdits.BlockMovesDown | src/buffer.js:357-360 | away from the bottom, moving down keeps the block intact one line lower, with the line below it moved above it |
| LineEdits.SwapLinesAtTopBreaksBlock | src/buffer.js:352-373 | as written, moving a block that starts at line 0 up breaks the block apart (Finding 2) |
| LineEdits.MoveLinesLines | src/buffer.js:352-373 | the corrected block move keeps the number of lines |
| LineEdits.MoveLinesKeepsBlock | src/buffer.js:352-373 | the corrected block move either changes nothing (at an edge) or moves the block intact by one line |
| LineEdits.MoveLinesBlockLands | src/buffer.js:352-373 | away from the edges, the moved block sits unchanged one line up or down |
| LineEdits.DeleteAcross | src/cursor.js:29-47 | the lines strictly between the first and the last of the selection leave |
| LineEdits.DeleteRange | src/cursor.js:20-50 | taking out the range joins the part before the start to the part after the end |
| LineEdits.DeleteWithinLine | src/cursor.js:24-27 | a deletion inside one line is the range deletion |
| LineEdits.DeleteAcrossIsRange | src/cursor.js:29-47 | when the first line is cut at its own length, the cross-line deletion is the range deletion |
| LineEdits.DeleteAcrossShortLen | src/cursor.js:31-32 | when the first line is cut short of its end, the characters after the cut survive (Finding 6) |
| Motion.EndsAreFixed | src/cursor.js:140-142 | left at (0, 0) and right at the end of the last line do not move |
| Motion.RightThenLeft | src/cursor.js:135-181 | one step right goes to the start of the next line from the end of a line, and one column on otherwise; one step left undoes it |
| Motion.LeftThenRight | src/cursor.js:159-181 | one step left goes to the end of the previous line from column 0, and one column back otherwise; one step right undoes it |
| Motion.DownTargetStep | src/cursor.js:111-129 | away from the last line, `moveDown` moves `n` rows down, capped at the last row |
| Motion.UpTargetStep | src/cursor.js:86-101 | away from the first line, `moveUp` moves `n` rows up, stopping at row 0 |
| Motion.EveryRowIsASegmentRow | src/buffer.js:222-265 | every screen row is the row of the segment it is located to |
| Motion.ScreenTargetLands | src/cursor.js:81-131 | a vertical move lands on the target row's line, inside the document, at the column capped to the row's width |
| Motion.LandInsideSegment | src/cursor.js:81-131 | a landing column inside the segment shows on that row at the same offset |
| Motion.LandOnNextRow | src/cursor.js:81-131 | a landing column at the end of a segment that has a successor shows at the start of the next row |
| Motion.RowStartIsSegmentStart | src/cursor.js:193-199 | the start of the row is the start of the segment holding the column, on the same line |
| Motion.RowEndIsSegmentEnd | src/cursor.js:202-209 | with well-formed breaks, the end of the row is the next break or the end of the line |
| Motion.JoinedOffsetRoundTrip | src/cursor.js:215-282 | offsets in the two-line text and positions on its two lines correspond one to one |
| Motion.WordStartAsksOneLeft | src/cursor.js:222-228 | as written, the backward word move hands the oracle one less than the cursor's own offset (Finding 5) |
| Motion.WordStartSkipsAWord | src/cursor.js:215-245 | as written, on "ab\nc d" from (1, 1) the move goes to (0, 0) instead of (1, 0) (Finding 5) |
| Motion.WordStartFollowsOracle | src/cursor.js:229-234 | the corrected backward word move asks about the cursor's own offset and lands on the position of the oracle's answer, on this line or the previous one |
| Motion.WordEndFollowsOracle | src/cursor.js:247-282 | the forward word move asks about the cursor's own offset and lands on the position of the oracle's answer: past the line's length on the next line, else on this line |
| Cursors.GetLastLineNumber | src/utils.js:505-508 | the number of the last line |
| Cursors.GetLastScreenLineNumber | src/utils.js:510-513 | the number of the last screen row |
| Cursors.GetLastLine | src/utils.js:515-518 | the text of the last line; none for an empty buffer |
| Cursors.GetLastLineLastColumn | src/utils.js:525-527 | the end of the document |
| Cursors.SelectionDeletedFixedIsRange | src/cursor.js:20-50 | the corrected deletion takes out exactly the selected range |
| Cursors.UnwrappedSelectionDeleted | src/cursor.js:29-47 | without wrapped lines the as-written deletion is the corrected one |
| Cursors.SelectionDeletedMeasuresScreenRow | src/cursor.js:31 | on ["abcdef", "gh"] wrapped after "abc", the as-written deletion leaves "adefh", where the corrected one leaves "ah" (Finding 6) |
| Cursors.DeleteAcrossLines | src/cursor.js:29-47 | the lines become `DeleteAcross` of them, and a wrapped buffer stays wrapped |
| Cursors.RemoveLines | src/cursor.js:36-41 | the loop removes the `count` lines from `x` on |
| Cursors.UpPoint | src/cursor.js:81-103 | the landing point is `UpTarget` |
| Cursors.DownPoint | src/cursor.js:106-131 | the landing point is `DownTarget` |
| Cursors.Cursor.constructor | src/cursor.js:10-14 | a collapsed selection at the given point, or at (0, 0) |
| Cursors.Cursor.MoveTo | src/cursor.js:61-75 | the focus goes to the point, the anchor too unless selecting |
| Cursors.Cursor.MoveToPoint | src/cursor.js:57-59 | the same as `moveTo` at the point |
| Cursors.Cursor.MoveWithSelect | src/cursor.js:77-79 | the same as `moveTo` at the point |
| Cursors.Cursor.MoveSelection | src/cursor.js:52-55 | the selection ends with exactly the given anchor and focus |
| Cursors.Cursor.MoveUp | src/cursor.js:81-103 | the focus lands on `UpTarget`: (0, 0) from the first line, else `n` rows up at the capped column |
| Cursors.Cursor.MoveDown | src/cursor.js:106-131 | the focus lands on `DownTarget`: the end of the document from the last line, else `n` rows down at the capped column |
| Cursors.Cursor.MoveRight | src/cursor.js:135-157 | a selection that is not being extended collapses to its end; otherwise the focus goes to `RightTarget` |
| Cursors.Cursor.MoveLeft | src/cursor.js:159-181 | a selection that is not being extended collapses to its start; otherwise the focus goes to `LeftTarget` |
| Cursors.Cursor.MoveToTop | src/cursor.js:183-186 | to (0, 0) |
| Cursors.Cursor.MoveToBottom | src/cursor.js:188-191 | to the end of the last line |
| Cursors.Cursor.MoveToStartOfLine | src/cursor.js:193-199 | to the start of the cursor's screen row |
| Cursors.Cursor.MoveToEndOfLine | src/cursor.js:202-209 | to the end of the cursor's screen row |
| Cursors.Cursor.StartOfNextLine | src/cursor.js:211-213 | collapsed at column 0 of the next line |
| Cursors.Cursor.MoveToStartOfWord | src/cursor.js:215-245 | to the corrected backward word target (Finding 5) |
| Cursors.Cursor.MoveToEndOfWord | src/cursor.js:247-282 | to the forward word target |
| Cursors.Cursor.MoveToStartOfParagraph | src/cursor.js:284-286 | to column 0 of the line |
| Cursors.Cursor.MoveToEndOfParagraph | src/cursor.js:288-293 | to the end of the line |
| Cursors.Cursor.SelectWord | src/cursor.js:295-298 | the anchor is at the word's start and the focus at the forward word target from there |
| Cursors.Cursor.SelectParagraph | src/cursor.js:300-303 | the anchor is at (l, 0) and the focus at (l, length of line l) |
| Cursors.Cursor.DeleteSelection | src/cursor.js:20-50 | as written: the lines become `SelectionDeleted`, the buffer stays wrapped, and the cursor collapses at the old start (Finding 6) |
| Cursors.Cursor.DeleteSelectionFixed | src/cursor.js:20-50 | the lines become `SelectionDeletedFixed`, which is the range deletion, and the cursor collapses at the old start |
| Editing.SpanAgrees | src/selection.js:43-48 | a consistent selection's start, end and collapsed flag are those of its anchor and focus |
| Editing.GetSelectionText | src/utils.js:148-177 | as written: the middle lines are read from line 0 (Finding 3) |
| Editing.GetSelectionTextFixed | src/utils.js:148-177 | the text of the selected range: the first line's tail, the lines between, and the last line's head, joined with "\n" |
| Editing.SelectionTextReadsFromTop | src/utils.js:168-170 | on ["a", "b", "c"] from (0, 0) to (2, 1) the as-written text is "a\na\nc" where "a\nb\nc" is meant (Finding 3) |
| Editing.SelectedTextIsDeletedText | src/utils.js:148-177 | the document is the text before the selection, the corrected selected text and the text after it, and deleting the range leaves exactly the text before and after |
| Editing.MergeKept | src/utils.js:277-293 | the corrected merge keeps one cursor per position seen, at indices below `n` |
| Editing.MergeKeptIsFirst | src/utils.js:283-290 | a cursor is kept exactly when no earlier cursor is at its position |
| Editing.MergeSeenIsPrefix | src/utils.js:283-290 | the positions seen are exactly those of the cursors reached |
| Editing.MergeKeepsFirstPerPosition | src/utils.js:277-293 | the corrected merge keeps the first cursor at each position, in order: positions pairwise different, every position still held, and the main cursor first |
| Editing.MergeAsWrittenWithOneDrop | src/utils.js:277-293 | while at most one cursor is dropped, the as-written merge is the corrected one |
| Editing.MergeDriftKeepsDuplicate | src/utils.js:285 | as written, three cursors at one position leave two (Finding 4) |
| Editing.EditPass | src/utils.js:29-44 | a pass over the first `n` cursors computes one span per cursor it reaches, and all `n` of them when none fails |
| Editing.PassStops | src/utils.js:79-85 | once a cursor fails, the pass stays where it stopped |
| Editing.TypingAtCaret | src/utils.js:79-85 | typing at a collapsed cursor splices the text in at the cursor and advances the cursor by its length |
| Editing.BackspaceAtCaret | src/utils.js:126-145 | inside a line, backspace removes exactly the character before the cursor and moves it left by one; at column 0 it joins the line to the previous one |
| Editing.TypeThenBackspace | src/utils.js:76-145 | typing one character and then a backspace restore the lines and the cursor |
| Editing.NewlineThenBackspace | src/utils.js:126-188 | a newline and then a backspace restore the lines and the cursor |
| Editing.LineStartDeletedKeepsRest | src/utils.js:96-100 | deleting to the start of the line keeps the text after the cursor, with the cursor in front of it |
| Editing.SwapKeepsCaretOnItsLine | src/utils.js:30-35 | a collapsed cursor moved by one line stays on its own text, and the lines are permuted |
| Editing.SwapKeepsSelectionOnItsBlock | src/utils.js:36-43 | with the edge check on the whole block, a selection keeps covering its block, or nothing changes |
| Editing.SwapAtTopAsWritten | src/utils.js:36-43 | as written, moving a selection of lines 0-1 up breaks the block and puts the selection on line -1 (Finding 2) |
| Editing.LaterCaretsAreNotShifted | src/utils.js:79-85 | later cursors are not shifted by earlier edits on the same line |
| Editing.LineStartCursorLandsMidText | src/utils.js:96-100 | as written, the cursor lands at the start of its wrapped row, inside the remaining text, where column 0 is meant (Finding 7) |
| Editing.RemoveLine | src/utils.js:190-194 | nothing happens at line 0; otherwise the lines become `SplitUpLines` |
| Editing.TypeAt | src/utils.js:79-85 | one cursor's step of `insertText`, as `Typed` says |
| Editing.BackspaceAt | src/utils.js:129-144 | one cursor's step of `backspace`, as `Backspaced` says |
| Editing.DeleteToStartOfLineAt | src/utils.js:90-101 | as written: the lines as `LineStartDeleted` says, and the cursor at the start of its rewrapped row (Finding 7) |
| Editing.DeleteToStartOfLineAtFixed | src/utils.js:90-101 | the lines and the cursor as `LineStartDeleted` says |
| Editing.NewlineAt | src/utils.js:183-187 | one cursor's step of `newline`, as `NewlineSplit` says |
| Editing.SwapCursorLines | src/utils.js:29-44 | as written: one cursor's step of `swapLine`, as `SwappedAsWritten` says (Finding 2) |
| Editing.SwapCaretLine | src/utils.js:30-35 | a collapsed cursor's line moves, and the cursor follows when the buffer reports a move, as `SwappedAsWritten` says |
| Editing.SwapCursorLinesFixed | src/utils.js:29-44 | one cursor's step with the edge check on the whole selection, as `Swapped` says |
| Editing.EditAt | src/utils.js:29-188 | the step is done exactly when the cursor is on the document, and then the lines and the cursor are as `Edited` says (the as-written `swapLine` step); otherwise nothing changes |
| Editing.MoveCursor | src/utils.js:198-275 | one cursor's motion lands where `Landing` says |
| Editing.FirstPerPosition | src/utils.js:283-290 | the loop keeps the cursors the corrected merge picks |
| Editing.Editor.constructor | src/index.js:359-369 | a valid editor on the buffer with one cursor at (0, 0) |
| Editing.Editor.EditEach | src/utils.js:23-188 | the buffer and the cursors end where `EditPass` leaves them |
| Editing.Editor.RunPass | src/utils.js:79-85 | the loop handles cursors in order until one fails |
| Editing.Editor.MoveEach | src/utils.js:249-275 | every cursor lands where `Landing` says |
| Editing.Editor.MoveEachAndMerge | src/utils.js:198-228 | every cursor lands where `Landing` says, and then the corrected merge of the landed positions is kept |
| Editing.Editor.MergeCursors | src/utils.js:277-293 | as written: the cursors become `MergeAsWritten` of them (Finding 4); the editor stays valid, its selections and the buffer are unchanged, and so are the cursors' spans |
| Editing.MergeAsWrittenPicks | src/utils.js:277-293 | the as-written merge only drops cursors: what stays is the list picked at rising indices |
| Editing.MergeAsWrittenKeepsMain | src/utils.js:283-290 | the as-written merge keeps the main cursor first |
| Editing.MergeIndicesRising | src/utils.js:283-290 | run over the indices of a list, the as-written merge leaves rising indices within the list |
| Editing.Editor.MergeCursorsFixed | src/utils.js:277-293 | the cursors become the first cursor at each position, in order, and the editor stays valid |
| Editing.Editor.FlattenToOneCursor | src/utils.js:295-297 | only the main cursor stays |
| Editing.Editor.MoveToTop | src/utils.js:230-234 | one cursor, moved to (0, 0) |
| Editing.Editor.MoveToBottom | src/utils.js:236-240 | one cursor, moved to the end of the document |
| Editing.Editor.SelectAll | src/utils.js:242-247 | one cursor, selecting from (0, 0) to the end of the document |

## Left out

- `getLineBreak` (src/measure.js) is a parameter. Canvas measurement and floating-point widths are not part of this model.
- The word-boundary oracle (src/textarea.js) is an uninterpreted parameter. Only how its answer is turned back into a position is modelled.
- Drawing, pixel coordinates, `pointToXY`, `Cursor.drawing` and the random `genId` are not part of this model. The same goes for scrolling, the scrollbar, `xToColumn`/`yToLine`, `copy`/`cut` (clipboard), `delay`, `sleep`, `preventDefault` and `removeAllChildren`.
- `loadBrowserFile` (streams, TextDecoder) is not modelled. `wrapAllLineBuffers` is not modelled either: it schedules on `requestAnimationFrame`. Its synchronous twin `wrapAllLineBuffersSync` is modelled.
- `Buffer.toString` is not modelled: it iterates a `LineBuffer` with `for..of`, and `LineBuffer` defines no iterator.
- `deleteToStartOfWord` is not modelled. It composes the word oracle, `moveWithSelect` and `deleteSelection`, which are modelled one by one.
- `getLastScreenLine` and `getLastScreenLineLastColumn` are not modelled separately. They compose `GetScreenLineContent` with `GetLastScreenLineNumber`.
- `getMainCursor` is not modelled. It is `cursors[0]`, which `Valid()` guarantees to exist.
- The `change == null` early return of `swapLine` is not modelled: `change` is an `int`.
- Steps on a cursor off the document are not modelled. The source has no check for a line below 0 or past the last, and the as-written `swapLine` can put a selection on line -1. There, some steps throw part-way, after changing the buffer or the cursor. Others act on the negative index as `Array.prototype.splice` does. The model instead leaves everything unchanged and stops the pass with `ok == false` (`Guard`). Single-cursor methods require the lines they read.
- Characters are Dafny `char`s, which are Unicode scalar values. The source's columns and lengths count UTF-16 code units, so a character outside the Basic Multilingual Plane counts 2 there and 1 here. A column between the two halves of a surrogate pair cannot be expressed.
- Object identity of points is not modelled. `Point` and `Selection` positions are values, so `Point.from` returns the value itself.
- Cursors.Cursor.MoveUp: requires a line count of at least 0. With a negative count the source's target row can pass the last row, and the lookup then fails. The editor always passes 1 (src/index.js:53).
- Cursors.Cursor.MoveDown: requires a line count of at least 0, for the same reason (src/index.js:63).
- Editing.Editor.MoveEachAndMerge: merges with the corrected merge. `MergeAsWrittenWithOneDrop` proves the as-written merge agrees whenever at most one cursor is dropped.
- Cursors.Cursor.MoveToStartOfWord: lands on the corrected target. The as-written target is the function `WordStartTarget`, compared in Finding 5.
- Editing.Editor.EditEach: an editing function applies each cursor's step against the lines the earlier steps left. The spans of later cursors are not shifted by earlier edits, as in the source (`LaterCaretsAreNotShifted`). The steps of `insertText` and `backspace` delete a selection with the corrected deletion (Finding 6). The step of `newline` rewraps the split line (Finding 1). The step of `swapLine` is as written (Finding 2). The step of `deleteToStartOfLine` leaves the cursor at column 0 (Finding 7). The source puts it at the start of its screen row in the rewrapped line, which depends on the row breaks, and a pass tracks only the lines.
- Editing.EditAt: dispatches `deleteToStartOfLine` to the corrected `DeleteToStartOfLineAtFixed`. The as-written `DeleteToStartOfLineAt` is modelled on its own. When the cursor is off the document, the model promises that nothing changes, where the source may change state and then throw (see the first lines of this section).
- Buffers.Buffer.RemoveLine: requires `0 <= index`. The source's `removeLine(-1)` finds chunk 0 at index -1, and `splice(-1, 1)` then removes that chunk's last line.
- Buffers.Buffer.SwapLine: requires `0 <= index`. The source's `swapLine(-1, -1)` passes the edge check, removes a line as `removeLine(-1)` does and inserts it at line 0.
- Buffers.Buffer.Delete: the breaks of the edited line are not touched, as in the source. Callers that rewrap afterwards (`DeleteAndRewrap`) state the wrapped invariant.
- Cursors.Cursor.DeleteSelection: requires the selection's lines to exist and its derived fields to be consistent.

## Findings

| source | as written | input that shows it | evidently intended | confidence | as-written member | corrected member |
|---|---|---|---|---|---|---|
| src/buffer.js:392-401 | `splitDown` shortens line `l` without rewrapping it, so it keeps the breaks of its longer text | a wrap function breaking after the third character; splitting "abcdef" at 2 leaves "ab" with the break [3] | the shortened line is rewrapped, so a wrapped buffer stays wrapped | not executed | Buffers.SplitDownLeavesStaleBreaks | Buffers.Buffer.SplitDownRewrapped |
| src/buffer.js:352-373 | `swapLines` checks the edge line by line, so a block touching the top (or bottom) is broken apart, and the selection moves off the document | ["a", "b", "c"] with lines 0-1 selected, moved up: the lines become ["b", "a", "c"] and the selection goes to line -1 | nothing moves when the block is at the edge | not executed | Editing.SwapAtTopAsWritten | Editing.SwapKeepsSelectionOnItsBlock |
| src/utils.js:168-170 | the lines between the first and the last are read as `getLineContent(i)`, from line 0 | ["a", "b", "c"] selected from (0, 0) to (2, 1) gives "a\na\nc" | lines `start.line + 1 + i`, giving "a\nb\nc" | not executed | Editing.SelectionTextReadsFromTop | Editing.SelectedTextIsDeletedText |
| src/utils.js:285 | `newCursors.splice(i, 1)` uses the index in the original list, which drifts after the first removal | three cursors at (0, 0) leave cursors 0 and 2 | only the first cursor at each position stays | not executed | Editing.MergeDriftKeepsDuplicate | Editing.MergeKeepsFirstPerPosition |
| src/cursor.js:222-228 | the backward word move hands the oracle `column + prevLine.length`, one less than the cursor's offset in the joined text | "ab\nc d" with the cursor at (1, 1) and an oracle answering 0 from offset 3: the cursor goes to (0, 0) | the oracle is asked at `prevLine.length + 1 + column`, and the cursor goes to (1, 0) | not executed | Motion.WordStartSkipsAWord | Motion.WordStartFollowsOracle |
| src/cursor.js:31-32 | the first line of a multi-line deletion is cut at the length of the screen row numbered like the line | ["abcdef", "gh"] with "abcdef" wrapped after "abc", selection (0, 1)-(1, 1): the result is ["adefh"] | the first line is cut at its own length, giving ["ah"] | not executed | Cursors.SelectionDeletedMeasuresScreenRow | Cursors.SelectionDeletedFixedIsRange |
| src/utils.js:96-100 | after deleting to the start of the line, the cursor moves to the start of its screen row in the rewrapped line | "abcdefghijklmnopqrst" with the cursor at 6 and breaks at 5 and 10 after the edit: the cursor lands at column 5 | the cursor is at column 0 | not executed | Editing.LineStartCursorLandsMidText | Editing.LineStartDeletedKeepsRest |
