# A verified model of the text-editor core

This project is a Dafny model of the core of the `text-editor` repository, an AI-assisted code
editor written in Rust. It covers the following parts:

- **Editor** (`crates/editor`):
  - the document, with its rope and version counter;
  - carets and selection sets;
  - the undo/redo history, with typing coalesced into the previous insertion;
  - the editing buffer, which applies multi-selection transactions;
  - every editing command of the engine: word scans, deletions, line duplication, indent, outdent, comment toggling, cursor motion, copy, cut, find and replace;
  - the integer part of the view model: the visible lines, the line cache, soft-wrap segments, selection spans, caret columns and the gutter width;
  - char/byte offset conversion, soft-wrap splitting and the default key table.
- **Syntax** (`crates/syntax`):
  - the extension-based language registry;
  - the fold of tree-sitter highlight events into byte spans;
  - the projection of those spans onto lines.
- **AI client** (`crates/ai`):
  - the framing of the Server-Sent Events stream, with events cut at blank lines;
  - the collection of `data:` payloads.
- **Workspace** (`crates/workspace`):
  - per-workspace and global settings, with recent-file and recent-workspace lists;
  - the file tree: sorting, lookup by path, flattening and the flattened explorer view;
  - the service that inserts paths into the tree, toggles directories and records the expanded ones.
- **App** (`crates/app`):
  - the UI event bridge, whose throttles let editor repaints and cursor updates through at most once per interval.

Code that changes state in place is modelled as Dafny classes, with methods that have
`modifies` clauses and loops that have invariants:

- `Document`, `History`, `Buffer` and `Engine`;
- `LanguageRegistry` and `SyntaxHighlighter`;
- `WorkspaceSettings`, `GlobalSettings` and `WorkspaceService`;
- `ThrottleState` and `EventReceiver`.

Each such method is proved equal to a specification function of the old state. The
properties are proved about those functions as lemmas. Pure code is modelled as datatypes,
functions and lemmas:

- selections, keymaps and tree nodes;
- span folds;
- SSE framing.

Some modelling choices:

- A text is its sequence of characters.
- Lines are split on '\n' only.
- `u64` version counters wrap explicitly.
- Byte offsets are those of the UTF-8 encoding.
- Paths are sequences of components.
- Clock readings, the file system's `is_dir` answer and tree-sitter's outcomes are parameters.

Where the source has an evident defect, the model keeps two members:

- a member that does what the code does, with a concrete input exhibiting the defect;
- a corrected member that the rest of the model uses.

See "## Findings".

## Model

| member | source | states |
|---|---|---|
| EditorDocument.WrappingInc | crates/editor/src/document.rs:106 | the version counter's `wrapping_add(1)`: one more below `u64::MAX`, 0 after it |
| EditorDocument.LineToChar | crates/editor/src/document.rs:81-83 | ropey's line start lies within the text |
| EditorDocument.CharToLine | crates/editor/src/document.rs:85-87 | ropey's line of an index is one of the text's lines |
| EditorDocument.LineToCharCounts | crates/editor/src/document.rs:81-83 | line `l` starts right after the `l`-th newline: the text before it holds exactly `l` newlines |
| EditorDocument.LineShape | crates/editor/src/document.rs:51-58 | a line runs from its start to the next line's start; every line but the last ends in its only newline, and the last has none and ends at the text's end |
| EditorDocument.LastLineEnd | crates/editor/src/document.rs:55-58 | the start of line `len_lines` is the text length |
| EditorDocument.LineStartIsFirst | crates/editor/src/document.rs:81-87 | a line start is the first index whose prefix holds that many newlines |
| EditorDocument.LineContains | crates/editor/src/document.rs:85-96 | the line picked for an index is the one whose range holds it |
| EditorDocument.LineText | crates/editor/src/document.rs:40-49 | the line without its newline, "" past the last line; it holds no newline, and with its newline it is the line's range of the text |
| EditorDocument.CharToLineCol | crates/editor/src/document.rs:89-96 | the line holds the index and the column is the distance from the line start |
| EditorDocument.LineColToChar | crates/editor/src/document.rs:98-102 | the index lies between the line's start and the next line's start (the column is clamped) |
| EditorDocument.CharLineColRoundTrip | crates/editor/src/document.rs:89-102 | index to (line, column) and back gives the index |
| EditorDocument.LineColCharRoundTrip | crates/editor/src/document.rs:89-102 | (line, column) to index and back gives the same pair for a column inside the line's text |
| EditorDocument.Slice | crates/editor/src/document.rs:72-79 | both bounds clamped to the length; an empty or inverted clamped range gives "", otherwise the characters between them |
| EditorDocument.Replaced | crates/editor/src/document.rs:117-127 | the text before the clamped start, the insertion, and the text from the clamped end on |
| EditorDocument.ReplacedInverse | crates/editor/src/document.rs:117-127 | replacing the inserted text by the removed text restores the original |
| EditorDocument.Document.constructor | crates/editor/src/document.rs:17-22 | the given text at version 0 |
| EditorDocument.Document.Snapshot | crates/editor/src/document.rs:60-65 | the snapshot holds the text and the version |
| EditorDocument.Document.Restore | crates/editor/src/document.rs:67-70 | text and version become the snapshot's |
| EditorDocument.Document.Insert | crates/editor/src/document.rs:104-107 | the text with the insertion at the index, and the version moved on |
| EditorDocument.Document.DeleteRange | crates/editor/src/document.rs:109-115 | an empty or inverted range changes nothing, not even the version; otherwise the range is removed and the version moves on |
| EditorDocument.Document.ReplaceRange | crates/editor/src/document.rs:117-127 | the text becomes `Replaced` of the old text and the version always moves on |
| EditorSelection.Selection.Range | crates/editor/src/selection.rs:23-29 | the two ends in increasing order; they are equal exactly for a caret |
| EditorSelection.Selection.Start | crates/editor/src/selection.rs:23-29 | the smaller end |
| EditorSelection.Selection.End | crates/editor/src/selection.rs:23-29 | the larger end |
| EditorSelection.SelectionSet.AllIncludingPrimary | crates/editor/src/selection.rs:52-57 | the primary first, then the secondaries in order |
| EditorSelection.SelectionSet.SetSingleCaret | crates/editor/src/selection.rs:59-65 | a single caret at the index and no secondary |
| EditorSelection.DefaultSet | crates/editor/src/selection.rs:38-45 | a single caret at 0 |
| EditorHistory.PushedUndo | crates/editor/src/history.rs:51-75 | without coalescing the transaction is pushed on top; with coalescing the stack keeps its size and its top insertion gains the new text; the size stays the same only when coalescing |
| EditorHistory.PushKeepsBelowTop | crates/editor/src/history.rs:51-75 | a push never changes the entries below the old top |
| EditorHistory.MergedEditAgrees | crates/editor/src/history.rs:59-64 | the coalesced insertion does in one step what the two insertions did one after the other |
| EditorHistory.History.constructor | crates/editor/src/history.rs:32-36 | both stacks empty |
| EditorHistory.History.CanUndo | crates/editor/src/history.rs:39-41 | true exactly when the undo stack is not empty |
| EditorHistory.History.CanRedo | crates/editor/src/history.rs:43-45 | true exactly when the redo stack is not empty |
| EditorHistory.History.ClearRedo | crates/editor/src/history.rs:47-49 | only the redo stack is emptied |
| EditorHistory.History.Push | crates/editor/src/history.rs:51-75 | the undo stack becomes `PushedUndo` and the redo stack is emptied on both paths |
| EditorHistory.ApplyInverse | crates/editor/src/buffer.rs:159-164 | an edit whose deleted text is what the text holds at its start is undone exactly by its inverse |
| EditorSelection.FromList | crates/editor/src/buffer.rs:72-90 | an empty list gives the default set; otherwise the first selection is the primary and the rest, in order, the secondaries |
| EditorBuffer.SortDesc | crates/editor/src/buffer.rs:67 | the stable sort by descending start: same length, sorted, and a permutation of the edits |
| EditorBuffer.SortDescOfSorted | crates/editor/src/buffer.rs:67 | edits already in descending order are left as they are |
| EditorBuffer.Inverses | crates/editor/src/buffer.rs:159 | the inverse of each edit, in order |
| EditorBuffer.UndoAfterReplay | crates/editor/src/buffer.rs:155-168 | replaying the inverses last edit first restores the text of an exact replay |
| EditorBuffer.StackedReplaysExactly | crates/editor/src/buffer.rs:67-71 | edits recorded against one text and applied from the highest start down each find their deleted text in place |
| EditorBuffer.EditOf | crates/editor/src/buffer.rs:54-61 | the edit for one selection starts at its start, deletes the selected text and inserts the typed text |
| EditorBuffer.EditsOf | crates/editor/src/buffer.rs:51-63 | one edit per selection, in the order of the selections |
| EditorBuffer.EditsOfRanges | crates/editor/src/buffer.rs:126-137 | one edit per range, in the order of the ranges |
| EditorBuffer.MinStartLine | crates/editor/src/buffer.rs:49-55 | no selection starts on a line before it |
| EditorBuffer.MaxEndLine | crates/editor/src/buffer.rs:50-56 | no selection ends on a line after it |
| EditorBuffer.LineBoundsAttained | crates/editor/src/buffer.rs:49-56 | each bound is the line of some selection, or still its initial value |
| EditorBuffer.MinRangeStartLine | crates/editor/src/buffer.rs:124-129 | no range starts on a line before it |
| EditorBuffer.MaxRangeEndLine | crates/editor/src/buffer.rs:125-130 | no range ends on a line after it |
| EditorBuffer.ImpactOf | crates/editor/src/buffer.rs:103-112 | no impact exactly when no start line was seen; otherwise the start line and the end line plus the extra lines, saturating |
| EditorBuffer.KindOf | crates/editor/src/buffer.rs:91-97 | Delete exactly when nothing is inserted, Insert exactly when text is typed at carets only, Replace otherwise |
| EditorBuffer.NoOpIffCarets | crates/editor/src/buffer.rs:64-66 | every recorded edit is empty exactly when nothing is inserted and every selection is a caret |
| EditorBuffer.BumpN | crates/editor/src/buffer.rs:68-71 | after `n` replaces the version has moved on by `n` (below `u64::MAX`) |
| EditorBuffer.TwoCaretUndoAsWritten | crates/editor/src/buffer.rs:155-168 | as written, undoing two carets' "X" in "XaXb" gives "Xb" |
| EditorBuffer.TwoCaretUndo | crates/editor/src/buffer.rs:155-168 | the corrected undo of the same transaction gives "ab" |
| EditorBuffer.UndoAsWrittenCorrupts | crates/editor/src/buffer.rs:155-168 | typing "X" at carets 0 and 1 of "ab" gives "XaXb", which the as-written undo turns into "Xb" and the corrected one back into "ab" |
| EditorBuffer.UndoAsWrittenSingleEdit | crates/editor/src/buffer.rs:155-168 | on a one-edit transaction both undos agree |
| EditorBuffer.SortedApartStacked | crates/editor/src/buffer.rs:67-71 | edits over disjoint ranges, sorted by descending start, do not disturb each other |
| EditorBuffer.EditsOfRecord | crates/editor/src/buffer.rs:51-63 | for selections inside the text each recorded edit deletes exactly the selected text |
| EditorBuffer.EditsOfApart | crates/editor/src/buffer.rs:51-63 | disjoint selections give edits over disjoint ranges |
| EditorBuffer.UndoRestoresText | crates/editor/src/buffer.rs:155-168 | with disjoint selections, the corrected undo of the typing transaction restores the text from before |
| EditorBuffer.SingleEditUndoRedo | crates/editor/src/buffer.rs:155-183 | for one recorded edit, undo restores the text, redo re-applies the edit, and the length moves by inserted minus deleted |
| EditorBuffer.TypedNoOp | crates/editor/src/buffer.rs:64-66 | typing changes nothing at all (text, version, selections, history, impact) exactly when nothing is inserted and every selection is a caret |
| EditorBuffer.TypedCarets | crates/editor/src/buffer.rs:72-102 | otherwise the selections keep count and order, each a caret at its start plus the inserted length, and the redo stack is emptied |
| EditorBuffer.TypedSingleLength | crates/editor/src/buffer.rs:47-71 | with one selection the text length moves by the inserted minus the selected length |
| EditorBuffer.TypedThenUndone | crates/editor/src/buffer.rs:47-168 | with disjoint selections and no coalescing, undo right after typing gives back the text and the undo stack, with the typing on the redo stack |
| EditorBuffer.UndoneTop | crates/editor/src/buffer.rs:155-168 | undo pops the top transaction, applies its inverses and pushes it on the redo stack |
| EditorBuffer.RangesReplacedEffect | crates/editor/src/buffer.rs:115-153 | the given selections are taken, the transaction becomes the new top without coalescing, redo is emptied and the version moves on once per range |
| EditorBuffer.UndoneRedoneStacks | crates/editor/src/buffer.rs:155-183 | undo then redo gives both stacks back |
| EditorBuffer.CollectEdits | crates/editor/src/buffer.rs:48-63 | the mapping closure records `EditsOf` and tracks the least start line and the greatest end line |
| EditorBuffer.CollectRangeEdits | crates/editor/src/buffer.rs:124-137 | the mapping closure records `EditsOfRanges` and tracks the least start line and the greatest end line |
| EditorBuffer.Buffer.constructor | crates/editor/src/buffer.rs:27-34 | the text at version 0, one caret at 0, empty history, no impact |
| EditorBuffer.Buffer.Snapshot | crates/editor/src/buffer.rs:36-38 | the document's text and version |
| EditorBuffer.Buffer.Restore | crates/editor/src/buffer.rs:40-45 | the snapshot's text and version, a fresh history, one caret at 0 and no impact |
| EditorBuffer.Buffer.Replay | crates/editor/src/buffer.rs:68-71 | each edit replaces its deleted length at its start by its inserted text, in order, and the version moves on per edit |
| EditorBuffer.Buffer.ApplyTextToSelections | crates/editor/src/buffer.rs:47-113 | the new buffer state is `Typed` of the old one |
| EditorBuffer.Buffer.CommitTyping | crates/editor/src/buffer.rs:67-112 | the edits replayed from the highest start down, the selections collapsed, the transaction pushed and the impact recorded |
| EditorBuffer.Buffer.ApplyReplaceRanges | crates/editor/src/buffer.rs:115-153 | no ranges change nothing; otherwise the new state is `RangesReplaced` of the old one |
| EditorBuffer.Buffer.Undo | crates/editor/src/buffer.rs:155-168 | true exactly when there was something to undo; the new state is `Undone` of the old one, using the corrected inverse order |
| EditorBuffer.Buffer.Redo | crates/editor/src/buffer.rs:170-183 | true exactly when there was something to redo; the top redo transaction is re-sorted, replayed forward and moved back to the undo stack |
| EditorSearch.CharToByteIdx | crates/editor/src/search.rs:23-32 | the byte offset of the character numbered `char_idx`, or the byte length when there are not that many |
| EditorSearch.ByteOffsetProperties | crates/editor/src/search.rs:23-32 | character 0 is at byte 0, every offset is a character boundary inside the string, and offsets grow with the character index |
| EditorSearch.CharsWithin | crates/editor/src/search.rs:19-21 | the longest prefix whose encoding fits in the given number of bytes |
| EditorSearch.ByteToCharIdx | crates/editor/src/search.rs:19-21 | the character count of the string cut at the clamped byte index, which must be a character boundary |
| EditorSearch.CharByteRoundTrip | crates/editor/src/search.rs:19-32 | character index to byte index and back gives the character index, clamped to the character count |
| EditorLayout.PiecesConcat | crates/editor/src/layout.rs:80-96 | the pieces put back together give the text |
| EditorLayout.PiecesAt | crates/editor/src/layout.rs:84-95 | piece `i` is the slice of the text at column `i` widths; every piece but the last is full, the last is at most full and empty only for an empty text, and it ends at the end of the text |
| EditorLayout.ColumnIsProduct | crates/editor/src/engine.rs:140 | a segment's column, counted one width at a time, is `segment_idx * width_cols` |
| EditorLayout.SplitByCols | crates/editor/src/layout.rs:80-96 | the text itself for a zero width, otherwise its pieces of `width` characters |
| EditorKeymap.Resolve | crates/editor/src/keymap.rs:147-149 | the action bound to the chord, and nothing exactly when the chord is unbound |
| EditorKeymap.EmptyKeymapResolvesNothing | crates/editor/src/keymap.rs:64-67 | the derived default keymap resolves nothing |
| EditorKeymap.WithDefaults | crates/editor/src/keymap.rs:70-145 | exactly the eighteen default chords are bound, each to its action |
| EditorCommands.SkipSpaceLeft | crates/editor/src/engine.rs:543-545 | steps back over whitespace only, stopping at 0 or at a non-whitespace character |
| EditorCommands.WordRunLeft | crates/editor/src/engine.rs:546-548 | steps back only while this character and the one before are both word characters |
| EditorCommands.SkipSpaceRight | crates/editor/src/engine.rs:555-557 | steps over whitespace only, stopping at the end or at a non-whitespace character |
| EditorCommands.WordRunRight | crates/editor/src/engine.rs:558-567 | steps over word characters only, stopping at the end or at a non-word character |
| EditorCommands.FindWordLeft | crates/editor/src/engine.rs:536-550 | 0 from the start; otherwise strictly before the clamped index |
| EditorCommands.FindWordRight | crates/editor/src/engine.rs:552-569 | between the clamped index and the end of the text |
| EditorCommands.WordLeftShape | crates/editor/src/engine.rs:536-550 | everything between the result and the clamped index, apart from the result's own word, is whitespace |
| EditorCommands.WordRightStuckOnPunctuation | crates/editor/src/engine.rs:552-569 | from a punctuation character the word-right move does not move |
| EditorCommands.FindFrom | crates/editor/src/engine.rs:217-221 | the first occurrence at or after the start, and none exactly when there is no such occurrence |
| EditorCommands.RFindBefore | crates/editor/src/engine.rs:226-229 | the last occurrence that ends by the bound, and none exactly when there is no such occurrence |
| EditorCommands.Haystack | crates/editor/src/engine.rs:210-215 | the text, lowered unless the search is case sensitive, of the same length |
| EditorCommands.Needle | crates/editor/src/engine.rs:210-215 | the needle, lowered unless the search is case sensitive, of the same length |
| EditorCommands.FindNext | crates/editor/src/engine.rs:201-235 | none for an empty needle; forward, the first occurrence starting at or after the clamped index; backward, the last one ending by it, with no later occurrence ending by it; none iff there is no such occurrence; a match spans the needle's length |
| EditorCommands.GreedyMatchesOccur | crates/editor/src/engine.rs:258-266 | the collected matches are occurrences starting at or after the cursor |
| EditorCommands.GreedyMatchesOrdered | crates/editor/src/engine.rs:258-266 | the collected matches are in increasing order and do not overlap |
| EditorCommands.GreedyMatchesCover | crates/editor/src/engine.rs:258-266 | every occurrence at or after the cursor is collected or overlaps a collected one |
| EditorCommands.TypedText | crates/editor/src/buffer.rs:47-74 | typing replays the recorded edits from the highest start down |
| EditorCommands.TypedOneSelection | crates/editor/src/buffer.rs:47-74 | typing over one selection replaces exactly the selected characters |
| EditorCommands.BackspaceTarget | crates/editor/src/engine.rs:324-331 | a caret becomes the character before it, or stays a caret at 0 (after clamping to the text) |
| EditorCommands.BackspaceAtStart | crates/editor/src/engine.rs:316-340 | backspace with one caret at 0 changes nothing |
| EditorCommands.BackspaceRemovesOne | crates/editor/src/engine.rs:316-340 | backspace with one caret inside the text removes exactly the character before it |
| EditorCommands.BackspaceCaret | crates/editor/src/engine.rs:316-340 | it leaves one caret at the start of the removed character |
| EditorCommands.DeleteForwardTarget | crates/editor/src/engine.rs:420-427 | a caret becomes the character after it, or stays a caret at the end (after clamping) |
| EditorCommands.DeleteForwardAtEnd | crates/editor/src/engine.rs:412-436 | delete at the end of the text with one caret changes nothing |
| EditorCommands.DeleteForwardRemovesOne | crates/editor/src/engine.rs:412-436 | delete with one caret before the end removes exactly the character after it |
| EditorCommands.DeleteForwardCaret | crates/editor/src/engine.rs:412-436 | it leaves one caret where it was |
| EditorCommands.CopyTextLength | crates/editor/src/engine.rs:291-305 | the copied text holds every selected character and one newline between each two selections |
| EditorCommands.CopyOneSelection | crates/editor/src/engine.rs:291-305 | with one selection, copy returns exactly the selected characters |
| EditorCommands.CutThenUndo | crates/editor/src/engine.rs:307-314 | cutting one selection returns the selected text, and undo then restores the text |
| EditorCommands.RangesReplacedOne | crates/editor/src/buffer.rs:115-153 | replacing one range inside the text replaces exactly those characters |
| EditorCommands.WordBackRanges | crates/editor/src/engine.rs:349-356 | one deletion per caret where the word-left move moves, from its landing place to the caret |
| EditorCommands.WordForwardRanges | crates/editor/src/engine.rs:372-379 | one deletion per caret where the word-right move moves, from the caret to its landing place |
| EditorCommands.DeleteWordBackwardOne | crates/editor/src/engine.rs:342-363 | with one caret, the characters from the word-left landing place up to the caret are removed, nothing when it does not move |
| EditorCommands.DeleteWordForwardOne | crates/editor/src/engine.rs:365-386 | with one caret, the characters from the caret up to the word-right landing place are removed |
| EditorCommands.SortedUnique | crates/editor/src/engine.rs:394-395 | `sort_unstable` then `dedup`: the distinct values, strictly increasing |
| EditorCommands.TouchedLines | crates/editor/src/engine.rs:572-578 | the lines of each selection's start and end, in selection order |
| EditorCommands.LineDeleteRanges | crates/editor/src/engine.rs:396-403 | from the last line down, each non-empty line with its newline becomes a deletion inside the text |
| EditorCommands.DeleteLineOne | crates/editor/src/engine.rs:388-410 | with one caret, its line and the line's newline are removed |
| EditorCommands.TrimTrailingNewlines | crates/editor/src/engine.rs:511-512 | every trailing newline removed and nothing else |
| EditorCommands.LineDuplicateRanges | crates/editor/src/engine.rs:506-518 | one replacement per line, from the last line down, inside the text |
| EditorCommands.DuplicatedChunkOfLine | crates/editor/src/engine.rs:510-516 | the duplicate of a line is its text, a newline and the line's own characters |
| EditorCommands.DuplicateLineText | crates/editor/src/engine.rs:506-518 | duplicating line `l` inserts the line's text and a newline at the line's start |
| EditorCommands.DuplicateLineOne | crates/editor/src/engine.rs:498-525 | with one caret, a copy of its line and a newline go in at the line's start and the caret stays |
| EditorCommands.HasPrefixAtMeaning | crates/editor/src/engine.rs:585-586 | the clamped slice equals the prefix exactly when the prefix occurs there |
| EditorCommands.PrefixRanges | crates/editor/src/engine.rs:581-592 | from the last line down: in remove mode the prefix of each line that has it, otherwise an insertion of the prefix at each line start |
| EditorCommands.PrefixRangesRemoveAll | crates/editor/src/engine.rs:581-592 | when every line has the prefix, remove mode edits every line |
| EditorCommands.PrefixRangesRemoveNone | crates/editor/src/engine.rs:581-595 | when no line has the prefix, remove mode collects nothing |
| EditorCommands.ToggleRemovesIffAllHavePrefix | crates/editor/src/engine.rs:604-630 | toggling edits every touched line, and removes the prefix exactly when every touched line starts with it |
| EditorCommands.RemoveWithoutPrefixNoOp | crates/editor/src/engine.rs:593-595 | remove mode with no prefixed line changes nothing |
| EditorCommands.ColumnOnLine | crates/editor/src/document.rs:98-102 | the index at a column of a line stays on that line, the column clamped to the line's text |
| EditorCommands.VerticalMove | crates/editor/src/engine.rs:465-472 | the corrected up or down move lands on the adjacent line, or stays on the first or last line (both corrections are listed under Findings) |
| EditorCommands.VerticalMoveKeepsColumn | crates/editor/src/engine.rs:465-472 | a vertical move keeps the column when the target line is long enough |
| EditorCommands.DownAsWrittenSkipsLine | crates/editor/src/engine.rs:469-472 | as written, down from column 4 of "abcdef" over "ab" lands at the start of the line after "ab"; the corrected move lands at the end of "ab" |
| EditorCommands.UpAsWrittenStaysOnLine | crates/editor/src/engine.rs:465-468 | as written, up from column 4 of "abcdef" under "ab" lands at the start of its own line; the corrected move lands at the end of "ab" |
| EditorCommands.LineEndMove | crates/editor/src/engine.rs:459-462 | the corrected line-end move stays on the line and lands before its newline or at the text's end |
| EditorCommands.LineEndAsWrittenLeavesLine | crates/editor/src/engine.rs:459-462 | as written, End on "ab" above "abcdef" moves to the start of the next line |
| EditorCommands.LineEndExample | crates/editor/src/engine.rs:459-462 | the corrected move stops after "ab" |
| EditorCommands.MovedHead | crates/editor/src/engine.rs:452-473 | no move leaves the text unless it started past it; line end stays on the base's line; up and down land on the adjacent line, clamped to the first and last line (the corrected moves listed under Findings) |
| EditorCommands.MovedHeadSaturates | crates/editor/src/engine.rs:453-454 | Left stops at 0 and Right at the end of the text; otherwise each moves by one |
| EditorCommands.LineStartMove | crates/editor/src/engine.rs:455-458 | line start lands at the start of the line holding the base |
| EditorCommands.MovedSelection | crates/editor/src/engine.rs:444-478 | extending keeps the anchor, otherwise the selection becomes a caret, at the moved head |
| EditorCommands.MovedShape | crates/editor/src/engine.rs:438-488 | a move keeps the number and order of the selections and touches nothing but them |
| EditorCommands.MovedStaysInText | crates/editor/src/engine.rs:438-488 | selections inside the text stay inside it after any move |
| EditorCommands.ReplaceRangeOne | crates/editor/src/engine.rs:237-252 | the replacement takes the place of exactly the range's characters |
| EditorCommands.ReplaceRangeCaret | crates/editor/src/engine.rs:238-242 | one caret right after the replacement |
| EditorCommands.ReplaceAllMatches | crates/editor/src/engine.rs:255-267 | none for an empty needle; otherwise occurrences from the start, in increasing order and apart |
| EditorCommands.ReplaceAllFindsIffOccurs | crates/editor/src/engine.rs:254-270 | replace-all finds something exactly when the needle is not empty and occurs |
| EditorCommands.ReplaceAllCovers | crates/editor/src/engine.rs:258-267 | every occurrence overlaps a collected match |
| EditorCommands.ReplacementRangesInText | crates/editor/src/engine.rs:271-278 | the replaced ranges lie inside the text |
| EditorCommands.ReplacedAllRanges | crates/editor/src/engine.rs:254-289 | with matches, replace-all is one multi-range replacement with a caret after the last replacement |
| EditorCommands.ColumnWithinLine | crates/editor/src/document.rs:89-96 | an index's column never passes the end of its line's text |
| EditorCommands.InsertSorted | crates/editor/src/engine.rs:394-395 | the result is strictly increasing and holds exactly `x` and the old values |
| EditorCommands.LineChunk | crates/editor/src/engine.rs:508-510 | the characters of a line, with its newline exactly when it is not the last line |
| EditorCommands.TrimLineBreak | crates/editor/src/engine.rs:511-512 | a line's text followed by its newline trims back to the line's text |
| EditorCommands.DuplicatedLastLine | crates/editor/src/engine.rs:510-516 | the duplicate of a last line without a newline is its text, a newline and its text again |
| EditorCommands.LineDeleteRangesOne | crates/editor/src/engine.rs:396-403 | for one line: the line's characters with its newline, nothing when there are none |
| EditorCommands.LineDuplicateRangesOne | crates/editor/src/engine.rs:506-518 | for one line: the replacement of its chunk by its duplicate |
| EditorCommands.SingleCaretLine | crates/editor/src/engine.rs:389-395 | a single caret gives exactly its own line |
| EditorCommands.SingleCaretSet | crates/editor/src/selection.rs:59-63 | one caret and nothing else |
| EditorCommands.OneSelectionReplay | crates/editor/src/buffer.rs:52-68 | the edit recorded for one selection in the text replaces exactly the selected characters |
| EditorBuffer.ReplayOne | crates/editor/src/buffer.rs:70-78 | replaying one edit is applying it |
| EditorCommands.PrefixRangeAt | crates/editor/src/engine.rs:583-591 | at most one range per line; in remove mode, one exactly when the line has the prefix, an insertion otherwise |
| EditorCommands.RFindAt | crates/editor/src/engine.rs:226-229 | the last occurrence at or before the start, and none exactly when there is none |
| EditorCommands.RangesReplacedText | crates/editor/src/buffer.rs:115-153 | the text after a multi-range replacement is the recorded edits replayed from the highest start down |
| EditorEngine.DecimalDigits | crates/editor/src/engine.rs:120 | the length of the line count's decimal form is at least one |
| EditorEngine.DecimalDigitsBounds | crates/editor/src/engine.rs:120 | `n` has `d` digits exactly when `10^(d-1) <= n < 10^d`, and 0 has one |
| EditorEngine.GutterWidth | crates/editor/src/engine.rs:120 | the gutter is at least four columns |
| EditorEngine.GutterWidthFits | crates/editor/src/engine.rs:120 | four columns exactly up to 999 lines, and one more than the digit count beyond |
| EditorEngine.VisibleRange | crates/editor/src/engine.rs:118-119 | the first line is clamped to the line count, the range stays inside the document and holds at most `max_lines` lines |
| EditorEngine.SpanOn | crates/editor/src/engine.rs:144-162 | a span, when there is one, is non-empty and inside the segment |
| EditorEngine.SpanOnCovers | crates/editor/src/engine.rs:144-162 | a segment column is in the span exactly when its character is selected and belongs to the line |
| EditorEngine.CaretColumn | crates/editor/src/engine.rs:163-173 | a column exactly for a caret inside the line whose column falls on the segment, end included; the column places the caret |
| EditorEngine.SegmentSpans | crates/editor/src/engine.rs:143-162 | at most one span per selection, each inside the segment |
| EditorEngine.SegmentCursors | crates/editor/src/engine.rs:163-173 | at most one caret column per selection, each inside the segment |
| EditorEngine.SegmentMarks | crates/editor/src/engine.rs:141-174 | the loop yields exactly the spans and caret columns of the segment |
| EditorEngine.LineRange | crates/editor/src/engine.rs:109 | exactly the lines from `a` up to `b` |
| EditorEngine.RemoveLines | crates/editor/src/engine.rs:109-111 | the cache without the lines `start..=end` |
| EditorEngine.Invalidated | crates/editor/src/engine.rs:103-117 | the cache only loses entries; it is kept while the version is the cached one and cleared when the line count changed or no impact is recorded |
| EditorEngine.InvalidatedDropsImpact | crates/editor/src/engine.rs:106-111 | after an edit that keeps the line count, no line of its impact inside the document stays cached, and every other line keeps its entry |
| EditorEngine.SegmentRows | crates/editor/src/engine.rs:139-196 | one row per segment, in order: row `k` shows segment `k` at column offset `k * width`, with that line's selection spans and caret columns on it |
| EditorEngine.SegmentRow | crates/editor/src/engine.rs:139-174 | the row pushed for one segment: the line, the column offset `k * width`, the segment text, its selection spans and caret columns, and whether it is the active line |
| EditorEngine.ViewShowsDocument | crates/editor/src/engine.rs:125-197 | when kept cache entries match the document, every cached line and every row shows the document's own line text; without wrap, row `i` is line `first + i` |
| EditorEngine.BuildLines | crates/editor/src/engine.rs:123-197 | the row loop builds the view of the visible lines, each from the cache or the document, caching what it read |
| EditorEngine.LineRows | crates/editor/src/engine.rs:126-138 | one line: its text from the cache or from the document and then cached, and its rows; one unwrapped row without soft wrap |
| EditorEngine.InTextCanApply | crates/editor/src/engine.rs:72-94 | every key action is possible while the selections are inside the text |
| EditorEngine.CollectBackspaceTargets | crates/editor/src/engine.rs:322-331 | the loop builds exactly `BackspaceTargets` |
| EditorEngine.CollectDeleteForwardTargets | crates/editor/src/engine.rs:418-427 | the loop builds exactly `DeleteForwardTargets` |
| EditorEngine.CollectWordBackRanges | crates/editor/src/engine.rs:349-356 | the loop builds exactly `WordBackRanges` |
| EditorEngine.CollectWordForwardRanges | crates/editor/src/engine.rs:372-379 | the loop builds exactly `WordForwardRanges` |
| EditorEngine.CollectHeadLines | crates/editor/src/engine.rs:389-395 | the head lines, sorted and without repeats |
| EditorEngine.CollectTouchedLines | crates/editor/src/engine.rs:572-580 | the lines every selection starts and ends on, sorted and without repeats |
| EditorEngine.CollectLineDeletes | crates/editor/src/engine.rs:396-403 | the loop builds exactly `LineDeleteRanges` |
| EditorEngine.DeleteRangeFor | crates/editor/src/engine.rs:397-402 | the deletion for one line: from its start to its end, or nothing for an empty line |
| EditorEngine.CollectLineDuplicates | crates/editor/src/engine.rs:506-518 | the loop builds exactly `LineDuplicateRanges` |
| EditorEngine.CollectPrefixRanges | crates/editor/src/engine.rs:581-592 | the loop builds exactly `PrefixRanges` |
| EditorEngine.PrefixRangeFor | crates/editor/src/engine.rs:583-591 | removing, the prefix's range when the line starts with the prefix and nothing otherwise; adding, an empty range at the line start that inserts the prefix |
| EditorEngine.CheckAllHavePrefix | crates/editor/src/engine.rs:617-626 | the flag is set exactly when every line starts with the prefix |
| EditorEngine.CollectMoved | crates/editor/src/engine.rs:442-479 | the loop builds exactly `MovedSelections` |
| EditorEngine.MoveOne | crates/editor/src/engine.rs:444-477 | one selection: the head moved from its base, the anchor kept when extending, otherwise a caret at the new head |
| EditorEngine.JoinSelected | crates/editor/src/engine.rs:296-304 | the selected slices joined by newlines |
| EditorEngine.CollectMatches | crates/editor/src/engine.rs:258-267 | the search loop yields exactly `ReplaceAllMatches` |
| EditorEngine.SearchStep | crates/editor/src/engine.rs:260-267 | one pass of the search loop: the matches so far followed by the greedy matches from the cursor stay the full list, the cursor moves strictly forward, and when the loop stops the list is complete |
| EditorEngine.FindForward | crates/editor/src/engine.rs:261 | the first occurrence of the needle at or after the cursor, as a match of the needle's length, or none |
| EditorEngine.FindNextForward | crates/editor/src/engine.rs:201-221 | forward, `find_next` from inside the text is the first occurrence from there |
| EditorEngine.ReplaceAllPlan | crates/editor/src/engine.rs:268-289 | with matches, their replacement ranges lie in the text and replacing them with a caret after the last replacement is the state replace-all leaves |
| EditorEngine.CollectReplacements | crates/editor/src/engine.rs:271-278 | one replacement range per match |
| EditorEngine.Engine.constructor | crates/editor/src/engine.rs:36-57 | a fresh buffer on the text, the 64-line 120-column viewport at the top, no soft wrap, the default keymap, an empty cache |
| EditorEngine.Engine.InsertText | crates/editor/src/engine.rs:96-98 | the text typed over every selection |
| EditorEngine.Engine.Backspace | crates/editor/src/engine.rs:316-340 | the new state is `Backspaced` of the old one |
| EditorEngine.Engine.DeleteForward | crates/editor/src/engine.rs:412-436 | the new state is `DeletedForward` of the old one |
| EditorEngine.Engine.DeleteWordBackward | crates/editor/src/engine.rs:342-363 | the new state is `DeletedWordBackward` of the old one |
| EditorEngine.Engine.DeleteWordForward | crates/editor/src/engine.rs:365-386 | the new state is `DeletedWordForward` of the old one |
| EditorEngine.Engine.DeleteLine | crates/editor/src/engine.rs:388-410 | the new state is `DeletedLine` of the old one |
| EditorEngine.Engine.DuplicateLine | crates/editor/src/engine.rs:498-525 | the new state is `DuplicatedLine` of the old one |
| EditorEngine.Engine.ApplyLinePrefixEdit | crates/editor/src/engine.rs:571-602 | the new state is `LinePrefixEdited` of the old one |
| EditorEngine.Engine.ToggleLinePrefix | crates/editor/src/engine.rs:604-632 | the new state is `ToggledLinePrefix` of the old one |
| EditorEngine.Engine.Indent | crates/editor/src/engine.rs:490-492 | four spaces added at the start of every touched line |
| EditorEngine.Engine.Outdent | crates/editor/src/engine.rs:494-496 | four leading spaces removed from every touched line that has them |
| EditorEngine.Engine.ToggleComment | crates/editor/src/engine.rs:527-529 | "//" toggled on the touched lines |
| EditorEngine.Engine.MoveCursors | crates/editor/src/engine.rs:438-488 | the new state is `Moved` of the old one, with the corrected up, down and line-end moves listed under Findings |
| EditorEngine.Engine.Copy | crates/editor/src/engine.rs:291-305 | empty when every selection is a caret, else the selected slices joined by newlines; nothing changes |
| EditorEngine.Engine.Cut | crates/editor/src/engine.rs:307-314 | the copied text, and the selections deleted when it is not empty |
| EditorEngine.Engine.ReplaceRange | crates/editor/src/engine.rs:237-252 | the range replaced, with one caret after the replacement |
| EditorEngine.Engine.ReplaceAll | crates/editor/src/engine.rs:254-289 | the number of matches returned, and every match replaced |
| EditorEngine.Engine.ApplyKeyAction | crates/editor/src/engine.rs:72-94 | each action runs its command; copy and cut set the clipboard, paste types it |
| EditorEngine.Engine.ApplyNonEditing | crates/editor/src/engine.rs:80-92 | the move, undo, redo and clipboard arms |
| EditorEngine.Engine.ApplyEditing | crates/editor/src/engine.rs:74-91 | the arms that edit the text at the selections |
| EditorEngine.Engine.InvalidateCache | crates/editor/src/engine.rs:101-117 | nothing when the version is the cached one; otherwise the cache is `Invalidated` and the version and line count recorded |
| EditorEngine.Engine.ViewModel | crates/editor/src/engine.rs:100-199 | the version check, then one row per segment of each visible line from cache or document, and a gutter that fits the line count |
| SyntaxLanguage.WithExtensions | crates/syntax/src/language.rs:67-69 | every listed extension now names the language; every other entry is kept |
| SyntaxLanguage.ExtensionOf | crates/syntax/src/language.rs:74 | the text after the last '.', or the whole name without one: a '.'-free suffix preceded by '.' when shorter than the name |
| SyntaxLanguage.NoDotWholeName | crates/syntax/src/language.rs:74 | a name without '.' is its own extension |
| SyntaxLanguage.ExtensionAfterDot | crates/syntax/src/language.rs:74 | the extension of `stem.ext` is `ext` when `ext` has no '.' |
| SyntaxLanguage.DetectUnmapped | crates/syntax/src/language.rs:75 | a file whose extension is not mapped has no language |
| SyntaxLanguage.LanguageRegistry.constructor | crates/syntax/src/language.rs:42-64 | the Rust and JavaScript languages registered with their extensions |
| SyntaxLanguage.LanguageRegistry.Register | crates/syntax/src/language.rs:66-71 | each extension mapped to the name, then the config stored under the name |
| SyntaxLanguage.LanguageRegistry.DetectLanguage | crates/syntax/src/language.rs:73-77 | a config exactly when the extension is mapped to a registered name, and then that name's config |
| SyntaxLanguage.LanguageRegistry.GetLanguage | crates/syntax/src/language.rs:79-81 | the config exactly when the name is registered |
| SyntaxLanguage.RegisteredDetected | crates/syntax/src/language.rs:66-77 | after registering a config, every file with one of its extensions is detected as that config |
| SyntaxLanguage.LaterRegistrationOverrides | crates/syntax/src/language.rs:66-71 | a later registration takes over the shared extensions and leaves the earlier one's others alone |
| SyntaxLanguage.BuiltinExtensions | crates/syntax/src/language.rs:51-64 | "rs" is Rust; "js", "jsx" and "mjs" are JavaScript; nothing else has a language |
| SyntaxLanguage.MainRsIsRust | crates/syntax/src/language.rs:73-77 | "main.rs" is Rust |
| SyntaxLanguage.TestMjsIsJavaScript | crates/syntax/src/language.rs:73-77 | "app.test.mjs" is JavaScript |
| SyntaxLanguage.ReadmeHasNone | crates/syntax/src/language.rs:73-77 | "README" has no language |
| SyntaxLanguage.TrailingDotHasNone | crates/syntax/src/language.rs:73-77 | "rs." has no language: its extension is empty |
| SyntaxLanguage.BareRsIsRust | crates/syntax/src/language.rs:73-77 | a file named just "rs" is Rust |
| SyntaxLines.Relative | crates/syntax/src/highlight.rs:140-144 | a span that reaches into the line becomes line-relative and stays inside the line |
| SyntaxLines.ProjectSpans | crates/syntax/src/highlight.rs:137-145 | at most one span per span, each inside the line, well-formed spans staying well-formed |
| SyntaxLines.ProjectSpansMembers | crates/syntax/src/highlight.rs:137-145 | a span is projected exactly when it reaches into the line |
| SyntaxLines.ProjectSpansAppend | crates/syntax/src/highlight.rs:137-145 | the projection keeps the spans' order |
| SyntaxLines.LineCharStarts | crates/syntax/src/highlight.rs:130 | one start per line of `str::lines` |
| SyntaxLines.LineByteStarts | crates/syntax/src/highlight.rs:130 | one byte start per line of `str::lines` |
| SyntaxLines.LineStartsLocate | crates/syntax/src/highlight.rs:130-136 | each line sits in the text at its char start, and its byte start is the byte length of the text before it |
| SyntaxLines.OffsetsAsWritten | crates/syntax/src/highlight.rs:132-151 | the offsets as written: each line one byte after the end of the one before |
| SyntaxLines.OffsetsAgreeWithoutCr | crates/syntax/src/highlight.rs:132-151 | without '\r', those offsets are the lines' true byte starts |
| SyntaxLines.Rows | crates/syntax/src/highlight.rs:133-150 | one row per line index in the range, in increasing order, each with the spans projected at its offset |
| SyntaxLines.LinesAgreeWithoutCr | crates/syntax/src/highlight.rs:124-154 | on text without '\r', the result as written is the intended one |
| SyntaxLines.CrLfExample | crates/syntax/src/highlight.rs:151 | on "a\r\nb" the source puts the second line at byte 2 and loses its keyword; at the true offset 3 the line has it |
| SyntaxLines.ProjectLines | crates/syntax/src/highlight.rs:130-153 | the line loop, with each offset taken from where the line starts, builds the intended rows |
| SyntaxHighlight.MapIndexToTokenType | crates/syntax/src/highlight.rs:156-172 | a token type exactly for an index inside the names |
| SyntaxHighlight.BuiltinNamesMap | crates/syntax/src/highlight.rs:46-58 | with the builtin names, index `i` is the `i`-th token type, never `None` |
| SyntaxHighlight.UnknownNameIsNone | crates/syntax/src/highlight.rs:170 | a name outside the table maps to `TokenType::None` |
| SyntaxHighlight.FlatFoldsAgree | crates/syntax/src/highlight.rs:99-120 | without nesting, the fold as written and the corrected fold build the same spans |
| SyntaxHighlight.NestedAsWrittenExample | crates/syntax/src/highlight.rs:114-118 | on nested highlights the fold as written leaves the outer span empty and stretches the inner one |
| SyntaxHighlight.NestedCorrectedExample | crates/syntax/src/highlight.rs:99-120 | closing the innermost highlight first gives each span its own bytes |
| SyntaxHighlight.EventsOrError | crates/syntax/src/highlight.rs:100 | all the events, or an error exactly when one of them is an error |
| SyntaxHighlight.SpansAreEvents | crates/syntax/src/highlight.rs:104-118 | one span per start with a known index; every open highlight points at a span |
| SyntaxHighlight.SyntaxHighlighter.constructor | crates/syntax/src/highlight.rs:45-65 | the builtin names and no language |
| SyntaxHighlight.SyntaxHighlighter.SetLanguage | crates/syntax/src/highlight.rs:67-80 | the language is set only when both the grammar and the query load; otherwise their error and nothing changes |
| SyntaxHighlight.SyntaxHighlighter.HighlightText | crates/syntax/src/highlight.rs:87-122 | "No language configured" without a language; otherwise the folded events or the first error |
| SyntaxHighlight.SyntaxHighlighter.HighlightLines | crates/syntax/src/highlight.rs:124-154 | the whole text's spans, then for each line of the range the spans that reach into it |
| SyntaxHighlight.ApplyEvent | crates/syntax/src/highlight.rs:101-118 | the loop body is one step of the fold |
| AiSse.SeparatorBytes | crates/ai/src/lib.rs:263-274 | the separator found at a position lies in the buffer there: "\n\n" when present, else "\r\n\r\n" |
| AiSse.SeparatorKindsExclusive | crates/ai/src/lib.rs:263-274 | the two separators never start at the same byte, so the order of the tests does not matter |
| AiSse.FirstSeparator | crates/ai/src/lib.rs:261-277 | the earliest separator at or after the start, or the end of the buffer when there is none |
| AiSse.SplitProperties | crates/ai/src/lib.rs:260-280 | nothing exactly when there is no separator; otherwise the event before the earliest separator and the rest after it, shorter than the buffer |
| AiSse.EventHasNoSeparator | crates/ai/src/lib.rs:260-280 | the event cut off holds no separator of its own |
| AiSse.SplitSseEvent | crates/ai/src/lib.rs:260-280 | the index loop computes `Split` |
| AiSse.FramesProperties | crates/ai/src/lib.rs:122-124 | the kept tail is a separator-free suffix of the buffer, and no drained event holds a separator |
| AiSse.NoSeparatorNoFrames | crates/ai/src/lib.rs:122-124 | a buffer without a separator yields no event and is kept whole |
| AiSse.DrainEvents | crates/ai/src/lib.rs:122-124 | the draining loop yields exactly `Frames` |
| AiSse.FramesStep | crates/ai/src/lib.rs:122-124 | one event drained leaves a shorter buffer and the rest of the events |
| AiSse.DrainExample | crates/ai/src/lib.rs:122-124 | "a\n\nb\r\n\r\nc" gives the events "a" and "b" and keeps "c" |
| AiSse.DataLines | crates/ai/src/lib.rs:286-291 | at most one payload per line |
| AiSse.DataLinesSnoc | crates/ai/src/lib.rs:286-291 | the payloads keep the lines' order |
| AiSse.PayloadsTrimmed | crates/ai/src/lib.rs:287-290 | every payload is trimmed at both ends |
| AiSse.DataLineRoundTrip | crates/ai/src/lib.rs:287-290 | "data:", blanks, a trimmed payload and blanks give back that payload |
| AiSse.OtherLineIgnored | crates/ai/src/lib.rs:288 | a line not starting with "data:" adds nothing |
| AiSse.SseExtractData | crates/ai/src/lib.rs:282-294 | always succeeds, with the data payloads joined by '\n' |
| AiSse.ExtractExample | crates/ai/src/lib.rs:282-294 | two data lines around a comment give "hello\nworld" |
| Settings.Remove | crates/workspace/src/settings.rs:36 | `retain` keeps exactly the other entries |
| Settings.RemoveKeepsOrder | crates/workspace/src/settings.rs:36 | `retain` keeps the order of what it keeps |
| Settings.AddRecentProperties | crates/workspace/src/settings.rs:35-41 | at most `cap` entries; with a nonzero cap the path comes first and once, followed by the other entries in their old order |
| Settings.AddRecentNoRepeats | crates/workspace/src/settings.rs:35-41 | a list without repeats stays without repeats |
| Settings.RecentFilesExample | crates/workspace/src/settings.rs:134-143 | a, b, a leaves two entries, a first |
| Settings.AddRecentTo | crates/workspace/src/settings.rs:36-40 | `retain`, `insert(0, ..)` and `truncate` compute `AddRecent` |
| Settings.WorkspaceSettings.constructor | crates/workspace/src/settings.rs:24-32 | the root and empty lists, no active tab |
| Settings.WorkspaceSettings.AddRecentFile | crates/workspace/src/settings.rs:35-41 | the path moved to the front, at most 20 entries, nothing else changed |
| Settings.WorkspaceSettings.SetOpenTabs | crates/workspace/src/settings.rs:44-47 | the tabs and active index, nothing else |
| Settings.WorkspaceSettings.SetExpandedDirs | crates/workspace/src/settings.rs:50-52 | the expanded directories, nothing else |
| Settings.GlobalSettings.constructor | crates/workspace/src/settings.rs:89-93 | no recent workspace |
| Settings.GlobalSettings.AddRecentWorkspace | crates/workspace/src/settings.rs:97-103 | the root moved to the front, at most 10 entries |
| RustPath.FileName | crates/workspace/src/tree.rs:31-34 | the last component exactly when the path is not empty |
| RustPath.StripPrefix | crates/workspace/src/lib.rs:111-114 | the components after the base exactly when the path lies under the base (or is it) |
| FileTree.FileNode | crates/workspace/src/tree.rs:30-42 | a childless collapsed file, named by its last component (empty for the root) |
| FileTree.DirectoryNode | crates/workspace/src/tree.rs:45-57 | a childless collapsed directory, named by its last component or by the whole path for the root |
| FileTree.Nodes | crates/workspace/src/tree.rs:119-121 | the preorder nodes, `count` of them, the node first |
| FileTree.Flatten | crates/workspace/src/tree.rs:124-130 | `count` paths, the node's own first |
| FileTree.FlattenIsPreorder | crates/workspace/src/tree.rs:124-130 | `flatten` lists the nodes' paths in preorder |
| FileTree.FirstIndex | crates/workspace/src/tree.rs:93-103 | the first node with the path, or none before the end |
| FileTree.FindIsFirst | crates/workspace/src/tree.rs:93-103 | `find_by_path` finds the first node in preorder with the path, and nothing exactly when no node has it |
| FileTree.FindIffFlattened | crates/workspace/src/tree.rs:93-130 | a path is found exactly when `flatten` lists it, and the found node has it |
| FileTree.WithExpandedMarks | crates/workspace/src/tree.rs:106-116 | setting the flag through `find_by_path_mut` changes the first node in preorder with the path and nothing else; without one the tree is unchanged |
| FileTree.LexLeTotal | crates/workspace/src/tree.rs:84 | the name order is total |
| FileTree.LexLeTransitive | crates/workspace/src/tree.rs:84 | the name order is transitive |
| FileTree.NotAfterTotal | crates/workspace/src/tree.rs:80-86 | the comparator is total |
| FileTree.NotAfterTransitive | crates/workspace/src/tree.rs:80-86 | the comparator is transitive |
| FileTree.Insert | crates/workspace/src/tree.rs:80-86 | one more node, nothing lost, sorted lists stay sorted |
| FileTree.SortBy | crates/workspace/src/tree.rs:80-86 | a sorted permutation of the children |
| FileTree.SortKeepsKey | crates/workspace/src/tree.rs:79-90 | sorting a subtree keeps its name, kind, path and flag |
| FileTree.SortOrderIrrelevant | crates/workspace/src/tree.rs:79-90 | sorting the children and then their subtrees gives what sorting in the other order gives |
| FileTree.SortChildrenSorts | crates/workspace/src/tree.rs:79-90 | every child list of the result is sorted |
| FileTree.SortedOrder | crates/workspace/src/tree.rs:80-86 | in a sorted list no file precedes a directory, and one kind is in lowercased-name order |
| FileTree.SortKeepsNodes | crates/workspace/src/tree.rs:79-90 | sorting keeps every path as often as before, and the count |
| FileTree.SortExample | crates/workspace/src/tree.rs:194-206 | "src" first, then "a.rs", then "z.rs" |
| FileTree.FlatItemsAllAppend | crates/workspace/src/tree.rs:171-173 | the items of two child lists are those of each in turn |
| FileTree.FlattenRecursive | crates/workspace/src/tree.rs:158-175 | the node's item, then a directory's children's items at the next depth, visible only under an expanded visible parent, appended |
| FileTree.FlattenTree | crates/workspace/src/tree.rs:146-156 | the items from the root at depth 0, or from its children |
| FileTree.FlatItemsPreorder | crates/workspace/src/tree.rs:158-175 | with files as leaves, the items are the nodes in preorder, each at its distance from the start plus the start depth |
| FileTree.HiddenStaysHidden | crates/workspace/src/tree.rs:170 | below a hidden item nothing is visible |
| FileTree.VisibleIsShown | crates/workspace/src/tree.rs:169-174 | an item is visible exactly when every directory above it is expanded |
| Workspace.ChildNamed | crates/workspace/src/lib.rs:135 | the first child with the name, or none before the end |
| Workspace.NewNode | crates/workspace/src/lib.rs:140-144 | a childless collapsed directory or file at the full path, named by its last component |
| Workspace.InsertComponents | crates/workspace/src/lib.rs:119-149 | the walk changes only the children of the node it starts from |
| Workspace.InsertedPath | crates/workspace/src/lib.rs:110-150 | a path not under the root, or the root itself, changes nothing; the root node's own fields are kept |
| Workspace.InsertPath | crates/workspace/src/lib.rs:110-150 | the walk with a mutable `current` computes `InsertedPath` |
| Workspace.ChildNamedUpdate | crates/workspace/src/lib.rs:135-138 | the first child with a name stays first after its slot is refilled under that name |
| Workspace.ChildNamedPush | crates/workspace/src/lib.rs:145-147 | with no child of the name, the pushed child is the first one named so |
| Workspace.InsertComponentsIdempotent | crates/workspace/src/lib.rs:135-138 | walking the same components a second time changes nothing |
| Workspace.InsertIdempotent | crates/workspace/src/lib.rs:110-150 | inserting a path again adds no duplicate child |
| Workspace.Chain | crates/workspace/src/lib.rs:140-148 | one new node per remaining component |
| Workspace.FreshComponents | crates/workspace/src/lib.rs:139-148 | without a child of the first name, the walk pushes the chain of new nodes |
| Workspace.ChainShape | crates/workspace/src/lib.rs:121-133 | node `i` of the chain is at the root joined with the first `i + 1` components, collapsed, a directory except the last, whose kind is what the file system says |
| Workspace.FreshPathInserted | crates/workspace/src/lib.rs:110-150 | a new path under the root adds its components as nodes, ending at the path itself |
| Workspace.InsertKeepsNamesDistinct | crates/workspace/src/lib.rs:135-148 | child names stay distinct |
| Workspace.InsertPathKeepsNamesDistinct | crates/workspace/src/lib.rs:110-150 | child names stay distinct after `insert_path` |
| Workspace.ExpandedAreShown | crates/workspace/src/lib.rs:186-195 | `collect_expanded` yields exactly the shown expanded directories, in the order shown, nothing inside a collapsed one |
| Workspace.ExpandedAreVisible | crates/workspace/src/lib.rs:186-195 | they are the expanded directories among the visible items of the flattened view |
| Workspace.CollectExpanded | crates/workspace/src/lib.rs:186-195 | the method computes `ExpandedDirs` |
| Workspace.FindAfterSet | crates/workspace/src/tree.rs:106-116 | after setting the flag through a path, the node found there differs only in its flag; without one nothing changes |
| Workspace.SetTwice | crates/workspace/src/tree.rs:106-116 | setting the flag twice through a path is setting it once, to the second value |
| Workspace.SetSame | crates/workspace/src/tree.rs:106-116 | setting the found node's flag to what it has changes nothing |
| Workspace.ToggleTwice | crates/workspace/src/lib.rs:166-175 | the toggle flips exactly the found directory's flag, it stays toggleable, and toggling again restores the tree |
| Workspace.WorkspaceService.constructor | crates/workspace/src/lib.rs:50-55 | no tree yet, and the given settings |
| Workspace.WorkspaceService.FlatTree | crates/workspace/src/lib.rs:158-163 | nothing before a tree is built, else the view without the root |
| Workspace.WorkspaceService.UpdateExpandedDirs | crates/workspace/src/lib.rs:178-183 | with a tree, the settings' expanded directories become `ExpandedDirs`; the other settings stay |
| Workspace.WorkspaceService.ToggleExpand | crates/workspace/src/lib.rs:166-175 | a found directory is toggled and the expanded directories recorded; with no tree, no node or a file, nothing changes |
| AppEvents.Elapsed | crates/app/src/events.rs:95 | `duration_since` saturates at zero |
| AppEvents.Throttle | crates/app/src/events.rs:92-112 | emit exactly with no previous emission or one at least an interval ago; emitting records now, otherwise nothing changes |
| AppEvents.Admit | crates/app/src/events.rs:156-165 | content changes ask the repaint throttle, cursor moves the cursor throttle, all others pass; each touches only its own time |
| AppEvents.Receive | crates/app/src/events.rs:152-171 | each call uses up at least one pending event, if any |
| AppEvents.ReceiveFirstPassing | crates/app/src/events.rs:152-171 | the first passing event is returned and those after it stay pending; those before it were throttled and are dropped |
| AppEvents.UnthrottledPasses | crates/app/src/events.rs:163-164 | an event the throttles never hold back passes at once and leaves the state alone |
| AppEvents.CursorBurstDropped | crates/app/src/events.rs:160-161 | cursor moves inside the interval after an emitted one are all dropped |
| AppEvents.ThrottleState.constructor | crates/app/src/events.rs:85-90 | nothing emitted yet |
| AppEvents.ThrottleState.ShouldEmitEditorRepaint | crates/app/src/events.rs:92-101 | the decision and new repaint time are `Throttle`'s; the cursor time stays |
| AppEvents.ThrottleState.ShouldEmitCursorUpdate | crates/app/src/events.rs:103-112 | the decision and new cursor time are `Throttle`'s; the repaint time stays |
| AppEvents.EventReceiver.Next | crates/app/src/events.rs:152-171 | the filter loop computes `Receive` |
| AppEvents.EventReceiver.TryRecv | crates/app/src/events.rs:176-194 | the first passing event, or `Empty` once every pending event is dropped |
| AppEvents.EventReceiver.Recv | crates/app/src/events.rs:151-172 | the same filter, `None` when the pending events run out |
| AppEvents.FiveRapidCursorEvents | crates/app/src/events.rs:286-304 | with a 100 ms cursor interval, of five rapid cursor moves the first passes and the rest are dropped |
| AppEvents.DefaultRepaintInterval | crates/app/src/events.rs:69-76 | the default 16 ms repaint interval holds back a repaint 10 ms later but not 16 ms later |
| RustStr.ToLower | crates/editor/src/engine.rs:214 | lowercasing char by char keeps the length and maps each character |
| RustStr.Lines | crates/syntax/src/highlight.rs:130 | `str::lines` yields no line exactly for the empty text |
| RustStr.JoinLength | crates/ai/src/lib.rs:293 | the joined length is every part plus one separator between each two |
| RustStr.TrimStart | crates/ai/src/lib.rs:289 | a suffix without leading whitespace, only whitespace dropped |
| RustStr.TrimEnd | crates/ai/src/lib.rs:287 | a prefix without trailing whitespace, only whitespace dropped |
| EditorLayout.Pieces | crates/editor/src/layout.rs:88-95 | there is always at least one piece |
| EditorSelection.Caret | crates/editor/src/selection.rs:19-21 | a caret at the index |
| EditorDocument.ColumnInLine | crates/editor/src/document.rs:98-102 | a column inside a line's text stays inside the line and crosses no newline |
| AppEvents.EventReceiver.constructor | crates/app/src/events.rs:205-224 | no pending event, the given config, a fresh throttle with nothing emitted |
| AppEvents.EventReceiver.Send | crates/app/src/events.rs:125-127 | one more pending event at the end |

## Left out

- `crates/editor/src/text_shaping.rs`, font metrics and every pixel quantity of `view_model` (`y_px`, `FontMetrics`, shaped lines): floating point and the foreign `cosmic_text` shaper.
- The highlighter calls inside `view_model` and `EditorEngine::set_filename`: they only run tree-sitter and store its result. `SyntaxHighlighter::parse` and `crates/syntax/src/parser.rs` are thin wrappers over tree-sitter and are left out for the same reason.
- Tree-sitter itself: loading the grammar, compiling the highlight query and producing highlight events. The grammar and query outcomes of `set_language`, and the event sequence of `highlight_text`, are parameters.
- ropey's other line breaks: lines are split on '\n' only. ropey also breaks lines at '\r', "\r\n" and other Unicode separators, so on such text the line functions of `EditorDocument` differ from the rope's.
- `char::is_alphanumeric` and `char::to_lowercase` are restricted to ASCII; `char::is_whitespace` is the full Unicode list. Word scans, case-insensitive search and tree name sorting therefore treat non-ASCII letters as punctuation and do not fold their case.
- `AiSse.SseExtractData`: the event is taken as already decoded text; `String::from_utf8_lossy` is not modelled.
- `crates/ai/src/lib.rs` outside the SSE framing is not modelled: the HTTP client, the keyring, the async task, the mpsc channels, the JSON decoding of each payload and the `"[DONE]"` marker. Only the draining loop at lines 122-124 is modelled, as `AiSse.DrainEvents`.
- Settings persistence (`load`, `save`, `settings_path`, `hash_path`): disk access and `DefaultHasher`.
- `WorkspaceService::open`, `build_tree` and the directory walk, the file watcher (`crates/workspace/src/watcher.rs`) and file operations (`crates/workspace/src/ops.rs`): file-system and thread plumbing. `Workspace.WorkspaceService.constructor` stands for the state `open` leaves.
- The accessors `WorkspaceService::{root, name, tree}` and `TreeNode::{is_file, is_directory, extension}` have no model of their own; the model reads the fields directly.
- `Path::components` normalisation: a path is its list of normal components below the root, so `.`, `..` and repeated separators are not represented. `Path::join` is concatenation.
- `AppEvents.EventReceiver.TryRecv`: a disconnected channel (`TryRecvError::Disconnected`) is not modelled; the only error is `Empty`.
- `AppEvents.EventReceiver.Recv`: it does not wait for events. `None` stands for the channel having closed once the queued events are used up.
- `EventSender::try_send`, `EventSender::config`, `spawn_event_processor` and `Instant::now()`: channel plumbing. The clock is a parameter that gives the reading of each call.
- `EditorDocument.Document.Insert`, `EditorDocument.Document.DeleteRange`, `EditorBuffer.SelectionsInText` (and the `InText` it uses), `EditorCommands.HeadsInText`, `EditorCommands.BasesInText` with `EditorCommands.UsesLines`, `EditorEngine.CanApply` and `EditorSearch.ByteToCharIdx`: an index past the text, or a byte index off a char boundary, makes ropey or `str` panic in the source. The model does not represent the panic; the members that reach those calls exclude such inputs by `requires` built on these predicates.
- `usize` arithmetic does not overflow in the model, apart from the `u64` version counter. The saturating subtractions and `min` clamps of the source are written out.

## Findings

| source | as written | input that shows it | evidently intended | confidence | as-written member | corrected member |
|---|---|---|---|---|---|---|
| crates/editor/src/buffer.rs:159-163 | `undo` sorts the inverse edits by descending start and applies each at its recorded start (`EditorBuffer.UndoTextAsWritten`). Those starts are offsets in the text before the transaction, but earlier inverses have already shifted the text | "ab" with carets at 0 and 1, type "X": the text becomes "XaXb", and undo gives "Xb" | undo restores the text from before the transaction: the inverses are applied in the reverse of the forward order, lowest start first, as `EditorBuffer.UndoText` and `EditorBuffer.Buffer.Undo` do | high; not executed | EditorBuffer.UndoAsWrittenCorrupts | EditorBuffer.UndoRestoresText |
| crates/editor/src/engine.rs:465-468 | `Movement::Up` calls `line_col_to_char(line - 1, col)`, which clamps to `line_to_char(line)`, the start of the caret's own line (`EditorCommands.VerticalMoveAsWritten`) | "ab\nabcdef" with the caret at 7 (column 4 of line 1): Up lands at 3, still on line 1 | the caret moves to the line above, with its column clamped to the end of that line's text: 2 | high; not executed | EditorCommands.UpAsWrittenStaysOnLine | EditorCommands.VerticalMove |
| crates/editor/src/engine.rs:469-472 | `Movement::Down` calls `line_col_to_char(line + 1, col)`, which clamps to `line_to_char(line + 2)`, the start of the line after the target line (`EditorCommands.VerticalMoveAsWritten`) | "abcdef\nab\nxyz" with the caret at 4 (column 4 of line 0): Down lands at 10, the start of line 2 | the caret moves to the line below, with its column clamped to the end of that line's text: 9 | high; not executed | EditorCommands.DownAsWrittenSkipsLine | EditorCommands.VerticalMove |
| crates/editor/src/engine.rs:459-462 | `Movement::LineEnd` moves to `line_end_char(line)`, the start of the next line (`EditorCommands.LineEndMoveAsWritten`) | "ab\nabcdef" with the caret at 0: End lands at 3, on line 1 | the caret moves to the end of its own line, before the '\n': 2 | medium; not executed | EditorCommands.LineEndAsWrittenLeavesLine | EditorCommands.LineEndMove |
| crates/syntax/src/highlight.rs:114-118 | a `HighlightEnd` closes the most recently pushed span, not the innermost open highlight (`SyntaxHighlight.FoldAsWritten`) | a keyword over bytes 0-5 with a string over 2-3 nested in it: the spans come out as the keyword over 0-0 and the string over 2-5 | each end closes its own highlight: the keyword over 0-5 and the string over 2-3, as `SyntaxHighlight.Fold` does with a stack of open highlights | medium; not executed | SyntaxHighlight.NestedAsWrittenExample | SyntaxHighlight.NestedCorrectedExample |
| crates/syntax/src/highlight.rs:151 | `byte_offset += line_text.len() + 1` counts one byte per line break, but `str::lines` has already stripped the '\r' of a "\r\n" (`SyntaxLines.LinesHighlightedAsWritten`) | "a\r\nb" with a keyword over byte 3 ("b"): the second line is placed at byte 2 and its keyword is lost | each line is placed at its true byte start in the text, as `SyntaxLines.LinesHighlighted` does | high; not executed | SyntaxLines.CrLfExample | SyntaxLines.LineStartsLocate |
