# milo, modelled in Dafny

milo is a small terminal text editor written in Rust. This project models its core and proves properties of that model:

- the `Line` object, which keeps a logical text and its tab-expanded rendering;
- the document `Buffer`: rows of lines, a logical cursor, a viewport and a dirty flag;
- the terminal's key decoder over a stack of pending bytes, the output buffer, and the parser for the cursor position report;
- the older single-file editor in `src/main.rs`, with its parallel text and render rows and its quit counter.

Text is bytes (`Bytes.byte`). Standard input is a finite sequence of reads (`seq<Option<byte>>`) plus a read position.
- `None` is the 100 ms timeout that raw mode (`VMIN = 0`, `VTIME = 1`) gives when no byte arrives.
- Past the end of the sequence, every read times out.

Standard output is the sequence of bytes written so far.

Modules, one file each:

| file | module | models |
|---|---|---|
| base.dfy | `Bytes` | bytes, ASCII constants, `Option`/`Result`, splitting on a separator (`slice::split`) |
| line.dfy | `Lines` | tab expansion, the render-position fold, occurrence offsets, and class `Line` |
| keys.dfy | `Keys` | `Motion`, `Key`, the escape table, `Decode` (one `read_key` call as a function), and the `ReadKey` method |
| terminal.dfy | `Terminals` | `usize` parsing, cursor-report parsing, and class `Terminal` with `append`, `flush`, `read_key` and `get_cursor_position` |
| editing.dfy | `Editing` | `Doc` (rows, cursor, dirty flag) and the edits and motions on it; properties stated on the joined text |
| views.dfy | `Views` | minimal scrolling, cursor placement, and frame contents for both editors |
| buffer.dfy | `Buffers` | class `Buffer` over distinct `Line` objects; each method is proved to change the buffer as the matching `Editing` function changes a `Doc` |
| legacy.dfy | `LegacyEditor` | the quit counter, `HandleKey` (one key of `editor_process_keypress` as a function), and class `EditorState` |

Tab expansion, as the code does it:

- In `update`, a tab at logical index `n` renders as `8 - n % 8` spaces (src/line.rs:57-61). So the width of a tab depends on its logical index, not on the rendered column, and `"\t\t"` renders as 8 + 7 spaces.
- The render-position fold moves a tab to `rx + 7 - rx % 8` (src/line.rs:47-49), one column before the next tab stop. So `render_position(2)` on `"a\tb"` is 7, and `"a\tb"` renders to 9 bytes (`Lines.RenderPosExampleTab`, `Lines.RenderPosExampleTwoTabs`).

Three `Line` methods that `src/buffer.rs` calls are not defined in `src/line.rs`. They are modelled as assumptions:

- `cursor_to_render_position` is taken to be `render_position`.
- `split_off(pos)` keeps `actual[..pos]`, returns `actual[pos..]`, and re-renders.
- `match_indices` gives the ascending, non-overlapping offsets of the query in the rendered text.

## Model

| member | source | states |
|---|---|---|
| Bytes.Repeat | src/line.rs:59-61 | `n` copies of one byte: length `n`, every element that byte |
| Bytes.SplitOn | src/terminal.rs:82 | splitting on a separator always gives at least one piece |
| Bytes.JoinSplit | src/terminal.rs:82 | splitting loses nothing (joining the pieces with the separator gives the input back), and no piece holds the separator |
| Bytes.SplitOnFirst | src/terminal.rs:82 | a separator-free prefix followed by a separator is the first piece, and splitting goes on after it |
| Bytes.SplitOnNone | src/terminal.rs:82 | a string without the separator is a single piece |
| Lines.Piece | src/line.rs:57-65 | a byte renders to 1 to 8 bytes, none of them a tab |
| Lines.ExpandStep | src/line.rs:57-65 | the expansion of one more byte is the old expansion followed by that byte's piece, at its logical index |
| Lines.ExpandNoTabs | src/line.rs:57-65 | a tab-free line renders to itself |
| Lines.ExpandLength | src/line.rs:57-65 | the rendered length is between the byte count and 8 times it |
| Lines.ExpandHasNoTabs | src/line.rs:57-65 | the rendered text contains no tab |
| Lines.RenderTabs | src/line.rs:55-66 | `update`'s loop, which extends the rendering piece by piece, builds exactly `Expand(actual)` |
| Lines.RenderPosNoTabs | src/line.rs:45-53 | on a tab-free line, `render_position(p) == min(p, len)` |
| Lines.RenderPosMonotone | src/line.rs:46-52 | `render_position` never decreases as the position grows |
| Lines.RenderPosPastEnd | src/line.rs:46 | from the line's length on, `render_position` is constant (the `take(pos)`) |
| Lines.RenderPosAfterTab | src/line.rs:47-49 | right after a tab, the fold's value is 7 modulo 8, one short of a tab stop |
| Lines.RenderPosExampleTab | src/line.rs:45-65 | `"a\tb"`: `render_position(2) == 7`; the rendering is `a`, 7 spaces, `b` (length 9) |
| Lines.RenderPosExampleTwoTabs | src/line.rs:45-65 | `"\t\t"`: `render_position(2) == 7` (the second tab adds 0), and the rendering is 15 spaces |
| Lines.MatchesFromFirst | src/buffer.rs:214 | the offsets from `i` are non-empty iff the query occurs at or after `i`, and the first offset is the leftmost such occurrence |
| Lines.MatchesFromSound | src/buffer.rs:214 | every reported offset is an occurrence; offsets ascend and do not overlap |
| Lines.MatchOffsetsFirst | src/buffer.rs:214-216 | `match_indices` is empty iff the query does not occur; otherwise its first offset is the leftmost occurrence |
| Lines.InsertAt | src/line.rs:22-25 | inserting a byte adds one to the length |
| Lines.RemoveAt | src/line.rs:27-30 | removing a byte takes one from the length |
| Lines.RemoveInsert | src/line.rs:22-30 | `remove(pos)` right after `insert(pos, ch)` gives back the text; the rendering follows, because both methods keep `Valid` |
| Lines.Line.constructor | src/line.rs:9-16 | a new line holds the given text and its rendering is its expansion |
| Lines.Line.Len | src/line.rs:18-20 | `len` is the byte length of `actual`, which is at most the rendered length |
| Lines.Line.Insert | src/line.rs:22-25 | `actual` gains the byte at `pos` (so `len` grows by 1), and `rendered` is again the expansion of `actual` |
| Lines.Line.Remove | src/line.rs:27-30 | `actual` loses the byte at `pos` (so `len` drops by 1), and `rendered` is again the expansion |
| Lines.Line.PushStr | src/line.rs:32-35 | `actual` becomes the old text followed by `content`, and `rendered` is the expansion |
| Lines.Line.SplitOff | src/buffer.rs:168 | `actual` keeps its first `pos` bytes, the rest is returned, and the line is re-rendered |
| Lines.Line.Update | src/line.rs:55-66 | `rendered` becomes the expansion of `actual`, and `actual` does not change |
| Keys.PlainKeyInverse | src/terminal.rs:229-236 | outside escapes, a byte's key determines the byte (Backspace 127, Newline 13, Tab 9, `Control(b + 64)` below 32, otherwise Printable) |
| Keys.LegacyHasNoTab | src/main.rs:278-283 | the older decoder has no Tab key: byte 9 decodes as `Control('I')` |
| Keys.ReadOne | src/terminal.rs:172 | one read returns the entry at the position and advances it by one; at the end of the input it times out and stays put |
| Keys.NextByte | src/terminal.rs:176-180 | skips timeouts up to the first byte and returns it with the position after it; with no byte left, returns None |
| Keys.WaitForByte | src/terminal.rs:176-180 | the waiting loop returns what NextByte specifies |
| Keys.Pushback | src/terminal.rs:219 | the bytes that the fallback pushes back are at most as many as the reads |
| Keys.Somes | src/terminal.rs:219 | the bytes among the reads, in arrival order: no more of them than reads, each one read |
| Keys.PushbackReplaysInOrder | src/terminal.rs:218-219 | popping the refilled stack from its end gives exactly the looked-ahead bytes in the order they arrived, with the timeouts dropped |
| Keys.LookAhead | src/terminal.rs:184-192 | exactly `n` reads come back; the input position only advances |
| Keys.ReadLookAhead | src/terminal.rs:184-192 | the look-ahead loop gives the reads and the position that LookAhead specifies |
| Keys.LookAheadPop | src/terminal.rs:184-189 | with pending bytes, a look-ahead step copies the top of the stack without removing it |
| Keys.LookAheadRead | src/terminal.rs:189 | with no pending bytes, a look-ahead step reads the input once |
| Keys.LookAheadCopiesStack | src/terminal.rs:184-192 | the look-ahead sees the pending bytes from the top of the stack down, before any fresh read |
| Keys.Decode | src/terminal.rs:171-238 | a decode step never moves the input position backwards or past the end |
| Keys.Refill | src/terminal.rs:217-219 | the refilling loop pushes back exactly Pushback of the reads |
| Keys.FallbackShrinks | src/terminal.rs:217-221 | the fallback recursion ends: pending bytes plus unread input shrink with each round |
| Keys.ReadKey | src/terminal.rs:171-238 | the recursive procedure returns the key, pending stack and position that Decode specifies |
| Keys.DecodePopsPendingFirst | src/terminal.rs:173-174 | a pending byte is popped and decoded before the input is touched |
| Keys.DecodeSkipsTimeouts | src/terminal.rs:175-181 | with nothing pending, timeouts are skipped and the first byte is decoded |
| Keys.NextByteSkips | src/terminal.rs:176-180 | the first byte after a run of timeouts is the one read |
| Keys.DecodeWaitsForever | src/terminal.rs:176-180 | input that holds no byte gives no key (the program would wait for ever) |
| Keys.DecodeLoneEscape | src/terminal.rs:195 | ESC followed by three timeouts is Escape |
| Keys.DecodeArrowUp | src/terminal.rs:197-226 | ESC `[` `A` and a third read is Up; a third byte is pushed onto the stack for the next call, a timeout is not |
| Keys.DecodeUnknownEscape | src/terminal.rs:217-221 | ESC `x` and two timeouts: the ESC is dropped and `x` is decoded again, as Printable |
| Keys.DecodeDoubleEscape | src/terminal.rs:184-221 | ESC ESC `[` `A`, then a timeout, decodes as Up, then Printable `[`, then Printable `A`, because the look-ahead does not pop |
| Keys.DoubleEscapeFallback | src/terminal.rs:217-226 | the first key of that input: the unknown sequence is pushed back and decoded again, giving Up with `A[` pending |
| Keys.PendingLookAhead | src/terminal.rs:184-192 | three look-ahead reads over the pending `A[` see both pending bytes, then a timeout |
| Keys.DoubleEscapeReplay | src/terminal.rs:173-174 | the next two keys replay the pending bytes without reading input |
| Keys.DecodeEncode | src/terminal.rs:194-236 | every key in the table round-trips: sent alone and followed by timeouts, it decodes to itself with nothing pending |
| Keys.DecodeTableHit | src/terminal.rs:194-215 | an ESC and three reads that the table maps to a key consume exactly four reads |
| Keys.ReadsAhead | src/terminal.rs:184-192 | with nothing pending, the look-ahead is the next `n` entries of the input |
| Terminals.ParseUsize | src/terminal.rs:84 | a parsed number is below 2^64 |
| Terminals.ShowDecimal | src/terminal.rs:84 | the decimal spelling of a number is non-empty and all digits |
| Terminals.ShowDecimalValue | src/terminal.rs:84 | the digits of the spelling have the number's value |
| Terminals.ParseShowDecimal | src/terminal.rs:84 | every number below 2^64, spelled in decimal, parses back to itself |
| Terminals.ParseUsizeEdges | src/terminal.rs:84 | the empty string, a lone `+`, a `-` sign and 2^64 are rejected; `+7` parses |
| Terminals.ReportBytes | src/terminal.rs:76-79 | the reply is the bytes read from the position, in order, up to the first `R` or timeout, which is consumed and dropped (or up to the end of the input); it holds no `R`, and the position ends just after the stop |
| Terminals.Numbers | src/terminal.rs:81-85 | the pieces that parse give at most one number each |
| Terminals.NoSemicolonInDecimal | src/terminal.rs:81-82 | a decimal spelling holds neither `;` nor `R` |
| Terminals.ParseReportBody | src/terminal.rs:81-91 | every report body `ESC [ row ; col` with both numbers below 2^64 parses to `(row, col)` |
| Terminals.ReportBytesReadsBody | src/terminal.rs:76-79 | a body followed by `R` is read back whole, and the `R` is consumed |
| Terminals.ParseCursorReportExample | src/terminal.rs:81-91 | `ESC[24;80` parses to `(24, 80)` |
| Terminals.ParseCursorReportThreeNumbers | src/terminal.rs:87-89 | three numbers are an error |
| Terminals.SplitThreeNumbers | src/terminal.rs:82 | `1;2;3` splits into three pieces |
| Terminals.ParseCursorReportSkipsPieces | src/terminal.rs:81-91 | pieces that are not numbers, empty ones included, are skipped: `ESC[a;5;;9` gives `(5, 9)` |
| Terminals.SplitSkipsPieces | src/terminal.rs:82 | `a;5;;9` splits into four pieces, one of them empty |
| Terminals.NumbersSkipPieces | src/terminal.rs:83-85 | of those pieces only `5` and `9` parse |
| Terminals.NumbersCons | src/terminal.rs:83-85 | the numbers are taken piece by piece from the front |
| Terminals.NumbersOfDecimals | src/terminal.rs:83-85 | pieces that spell numbers give exactly those numbers |
| Terminals.ReadReport | src/terminal.rs:76-79 | the reading loop collects exactly the reply that ReportBytes specifies |
| Terminals.Terminal.constructor | src/terminal.rs:126-141 | a terminal of the given size with empty buffers, and nothing read or written |
| Terminals.Terminal.Append | src/terminal.rs:162-164 | `term_buffer` grows by `content`; nothing is written yet |
| Terminals.Terminal.Flush | src/terminal.rs:166-169 | the output grows by the old buffer, and the buffer is left empty |
| Terminals.Terminal.ReadKey | src/terminal.rs:171-238 | the key, the pending stack and the input position are as Decode (with a Tab key) specifies; the output does not change |
| Terminals.Terminal.GetCursorPosition | src/terminal.rs:73-92 | writes the DSR request `ESC[6n` and CR LF, consumes the reply as ReportBytes specifies, and returns its parse |
| Terminals.CursorReportRoundTrip | src/terminal.rs:73-92 | the CPR reply `ESC[row;colR` is consumed whole and parses to `(row, col)` |
| Editing.JoinAppend | src/buffer.rs:141-147 | joining two runs of rows puts one line feed between them when both are non-empty |
| Editing.Decompose | src/buffer.rs:141-147 | the joined text is the text before a row, the row, then the text after it |
| Editing.ReplaceRow | src/buffer.rs:141-147 | replacing a row changes the joined text in that row's place only |
| Editing.Move | src/buffer.rs:58-93 | a motion changes neither the text nor the dirty flag, and on an existing row the column ends up within it |
| Editing.MoveKeepsCursorValid | src/buffer.rs:58-93 | every motion keeps the cursor invariant (row at most the line count, column within the row, column 0 below the text), except End below the text |
| Editing.EndBelowTextBreaksCursor | src/buffer.rs:86-92 | End on the line below the text leaves the column at `cols - 1`, outside the invariant, where `insert_char` would panic (`InsertCharPre` fails) |
| Editing.MoveRightThenLeft | src/buffer.rs:61-81 | Right then Left returns to the start, except at the end of the last row |
| Editing.MoveLeftThenRight | src/buffer.rs:61-81 | Left then Right returns to the start, except at (0, 0) |
| Editing.MoveAtTheEnds | src/buffer.rs:61-81 | Right at the end of the last row and Left at (0, 0) do nothing |
| Editing.MoveVerticalBounds | src/buffer.rs:58-93 | Up and PgUp saturate at row 0; Down and PgDn stop at the last row (saturating); PgDn moves by the page |
| Editing.MoveRightAdvancesOffset | src/buffer.rs:72-81 | Right moves the cursor one byte forward in the joined text, a row end counting as the line feed |
| Editing.InsertRow | src/buffer.rs:152-158 | inserts exactly one row at the index, keeps the rows around it, and sets the dirty flag; an index past the end changes nothing |
| Editing.DeleteInsertRow | src/buffer.rs:186-191 | deleting the row just inserted at the cursor gives the rows back |
| Editing.AppendRowText | src/buffer.rs:141-162 | `append_row` adds its line after the last row, and the saved text gains the line and a line feed |
| Editing.InsertChar | src/buffer.rs:175-184 | with the cursor at most one past the last row, the flag is set and the cursor moves one column right |
| Editing.InsertNewLine | src/buffer.rs:164-173 | the cursor goes to the start of the next row |
| Editing.SplitRow | src/buffer.rs:167-170 | the cursor's row is replaced by the bytes before the cursor and then the rest; the other rows are kept; the flag is set |
| Editing.DeleteChar | src/buffer.rs:193-210 | at (0, 0) and below the text nothing changes |
| Editing.InsertCharKeepsCursorValid | src/buffer.rs:175-184 | `insert_char` keeps the cursor invariant |
| Editing.InsertNewLineKeepsCursorValid | src/buffer.rs:164-173 | `insert_new_line` keeps the cursor invariant (and cannot panic under it) |
| Editing.DeleteCharKeepsCursorValid | src/buffer.rs:193-210 | `delete_char` keeps the cursor invariant (and cannot panic under it) |
| Editing.InsertCharInRow | src/buffer.rs:179-183 | the cursor's row becomes prefix, byte, suffix; the other rows are unchanged |
| Editing.InsertCharBelowText | src/buffer.rs:176-178 | below the text, the byte becomes a new last row |
| Editing.InsertCharText | src/buffer.rs:175-184 | in the joined text, the byte goes in at the cursor's offset, and the cursor moves past it |
| Editing.InsertNewLineRows | src/buffer.rs:164-173 | one more row: the rows at the cursor row and the next together make the old row (an empty row goes above at column 0) |
| Editing.SplitRowText | src/buffer.rs:167-170 | a row split in two inserts a line feed into the joined text |
| Editing.InsertNewLineText | src/buffer.rs:164-173 | in the joined text, `insert_new_line` inserts a line feed at the cursor's offset, and the cursor moves past it |
| Editing.SplitAtText | src/buffer.rs:168-169 | splitting a row at a column inserts a line feed at that offset of the joined text |
| Editing.DeleteCharInRowText | src/buffer.rs:198-201 | inside a row, `delete_char` removes the byte before the cursor's offset, and the cursor moves back one |
| Editing.DeleteCharJoinText | src/buffer.rs:202-208 | at column 0, `delete_char` removes the line feed before the row, and the cursor's offset drops by one, to where that line feed was |
| Editing.MergeText | src/buffer.rs:203-206 | appending a row to the one above removes the line feed between them |
| Editing.DeleteAfterInsertChar | src/buffer.rs:175-210 | `delete_char` right after `insert_char` on an existing row restores the rows and the cursor |
| Editing.DeleteAfterInsertNewLine | src/buffer.rs:164-210 | `delete_char` right after `insert_new_line` restores the rows and the cursor |
| Editing.LegacyInsertChar | src/main.rs:555-561 | the row stays and the flag is set; below the text, a row is appended first |
| Editing.LegacyInsertAgrees | src/main.rs:544-561 | under the cursor invariant, the older editor inserts exactly as the buffer does |
| Editing.LegacyInsertClamps | src/main.rs:549-550 | past the end of the row, the older editor appends the byte at the row's end, and the cursor follows it |
| Editing.StripAll | src/main.rs:587 | each line it is given loses one trailing carriage return, if it has one, and nothing else changes |
| Editing.ReadLines | src/main.rs:587 | no line read holds a line feed |
| Editing.ReadLinesTerminatedCR | src/main.rs:587 | a carriage return before a line feed is dropped: `"a\r\n"` reads as `["a"]` |
| Editing.ReadLinesUnterminatedCR | src/main.rs:587 | an unterminated last line keeps its carriage return: `"a\r"` reads as `["a\r"]` |
| Editing.SplitJoin | src/buffer.rs:141-150 | splitting the saved text on line feeds gives the rows back, then the rest |
| Editing.ReadLinesRowsToString | src/buffer.rs:141-150 | the saved text read back line by line gives the rows, when no row holds a line feed or ends in CR; an empty buffer is saved as `"\n"` |
| Editing.RowsToStringExamples | src/buffer.rs:141-150 | `["a", "b"]` is saved as `"a\nb\n"`, and the empty buffer as `"\n"` |
| Views.ScrollOffset | src/buffer.rs:102-112 | for a window of at least one cell, the position ends up inside it, and an offset that already shows the position is kept |
| Views.ScrollIsMinimal | src/buffer.rs:102-112 | no offset that shows the position is closer to the old one |
| Views.PlaceThenScroll | src/buffer.rs:115-119 | after `place_cursor` on an existing row, scrolling puts that row on top |
| Views.RenderColumnBounds | src/buffer.rs:96-100 | the rendered column is the logical one on a tab-free row, and never moves left as the cursor moves right |
| Views.PlacementAfterScroll | src/buffer.rs:51-113 | after scrolling, neither offset is past the cursor, so `cursor_placement` cannot underflow, and the 1-based placement lies within `rows` × `cols` |
| Views.Clip | src/buffer.rs:131-133 | the columns shown are `line[skip..skip + take]`, cut at the line's end |
| Views.FrameShape | src/buffer.rs:121-139 | exactly `rows` segments: segment i is columns `[col_offset, col_offset + cols)` of rendered row `row_offset + i` if it exists, else of `~`; each is followed by `ESC[K` CR LF |
| Views.FrameContentSegments | src/buffer.rs:121-139 | the frame is its segments in order, each ending in `ESC[K` CR LF |
| Views.LegacyShape | src/main.rs:391-412 | never more than `ws_row` segments, exactly `ws_row` when the row offset is 0, and the filler count ignores the row offset |
| Views.LegacyShortFrame | src/main.rs:399 | scrolled two rows down a three-row text in a five-row window: the older frame has 3 segments, the newer has 5 |
| Buffers.InsertLine | src/buffer.rs:156 | inserting a new line object keeps the lines distinct and valid, and inserts its text |
| Buffers.RemoveLine | src/buffer.rs:188 | removing a line keeps the lines distinct and valid, and removes its text |
| Buffers.Buffer.constructor | src/buffer.rs:19-21 | an empty, clean buffer with the cursor and the viewport at 0 |
| Buffers.Buffer.NotDirty | src/buffer.rs:27-29 | clears the dirty flag and nothing else; the lines stay valid |
| Buffers.Buffer.StepCursor | src/buffer.rs:59-88 | the motion's match, before clamping, is Editing.Step |
| Buffers.Buffer.MoveCursor | src/buffer.rs:58-93 | the buffer follows Editing.Move; the lines and the viewport do not change |
| Buffers.Buffer.Scroll | src/buffer.rs:95-113 | `render_col` is the cursor row's render position (0 below the text); each offset is ScrollOffset, so the cursor is inside the window |
| Buffers.Buffer.PlaceCursor | src/buffer.rs:115-119 | the cursor goes to (row, col), and the row offset to the line count; the lines stay valid |
| Buffers.Buffer.InsertRow | src/buffer.rs:152-158 | the buffer follows Editing.InsertRow as a fresh line object at the index; an index past the end changes nothing |
| Buffers.Buffer.AppendRow | src/buffer.rs:160-162 | Editing.InsertRow at the line count |
| Buffers.Buffer.InsertNewLine | src/buffer.rs:164-173 | the buffer follows Editing.InsertNewLine |
| Buffers.Buffer.SplitAtCursor | src/buffer.rs:167-170 | the cursor's line object is split in place, and the tail becomes a new line below it: Editing.SplitRow |
| Buffers.Buffer.InsertChar | src/buffer.rs:175-184 | the buffer follows Editing.InsertChar |
| Buffers.Buffer.InsertInLine | src/buffer.rs:180 | only line k's text changes, by the inserted byte |
| Buffers.Buffer.RemoveInLine | src/buffer.rs:199 | only line k's text changes, by the removed byte |
| Buffers.Buffer.AppendToLine | src/buffer.rs:205 | only line k's text changes: `content` is appended |
| Buffers.Buffer.SplitLine | src/buffer.rs:168 | only line k's text changes, to its first `pos` bytes; the rest is returned |
| Buffers.Buffer.DeleteRow | src/buffer.rs:186-191 | the buffer follows Editing.DeleteRow, removing the line object |
| Buffers.Buffer.DeleteChar | src/buffer.rs:193-210 | the buffer follows Editing.DeleteChar |
| Buffers.Buffer.JoinWithPrevious | src/buffer.rs:202-208 | at column 0, the line is appended to the one above and removed, as Editing.DeleteChar says |
| Buffers.Buffer.Find | src/buffer.rs:212-220 | the first line whose rendering contains the query, with the leftmost offset in it; `(cursor_row, cursor_row)` when no line does |
| LegacyEditor.DirtyQuitNeedsExtraPresses | src/main.rs:329-341 | with unsaved changes and `q` presses left, the editor stays open through exactly `q` presses, counting down, and closes on the next |
| LegacyEditor.CleanQuitIsImmediate | src/main.rs:329-341 | without unsaved changes, the first Ctrl-Q closes the editor |
| LegacyEditor.SaveOutcomes | src/main.rs:569-582 | saving fails exactly when the write does; the text is clean afterwards iff it was written or was clean; nothing else changes |
| LegacyEditor.HandleCtrlQ | src/main.rs:329-341 | Ctrl-Q leaves the text alone, does not reset the counter, and closes the editor exactly when the quit rule says so |
| LegacyEditor.OtherKeysResetQuitCount | src/main.rs:342-354 | every other key that returns normally resets the counter to 3; only Ctrl-Q can close the editor; only a failed save is an error |
| LegacyEditor.HandleKeyEdits | src/main.rs:342-352 | a motion is Editing.Move, a printable byte is LegacyInsertChar, and every other key keeps the text and the cursor |
| LegacyEditor.EditorState.constructor | src/main.rs:83-109 | the initial state (empty text, counter at 3, editor open); `get_window_size` then takes the two bar rows off the height (src/main.rs:133) |
| LegacyEditor.EditorState.EditorReadKey | src/main.rs:219-285 | the key, stack and position are as Decode without a Tab key specifies; nothing else changes |
| LegacyEditor.EditorState.MoveCursor | src/main.rs:287-323 | the state follows Editing.Move, with `ws_row` as the page and `ws_col - 1` for End |
| LegacyEditor.EditorState.StepCursor | src/main.rs:288-318 | the motion's match, before clamping, is Editing.Step |
| LegacyEditor.EditorState.Scroll | src/main.rs:455-469 | `render_col` is set by the render fold over the cursor row (src/main.rs:502-514, 0 below the text), and the offsets put the cursor inside the window |
| LegacyEditor.EditorState.UpdateRow | src/main.rs:516-536 | rendered row `row` becomes the expansion of text row `row`; with exactly one rendered row too few, one is added first |
| LegacyEditor.EditorState.AppendRow | src/main.rs:538-542 | the line goes after the last row, rendered, keeping the two row lists parallel, and the flag is set |
| LegacyEditor.EditorState.RowInsertChar | src/main.rs:544-553 | the column is clamped to the row's length, then the byte goes in there, and the flag is set |
| LegacyEditor.EditorState.InsertChar | src/main.rs:555-561 | the state follows LegacyInsertChar, and the rendered rows stay the expansions of the text rows |
| LegacyEditor.EditorState.DrawContent | src/main.rs:391-412 | queues the older frame (LegacyDrawContent); under `Valid` the render rows are as many as the text rows, so its filler count is that of `text_lines.len()`; nothing else changes |
| LegacyEditor.EditorState.Save | src/main.rs:569-582 | the state changes as SaveResult says for the file system's answer |
| LegacyEditor.EditorState.HandleKeypress | src/main.rs:328-354 | the state and result are those of HandleKey for the key |
| LegacyEditor.EditorState.ProcessKeypress | src/main.rs:325-355 | reads one key as Decode specifies and handles it with HandleKey; no key means the input ran out while waiting |

## Left out

- Raw mode, `tcgetattr`/`tcsetattr`, the `ioctl` window-size query and restoring the terminal on drop are left out. They are operating-system calls. `Terminal::new` takes the window size as parameters.
- Reading and writing are modelled as sequences, so a read or write never fails. The I/O error paths (`?` on `io::stdin().bytes()`) are not modelled.
- A read that waits for a byte when none will ever come would block for ever. Decode then returns no key.
- `usize` and `u16` are modelled as unbounded naturals. Overflow of `cursor_row + rows` and similar sums is not modelled. Underflows that panic in Rust (`cols - 1` for End, `ws_row - STATUS_HEIGHT`, the subtractions in `cursor_placement`) are modelled as preconditions.
- Every other panic of the source is modelled as a precondition too, and the model says nothing about what happens then:
  - `cursor_buf[2..]` on a cursor report shorter than 2 bytes (src/terminal.rs:81): `Terminals.Terminal.GetCursorPosition` requires 2 bytes.
  - `String::insert`, `remove` and `split_off` past the end of a row (src/buffer.rs:168, 180, 199): `Editing.InsertCharPre`, `DeleteCharPre` and `InsertNewLinePre`.
  - `self.lines[self.cursor_row]` in Left, on a row past the text (src/buffer.rs:66): `Editing.MovePre`.
  - `editor_update_row`'s `panic!` and `expect` (src/main.rs:516-536): the requires of `LegacyEditor.EditorState.UpdateRow`.
  - `editor_row_insert_char`'s `expect` (src/main.rs:545-548): `LegacyEditor.KeyPre` and the requires of `LegacyEditor.EditorState.RowInsertChar`.
- One of these panics is reachable: on the empty row below the text (for instance in an empty buffer), End sets the column to `cols - 1`. A printable key then makes `insert_char` add an empty row and insert at `cols - 1`, past its end, and the source panics. `Editing.EndBelowTextBreaksCursor` shows that `InsertCharPre` fails there; the model does not cover that keystroke.
- Bytes only: the source works on `char`s and panics off UTF-8 boundaries. No Unicode is modelled.
- `Buffer::filename`/`set_filename` and the legacy editor's `filename` field are left out. Saving is modelled through a `SaveOutcome` parameter: no file name, written, or write failed.
- `editor_save` (src/main.rs:569-582) is modelled in `LegacyEditor.EditorState.Save`, except for the file system write itself. The status-message text and its timestamp are modelled as the `Status` datatype without wording or time. The I/O error is a fixed string.
- `editor_open` (src/main.rs:584-594) is not modelled as an operation. The file system is outside the model. Its line splitting (`BufRead::lines`) appears only as `Editing.ReadLines`, to state the save/read round trip.
- The legacy `get_cursor_position` and `get_window_size` of src/main.rs (lines 122-170) are not modelled beyond the `STATUS_HEIGHT` subtraction in the constructor. The cursor-report parsing is modelled once, for src/terminal.rs.
- The display code is left out: home screen, status bar, message bar, `editor_refresh_screen`, `main`, and the whole of src/editor.rs and src/lib.rs.
- src/editor.rs:132-139 calls `find_forward`/`find_reverse`, which src/buffer.rs does not define; they are not modelled.
- `Line::content`, `Line::rendered`, `Line::render_position`, `Buffer::is_dirty`, `is_empty`, `line_count`, `cursor_position`, `frame_content` and `rows_to_string` are plain accessors and pipelines. They are modelled as functions without contracts of their own.
- The definitions below model source code but have no row of their own. Each one's properties are stated by the lemmas and methods named after it, which have rows:
  - `Lines.Expand` (src/line.rs:55-66): `Lines.ExpandStep`, `ExpandNoTabs`, `ExpandLength`, `ExpandHasNoTabs`, `RenderTabs`.
  - `Lines.RenderPos` (src/line.rs:45-53): `Lines.RenderPosNoTabs`, `RenderPosMonotone`, `RenderPosPastEnd`, `RenderPosAfterTab`, and the two examples.
  - `Keys.PlainKey` (src/terminal.rs:229-236, src/main.rs:278-283): `Keys.PlainKeyInverse`, `LegacyHasNoTab`.
  - `Keys.EscapeTable` (src/terminal.rs:194-215): `Keys.DecodeEncode`, `DecodeTableHit`, `DecodeArrowUp`.
  - `Terminals.ParseCursorReport` (src/terminal.rs:81-91): `Terminals.ParseReportBody`, `CursorReportRoundTrip`, `ParseCursorReportThreeNumbers`, `ParseCursorReportSkipsPieces`.
  - `Editing.Step` (src/buffer.rs:59-88, src/main.rs:288-318): `Buffers.Buffer.StepCursor`, `LegacyEditor.EditorState.StepCursor`, and the `Editing.Move*` lemmas.
  - `Editing.DeleteRow` (src/buffer.rs:186-191): `Editing.DeleteInsertRow`, `Buffers.RemoveLine`, `Buffers.Buffer.DeleteRow`.
  - `Editing.RowsToString` (src/buffer.rs:141-150, src/main.rs:563-567): `Editing.AppendRowText`, `ReadLinesRowsToString`, `RowsToStringExamples`.
  - `Views.CursorPlacement` (src/buffer.rs:51-56): `Views.PlacementAfterScroll`.
  - `Views.Fillers`, `Views.Segments` and `Views.FrameContent` (src/buffer.rs:121-139): `Views.FrameShape`, `FrameContentSegments`.
  - `Views.LegacySegments` and `Views.LegacyDrawContent` (src/main.rs:391-412): `Views.LegacyShape`, `LegacyShortFrame`, `LegacyEditor.EditorState.DrawContent`.
  - `LegacyEditor.CtrlQ` (src/main.rs:329-341): `LegacyEditor.DirtyQuitNeedsExtraPresses`, `CleanQuitIsImmediate`, `HandleCtrlQ`.
  - `LegacyEditor.SaveResult` (src/main.rs:569-582): `LegacyEditor.SaveOutcomes`, `LegacyEditor.EditorState.Save`.
  - `LegacyEditor.HandleKey` (src/main.rs:328-354): `LegacyEditor.HandleCtrlQ`, `OtherKeysResetQuitCount`, `HandleKeyEdits`, `LegacyEditor.EditorState.HandleKeypress`.
