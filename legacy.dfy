/**
 * The older single-file editor (src/main.rs). Its EditorState keeps the rows
 * twice, as `text_lines` and as the parallel `render_lines` with tabs
 * expanded, and runs the same algorithms as the buffer with a few
 * differences: no Tab key, a column clamped before an insertion, a filler
 * count that ignores the row offset, and a quit counter that asks for extra
 * Ctrl-Q presses while there are unsaved changes.
 */
module LegacyEditor {
  import opened Bytes
  import opened Lines
  import opened Keys
  import opened Editing
  import Views

  /** Ctrl-Q presses that a dirty buffer asks for before the one that quits. */
  const TOTAL_QUIT_COUNT: nat := 3

  /** Window rows taken by the status bar and the message bar. */
  const STATUS_HEIGHT: nat := 2

  /** How editor_save ended; the file system itself is outside the model. */
  datatype SaveOutcome = NoFilename | Written | WriteFailed

  /** The status message last set, without its wording. */
  datatype Status =
    | NoStatus
    | QuitWarning(remaining: nat)
    | SaveFailed
    | BytesWritten(count: nat)
    | FilenameNotSet

  // ---------------------------------------------------------------------------
  // The quit counter
  // ---------------------------------------------------------------------------

  /**
   * One Ctrl-Q: with unsaved changes and presses left it uses one up and the
   * editor stays open; otherwise the editor closes and the count is kept.
   * The result is (quit count, editor still open).
   */
  function CtrlQ(dirty: bool, quitCount: nat): (r: (nat, bool))
  {
    if dirty && quitCount > 0 then (quitCount - 1, true) else (quitCount, false)
  }

  /** `n` Ctrl-Q presses in a row, stopping at the one that closes the editor. */
  function CtrlQPresses(dirty: bool, quitCount: nat, n: nat): (r: (nat, bool))
  {
    if n == 0 then (quitCount, true)
    else
      var step := CtrlQ(dirty, quitCount);
      if step.1 then CtrlQPresses(dirty, step.0, n - 1) else step
  }

  /**
   * With unsaved changes and `quitCount` presses left, the editor stays open
   * through exactly `quitCount` presses and closes on the next one.
   */
  lemma {:induction false} DirtyQuitNeedsExtraPresses(quitCount: nat, n: nat)
    ensures CtrlQPresses(true, quitCount, n).1 <==> n <= quitCount
    ensures n <= quitCount ==> CtrlQPresses(true, quitCount, n).0 == quitCount - n
  {
    if n > 0 && quitCount > 0 {
      DirtyQuitNeedsExtraPresses(quitCount - 1, n - 1);
    }
  }

  /** Without unsaved changes the first Ctrl-Q closes the editor. */
  lemma CleanQuitIsImmediate(quitCount: nat, n: nat)
    requires n >= 1
    ensures !CtrlQPresses(false, quitCount, n).1
  {
  }

  /** What a key decoded by editor_read_key needs in order not to panic. */
  predicate KeyPre(d: Doc, cols: nat, k: Option<Key>)
  {
    match k
    case Some(Move(m)) => MovePre(d, m, cols)
    case Some(Printable(_)) => d.row <= |d.rows|
    case _ => true
  }

  // ---------------------------------------------------------------------------
  // Handling one key
  // ---------------------------------------------------------------------------

  /** The editor state a keypress acts on: the text and cursor, and the session. */
  datatype Editor = Editor(doc: Doc, keepAlive: bool, quitCount: nat, status: Status)

  /** The error returned for a failed write; the source passes the I/O error on. */
  const IO_ERROR: string := "I/O error"

  /**
   * editor_save after the file system answered: without a file name only a
   * message; a failed write is an error; a successful one reports the byte
   * count of the saved text and clears the dirty flag.
   */
  function SaveResult(e: Editor, outcome: SaveOutcome): (Editor, Result<()>)
  {
    match outcome
    case NoFilename => (e.(status := FilenameNotSet), Ok(()))
    case WriteFailed => (e.(status := SaveFailed), Err(IO_ERROR))
    case Written =>
      (e.(doc := e.doc.(dirty := false), status := BytesWritten(|Editing.RowsToString(e.doc.rows)|)), Ok(()))
  }

  /**
   * Saving fails exactly when the write does, leaves the text, the cursor and
   * the quit counter alone, and the text is clean afterwards exactly when it
   * was clean before or was written.
   */
  lemma SaveOutcomes(e: Editor, outcome: SaveOutcome)
    ensures var (e', r) := SaveResult(e, outcome);
      (r.Err? <==> outcome == WriteFailed) &&
      (e'.doc.dirty <==> e.doc.dirty && outcome != Written) &&
      e'.doc.rows == e.doc.rows && e'.doc.row == e.doc.row && e'.doc.col == e.doc.col &&
      e'.keepAlive == e.keepAlive && e'.quitCount == e.quitCount
  {
  }

  /**
   * The match of editor_process_keypress. Ctrl-Q runs the quit counter and
   * returns before the counter is reset; Ctrl-S saves, and a failed save
   * returns its error, also before the reset; a motion moves the cursor, a
   * printable byte is inserted, and every other key does nothing. Everything
   * that reaches the end resets the counter to TOTAL_QUIT_COUNT.
   */
  function HandleKey(e: Editor, k: Key, save: SaveOutcome, rows: nat, cols: nat): (Editor, Result<()>)
    requires KeyPre(e.doc, cols, Some(k))
  {
    match k
    case Control(c) =>
      if c == B('Q') then
        var q := CtrlQ(e.doc.dirty, e.quitCount);
        if q.1 then (e.(quitCount := q.0, status := QuitWarning(e.quitCount)), Ok(()))
        else (e.(keepAlive := false), Ok(()))
      else if c == B('S') then
        var saved := SaveResult(e, save);
        if saved.1.Err? then saved else (saved.0.(quitCount := TOTAL_QUIT_COUNT), Ok(()))
      else (e.(quitCount := TOTAL_QUIT_COUNT), Ok(()))
    case Move(m) => (e.(doc := Editing.Move(e.doc, m, rows, cols), quitCount := TOTAL_QUIT_COUNT), Ok(()))
    case Printable(ch) => (e.(doc := LegacyInsertChar(e.doc, ch), quitCount := TOTAL_QUIT_COUNT), Ok(()))
    case _ => (e.(quitCount := TOTAL_QUIT_COUNT), Ok(()))
  }

  /** Ctrl-Q leaves the text alone and follows CtrlQ: the editor closes exactly when CtrlQ says so. */
  lemma HandleCtrlQ(e: Editor, rows: nat, cols: nat)
    ensures var (e', r) := HandleKey(e, Control(B('Q')), NoFilename, rows, cols);
      r == Ok(()) && e'.doc == e.doc &&
      (e'.keepAlive <==> e.keepAlive && CtrlQ(e.doc.dirty, e.quitCount).1) &&
      e'.quitCount == CtrlQ(e.doc.dirty, e.quitCount).0
  {
  }

  /**
   * Every key but Ctrl-Q and a failed save puts the counter back to
   * TOTAL_QUIT_COUNT and keeps the editor open if it was; only Ctrl-Q can close it.
   */
  lemma OtherKeysResetQuitCount(e: Editor, k: Key, save: SaveOutcome, rows: nat, cols: nat)
    requires KeyPre(e.doc, cols, Some(k)) && k != Control(B('Q'))
    ensures var (e', r) := HandleKey(e, k, save, rows, cols);
      e'.keepAlive == e.keepAlive &&
      (r.Err? <==> k == Control(B('S')) && save == WriteFailed) &&
      (r.Ok? ==> e'.quitCount == TOTAL_QUIT_COUNT) &&
      (r.Err? ==> e'.quitCount == e.quitCount)
  {
  }

  /** One key's effect on the text: a motion is Editing.Move, a printable byte LegacyInsertChar, the rest keeps the rows. */
  lemma HandleKeyEdits(e: Editor, k: Key, save: SaveOutcome, rows: nat, cols: nat)
    requires KeyPre(e.doc, cols, Some(k))
    ensures var e' := HandleKey(e, k, save, rows, cols).0;
      (k.Move? ==> e'.doc == Editing.Move(e.doc, k.motion, rows, cols)) &&
      (k.Printable? ==> e'.doc == LegacyInsertChar(e.doc, k.b)) &&
      (!k.Move? && !k.Printable? ==> e'.doc.rows == e.doc.rows && e'.doc.row == e.doc.row && e'.doc.col == e.doc.col)
  {
  }

  // ---------------------------------------------------------------------------
  // EditorState
  // ---------------------------------------------------------------------------

  class EditorState {
    var key_buffer: seq<byte>
    var term_buffer: seq<byte>
    var render_col: nat
    var cursor_col: nat
    var cursor_row: nat
    var keep_alive: bool
    var text_lines: seq<seq<byte>>
    var render_lines: seq<seq<byte>>
    var row_offset: nat
    var col_offset: nat
    var dirty: bool
    var status: Status
    var quit_count: nat
    /** The rows and columns of the text window. */
    var ws_row: nat
    var ws_col: nat
    /** Standard input: the reads that will arrive, and how many have been made. */
    const input: seq<Option<byte>>
    var consumed: nat

    /** Every rendered row is the tab expansion of its text row. */
    ghost predicate Valid()
      reads this
    {
      consumed <= |input| &&
      |render_lines| == |text_lines| &&
      forall i :: 0 <= i < |text_lines| ==> render_lines[i] == Expand(text_lines[i])
    }

    /** The text, cursor and dirty flag as a value. */
    function State(): Doc
      reads this
    {
      Doc(text_lines, cursor_row, cursor_col, dirty)
    }

    /** The viewport: the rendered cursor column and the two offsets. */
    function View(): (nat, nat, nat)
      reads this
    {
      (render_col, row_offset, col_offset)
    }

    /** Whether the editor runs on, the quit counter and the status message. */
    function Session(): (bool, nat, Status)
      reads this
    {
      (keep_alive, quit_count, status)
    }

    /** The pending key bytes, the input position and the queued output. */
    function Io(): (seq<byte>, nat, seq<byte>)
      reads this
    {
      (key_buffer, consumed, term_buffer)
    }

    /**
     * EditorState::new followed by the window-size step of get_window_size,
     * which takes the two bar rows off the terminal's height (an unsigned
     * subtraction that must not underflow).
     */
    constructor (input: seq<Option<byte>>, termRows: nat, termCols: nat)
      requires termRows >= STATUS_HEIGHT
      ensures Valid() && this.input == input
      ensures State() == Doc([], 0, 0, false) && View() == (0, 0, 0)
      ensures Session() == (true, TOTAL_QUIT_COUNT, NoStatus) && Io() == ([], 0, [])
      ensures render_lines == [] && ws_row == termRows - STATUS_HEIGHT && ws_col == termCols
    {
      key_buffer := [];
      term_buffer := [];
      render_col := 0;
      cursor_col := 0;
      cursor_row := 0;
      keep_alive := true;
      text_lines := [];
      render_lines := [];
      row_offset := 0;
      col_offset := 0;
      dirty := false;
      status := NoStatus;
      quit_count := TOTAL_QUIT_COUNT;
      ws_row := termRows - STATUS_HEIGHT;
      ws_col := termCols;
      this.input := input;
      consumed := 0;
    }

    /** editor_read_key: Decode without a Tab key; nothing but the key queue and the input position changes. */
    method EditorReadKey() returns (k: Option<Key>)
      requires Valid()
      modifies this
      ensures Valid()
      ensures Decoded(k, key_buffer, consumed) == Decode(old(key_buffer), input, old(consumed), false)
      ensures term_buffer == old(term_buffer) && State() == old(State()) && View() == old(View())
      ensures Session() == old(Session()) && render_lines == old(render_lines)
      ensures ws_row == old(ws_row) && ws_col == old(ws_col)
    {
      k, key_buffer, consumed := Keys.ReadKey(key_buffer, input, consumed, false);
    }

    /** editor_move_cursor: Editing.Move with the window's rows as the page and its columns for End. */
    method MoveCursor(m: Motion)
      requires Valid() && MovePre(State(), m, ws_col)
      modifies this
      ensures ws_row == old(ws_row) && ws_col == old(ws_col)
      ensures Valid() && State() == Editing.Move(old(State()), m, ws_row, ws_col)
      ensures View() == old(View()) && Session() == old(Session()) && Io() == old(Io())
      ensures render_lines == old(render_lines)
    {
      var row, col := StepCursor(m);
      if row < |text_lines| {
        col := Min(|text_lines[row]|, col);
      }
      cursor_row, cursor_col := row, col;
    }

    /** The match of editor_move_cursor, before the column is clamped: Editing.Step. */
    method StepCursor(m: Motion) returns (row: nat, col: nat)
      requires MovePre(State(), m, ws_col)
      ensures Step(State(), m, ws_row, ws_col) == State().(row := row, col := col)
    {
      row, col := cursor_row, cursor_col;
      match m {
        case Up =>
          row := SatSub(row, 1);
        case Left =>
          if col != 0 {
            col := col - 1;
          } else if row > 0 {
            row := row - 1;
            col := |text_lines[row]|;
          }
        case Down =>
          row := Min(SatSub(|text_lines|, 1), row + 1);
        case Right =>
          if row < |text_lines| {
            if col < |text_lines[row]| {
              col := col + 1;
            } else if row < |text_lines| - 1 {
              row, col := row + 1, 0;
            }
          }
        case PgUp =>
          row := SatSub(row, ws_row);
        case PgDn =>
          row := Min(SatSub(|text_lines|, 1), row + ws_row);
        case Home =>
          col := 0;
        case End =>
          col := ws_col - 1;
      }
    }

    /** editor_row_cursor_to_render: the render fold over the cursor's row up to the cursor, 0 below the text. */
    function RowCursorToRender(): nat
      reads this
    {
      if cursor_row < |text_lines| then RenderPos(text_lines[cursor_row], cursor_col) else 0
    }

    /**
     * editor_scroll: the rendered column of the cursor is recomputed, and each
     * offset moves just enough for the cursor to be inside the window.
     */
    method Scroll()
      requires Valid()
      modifies this
      ensures Valid() && State() == old(State()) && Session() == old(Session()) && Io() == old(Io())
      ensures render_lines == old(render_lines) && ws_row == old(ws_row) && ws_col == old(ws_col)
      ensures render_col == Views.RenderColumn(text_lines, cursor_row, cursor_col)
      ensures row_offset == Views.ScrollOffset(cursor_row, old(row_offset), ws_row)
      ensures col_offset == Views.ScrollOffset(render_col, old(col_offset), ws_col)
      ensures ws_row >= 1 ==> row_offset <= cursor_row < row_offset + ws_row
      ensures ws_col >= 1 ==> col_offset <= render_col < col_offset + ws_col
    {
      var rc, ro, co := RowCursorToRender(), row_offset, col_offset;
      if cursor_row < ro {
        ro := cursor_row;
      } else if cursor_row >= ro + ws_row {
        ro := 1 + cursor_row - ws_row;
      }
      if rc < co {
        co := rc;
      } else if rc >= co + ws_col {
        co := 1 + rc - ws_col;
      }
      render_col, row_offset, col_offset := rc, ro, co;
    }

    /**
     * editor_update_row: re-renders text row `row`, first adding an empty
     * rendered row when there is exactly one too few. More too few panics, and
     * so does a text row that is not there.
     */
    method UpdateRow(row: nat)
      requires row <= |render_lines| && row < |text_lines|
      modifies this
      ensures State() == old(State()) && View() == old(View()) && Session() == old(Session()) && Io() == old(Io())
      ensures |old(render_lines)| == row ==> render_lines == old(render_lines) + [Expand(text_lines[row])]
      ensures |old(render_lines)| > row ==> render_lines == old(render_lines)[row := Expand(text_lines[row])]
      ensures ws_row == old(ws_row) && ws_col == old(ws_col)
    {
      if |render_lines| == row {
        render_lines := render_lines + [[]];
      }
      var rendered := RenderTabs(text_lines[row]);
      render_lines := render_lines[row := rendered];
    }

    /** editor_append_row: the line goes after the last row, rendered, and the text is marked modified. */
    method AppendRow(line: seq<byte>)
      requires Valid()
      modifies this
      ensures Valid() && State() == Editing.InsertRow(old(State()), |old(text_lines)|, line)
      ensures View() == old(View()) && Session() == old(Session()) && Io() == old(Io())
      ensures ws_row == old(ws_row) && ws_col == old(ws_col)
    {
      text_lines := text_lines + [line];
      dirty := true;
      UpdateRow(|text_lines| - 1);
    }

    /** editor_row_insert_char: the column is clamped to the row, then the byte goes in there. */
    method RowInsertChar(ch: byte)
      requires Valid() && cursor_row < |text_lines|
      modifies this
      ensures Valid()
      ensures var r, c := old(cursor_row), Min(old(cursor_col), |old(text_lines)[old(cursor_row)]|);
        State() == old(State()).(rows := old(text_lines)[r := InsertAt(old(text_lines)[r], c, ch)],
                                 col := c, dirty := true)
      ensures View() == old(View()) && Session() == old(Session()) && Io() == old(Io())
      ensures ws_row == old(ws_row) && ws_col == old(ws_col)
    {
      cursor_col := Min(cursor_col, |text_lines[cursor_row]|);
      text_lines := text_lines[cursor_row := InsertAt(text_lines[cursor_row], cursor_col, ch)];
      UpdateRow(cursor_row);
      dirty := true;
    }

    /** editor_insert_char: Editing.LegacyInsertChar; below the text an empty row is appended first. */
    method InsertChar(ch: byte)
      requires Valid() && cursor_row <= |text_lines|
      modifies this
      ensures Valid() && State() == LegacyInsertChar(old(State()), ch)
      ensures View() == old(View()) && Session() == old(Session()) && Io() == old(Io())
      ensures ws_row == old(ws_row) && ws_col == old(ws_col)
    {
      if cursor_row == |text_lines| {
        AppendRow([]);
      }
      RowInsertChar(ch);
      cursor_col := cursor_col + 1;
    }

    /** editor_rows_to_string: the rows, each followed by a line feed. */
    function RowsToString(): seq<byte>
      reads this
    {
      Editing.RowsToString(text_lines)
    }

    /** editor_draw_content: queues the text rows of the frame. */
    method DrawContent()
      requires Valid()
      modifies this
      ensures Valid()
      ensures term_buffer == old(term_buffer) + Views.LegacyDrawContent(render_lines, row_offset, col_offset, ws_row, ws_col)
      ensures State() == old(State()) && View() == old(View()) && Session() == old(Session())
      ensures key_buffer == old(key_buffer) && consumed == old(consumed) && render_lines == old(render_lines)
      ensures ws_row == old(ws_row) && ws_col == old(ws_col)
    {
      term_buffer := term_buffer + Views.LegacyDrawContent(render_lines, row_offset, col_offset, ws_row, ws_col);
    }

    /** The text, cursor, dirty flag and session as one value. */
    function Snapshot(): Editor
      reads this
    {
      Editor(State(), keep_alive, quit_count, status)
    }

    /** The Ctrl-S branch: editor_save once the file system has answered with `outcome`. */
    method Save(outcome: SaveOutcome) returns (r: Result<()>)
      modifies this
      ensures (Snapshot(), r) == SaveResult(old(Snapshot()), outcome)
      ensures View() == old(View()) && Io() == old(Io()) && render_lines == old(render_lines)
      ensures ws_row == old(ws_row) && ws_col == old(ws_col)
    {
      match outcome {
        case NoFilename =>
          status := FilenameNotSet;
        case WriteFailed =>
          status := SaveFailed;
          return Err(IO_ERROR);
        case Written =>
          status := BytesWritten(|RowsToString()|);
          dirty := false;
      }
      return Ok(());
    }

    /** The match of editor_process_keypress on a key already read: HandleKey. */
    method HandleKeypress(k: Key, save: SaveOutcome) returns (r: Result<()>)
      requires Valid() && KeyPre(State(), ws_col, Some(k))
      modifies this
      ensures ws_row == old(ws_row) && ws_col == old(ws_col)
      ensures Valid() && (Snapshot(), r) == HandleKey(old(Snapshot()), k, save, ws_row, ws_col)
      ensures View() == old(View()) && Io() == old(Io())
    {
      match k {
        case Control(c) =>
          if c == B('Q') {
            if dirty && quit_count > 0 {
              status := QuitWarning(quit_count);
              quit_count := quit_count - 1;
            } else {
              keep_alive := false;
            }
            return Ok(());
          } else if c == B('S') {
            r := Save(save);
            if r.Err? {
              return;
            }
          }
        case Move(m) =>
          MoveCursor(m);
        case Printable(ch) =>
          InsertChar(ch);
        case _ =>
      }
      quit_count := TOTAL_QUIT_COUNT;
      return Ok(());
    }

    /**
     * editor_process_keypress: reads a key and handles it. No result means
     * the input ran out while the key was awaited.
     */
    method ProcessKeypress(save: SaveOutcome) returns (r: Option<Result<()>>)
      requires Valid() && KeyPre(State(), ws_col, Decode(key_buffer, input, consumed, false).key)
      modifies this
      ensures ws_row == old(ws_row) && ws_col == old(ws_col)
      ensures var d := Decode(old(key_buffer), input, old(consumed), false);
        Valid() && key_buffer == d.buffer && consumed == d.pos &&
        (d.key.None? ==> r.None? && Snapshot() == old(Snapshot())) &&
        (d.key.Some? ==> r.Some? && (Snapshot(), r.value) == HandleKey(old(Snapshot()), d.key.value, save, ws_row, ws_col))
      ensures View() == old(View()) && term_buffer == old(term_buffer)
    {
      var key := EditorReadKey();
      if key.None? {
        return None;
      }
      var handled := HandleKeypress(key.value, save);
      return Some(handled);
    }
  }
}
