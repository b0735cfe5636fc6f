/**
 * The document buffer (src/buffer.rs): the rows of the text as Line objects,
 * the cursor, the viewport offsets and the dirty flag. Every editing method is
 * proved to change the buffer exactly as the matching function of Editing
 * changes a Doc value, and the viewport methods follow the functions of Views.
 */
module Buffers {
  import opened Bytes
  import opened Lines
  import opened Keys
  import opened Editing
  import Views

  /** The logical texts of a sequence of lines. */
  function TextsOf(ls: seq<Line>): (r: seq<seq<byte>>)
    reads ls
    ensures |r| == |ls| && forall i :: 0 <= i < |ls| ==> r[i] == ls[i].actual
  {
    seq(|ls|, i requires 0 <= i < |ls| reads ls => ls[i].actual)
  }

  /** The rendered texts of a sequence of lines. */
  function RenderedOf(ls: seq<Line>): (r: seq<seq<byte>>)
    reads ls
    ensures |r| == |ls| && forall i :: 0 <= i < |ls| ==> r[i] == ls[i].rendered
  {
    seq(|ls|, i requires 0 <= i < |ls| reads ls => ls[i].rendered)
  }

  /** Every line keeps its rendering up to date, and no line object appears twice. */
  ghost predicate LinesValid(ls: seq<Line>)
    reads ls
  {
    (forall i :: 0 <= i < |ls| ==> ls[i].Valid()) &&
    (forall i, j :: 0 <= i < j < |ls| ==> ls[i] != ls[j])
  }

  /** Inserting a line object not yet in the sequence keeps it valid and inserts its text. */
  lemma InsertLine(ls: seq<Line>, i: nat, l: Line)
    requires LinesValid(ls) && l.Valid() && l !in ls && i <= |ls|
    ensures LinesValid(ls[..i] + [l] + ls[i..])
    ensures TextsOf(ls[..i] + [l] + ls[i..]) == TextsOf(ls)[..i] + [l.actual] + TextsOf(ls)[i..]
  {
    var r := ls[..i] + [l] + ls[i..];
    forall a, b | 0 <= a < b < |r| ensures r[a] != r[b] {
      if b == i {
        assert r[a] in ls;
      } else if a == i {
        assert r[b] in ls;
      } else {
        var a' := if a < i then a else a - 1;
        var b' := if b < i then b else b - 1;
        assert r[a] == ls[a'] && r[b] == ls[b'];
      }
    }
  }

  /** Removing a line keeps the sequence valid and removes its text. */
  lemma RemoveLine(ls: seq<Line>, i: nat)
    requires LinesValid(ls) && i < |ls|
    ensures LinesValid(ls[..i] + ls[i + 1..])
    ensures TextsOf(ls[..i] + ls[i + 1..]) == TextsOf(ls)[..i] + TextsOf(ls)[i + 1..]
  {
    var r := ls[..i] + ls[i + 1..];
    forall a, b | 0 <= a < b < |r| ensures r[a] != r[b] {
      var a' := if a < i then a else a + 1;
      var b' := if b < i then b else b + 1;
      assert r[a] == ls[a'] && r[b] == ls[b'];
    }
  }

  class Buffer {
    var render_col: nat
    var cursor_col: nat
    var cursor_row: nat
    var lines: seq<Line>
    var row_offset: nat
    var col_offset: nat
    var dirty: bool

    ghost predicate Valid()
      reads this, lines
    {
      LinesValid(lines)
    }

    /** The text, cursor and dirty flag as a value. */
    function State(): Doc
      reads this, lines
    {
      Doc(TextsOf(lines), cursor_row, cursor_col, dirty)
    }

    /** The viewport: the rendered cursor column and the two offsets. */
    function View(): (nat, nat, nat)
      reads this
    {
      (render_col, row_offset, col_offset)
    }

    /** Buffer::new: no rows, the cursor at the origin, nothing to save. */
    constructor ()
      ensures Valid() && State() == Doc([], 0, 0, false) && View() == (0, 0, 0)
    {
      render_col := 0;
      cursor_col := 0;
      cursor_row := 0;
      lines := [];
      row_offset := 0;
      col_offset := 0;
      dirty := false;
    }

    function IsDirty(): bool
      reads this
    {
      dirty
    }

    function IsEmpty(): bool
      reads this
    {
      lines == []
    }

    function LineCount(): nat
      reads this
    {
      |lines|
    }

    function CursorPosition(): (nat, nat)
      reads this
    {
      (cursor_row, cursor_col)
    }

    /** The 1-based screen position of the cursor; the source's subtraction panics left of or above the window. */
    function CursorPlacement(): (r: (nat, nat))
      reads this
      requires row_offset <= cursor_row && col_offset <= render_col
    {
      Views.CursorPlacement(cursor_row, row_offset, render_col, col_offset)
    }

    method NotDirty()
      requires Valid()
      modifies this
      ensures Valid()
      ensures lines == old(lines) && State() == old(State()).(dirty := false) && View() == old(View())
    {
      dirty := false;
    }

    /** Sets the cursor and the dirty flag and changes nothing else. */
    method SetCursor(row: nat, col: nat, dirty: bool)
      requires Valid()
      modifies this
      ensures Valid() && lines == old(lines) && View() == old(View())
      ensures State() == old(State()).(row := row, col := col, dirty := dirty)
    {
      cursor_row, cursor_col, this.dirty := row, col, dirty;
    }

    /** The motion part of move_cursor: the cursor it reaches, before the column is clamped. */
    method StepCursor(m: Motion, rows: nat, cols: nat) returns (row: nat, col: nat)
      requires Valid() && MovePre(State(), m, cols)
      ensures Step(State(), m, rows, cols) == State().(row := row, col := col)
    {
      row, col := cursor_row, cursor_col;
      match m {
        case Up =>
          row := SatSub(row, 1);
        case Left =>
          if col != 0 {
            col := col - 1;
          } else if row > 0 {
            row := row - 1;
            col := lines[row].Len();
          }
        case Down =>
          row := Min(SatSub(|lines|, 1), row + 1);
        case Right =>
          if row < |lines| {
            if col < lines[row].Len() {
              col := col + 1;
            } else if row < |lines| - 1 {
              row := row + 1;
              col := 0;
            }
          }
        case PgUp =>
          row := SatSub(row, rows);
        case PgDn =>
          row := Min(SatSub(|lines|, 1), row + rows);
        case Home =>
          col := 0;
        case End =>
          col := cols - 1;
      }
    }

    /** move_cursor: the buffer follows Editing.Move; the text and the viewport stay as they are. */
    method MoveCursor(m: Motion, rows: nat, cols: nat)
      requires Valid() && MovePre(State(), m, cols)
      modifies this
      ensures Valid() && lines == old(lines) && View() == old(View())
      ensures State() == Editing.Move(old(State()), m, rows, cols)
    {
      var row, col := StepCursor(m, rows, cols);
      if row < |lines| {
        col := Min(lines[row].Len(), col);
      }
      SetCursor(row, col, dirty);
    }

    /**
     * scroll: the rendered column of the cursor is recomputed, and each offset
     * moves just enough for the cursor to be inside a window of rows x cols.
     */
    method Scroll(rows: nat, cols: nat)
      requires Valid()
      modifies this
      ensures Valid() && lines == old(lines) && State() == old(State())
      ensures render_col == Views.RenderColumn(TextsOf(lines), cursor_row, cursor_col)
      ensures row_offset == Views.ScrollOffset(cursor_row, old(row_offset), rows)
      ensures col_offset == Views.ScrollOffset(render_col, old(col_offset), cols)
      ensures rows >= 1 ==> row_offset <= cursor_row < row_offset + rows
      ensures cols >= 1 ==> col_offset <= render_col < col_offset + cols
    {
      var rc := if cursor_row < |lines| then lines[cursor_row].CursorToRenderPosition(cursor_col) else 0;
      var ro := row_offset;
      if cursor_row < ro {
        ro := cursor_row;
      } else if cursor_row >= ro + rows {
        ro := 1 + cursor_row - rows;
      }
      var co := col_offset;
      if rc < co {
        co := rc;
      } else if rc >= co + cols {
        co := 1 + rc - cols;
      }
      SetView(rc, ro, co);
    }

    /** Sets the viewport and changes nothing else. */
    method SetView(rc: nat, ro: nat, co: nat)
      requires Valid()
      modifies this
      ensures Valid() && lines == old(lines) && State() == old(State())
      ensures View() == (rc, ro, co)
    {
      render_col, row_offset, col_offset := rc, ro, co;
    }

    /** place_cursor: the cursor goes to (row, col) and the row offset to the line count. */
    method PlaceCursor(row: nat, col: nat)
      requires Valid()
      modifies this
      ensures Valid()
      ensures lines == old(lines) && State() == old(State()).(row := row, col := col)
      ensures row_offset == |lines| && render_col == old(render_col) && col_offset == old(col_offset)
    {
      cursor_row := row;
      cursor_col := col;
      row_offset := |lines|;
    }

    /** frame_content: the text rows of a frame of rows x cols at the current offsets. */
    function FrameContent(rows: nat, cols: nat): seq<byte>
      reads this, lines
    {
      Views.FrameContent(RenderedOf(lines), row_offset, col_offset, rows, cols)
    }

    /** rows_to_string: the logical rows, each followed by a line feed. */
    function RowsToString(): seq<byte>
      reads this, lines
    {
      Editing.RowsToString(TextsOf(lines))
    }

    /** insert_row: a fresh line at `index`; an index past the end changes nothing. */
    method InsertRow(index: nat, line: seq<byte>)
      requires Valid()
      modifies this
      ensures Valid() && View() == old(View())
      ensures State() == Editing.InsertRow(old(State()), index, line)
      ensures index <= |old(lines)| ==> fresh(lines[index]) && lines == old(lines)[..index] + [lines[index]] + old(lines)[index..]
      ensures index > |old(lines)| ==> lines == old(lines)
    {
      if index > |lines| {
        return;
      }
      var l := new Line(line);
      InsertLine(lines, index, l);
      lines, dirty := lines[..index] + [l] + lines[index..], true;
    }

    /** append_row: a fresh line after the last. */
    method AppendRow(line: seq<byte>)
      requires Valid()
      modifies this
      ensures Valid() && View() == old(View())
      ensures State() == Editing.InsertRow(old(State()), |old(lines)|, line)
    {
      InsertRow(|lines|, line);
    }

    /** insert_new_line: Editing.InsertNewLine, splitting the cursor's line object in place. */
    method InsertNewLine()
      requires Valid() && InsertNewLinePre(State())
      modifies this, lines
      ensures Valid() && View() == old(View())
      ensures State() == Editing.InsertNewLine(old(State()))
    {
      ghost var d := State();
      if cursor_col == 0 {
        InsertRow(cursor_row, []);
      } else {
        SplitAtCursor();
      }
      assert State() == Editing.InsertNewLine(d).(row := d.row, col := d.col);
      SetCursor(cursor_row + 1, 0, dirty);
    }

    /** The second branch of insert_new_line: the tail of the cursor's line becomes a new line below it. */
    method SplitAtCursor()
      requires Valid() && cursor_row < |lines| && cursor_col <= |lines[cursor_row].actual|
      modifies this, lines
      ensures Valid() && View() == old(View())
      ensures State() == Editing.SplitRow(old(State()))
    {
      ghost var d := State();
      var tail := SplitLine(cursor_row, cursor_col);
      ghost var m := State();
      InsertRow(cursor_row + 1, tail);
      SplitRowIsInsert(d, m, tail);
    }

    /** insert_char: Editing.InsertChar, adding an empty line first when the cursor is below the text. */
    method InsertChar(ch: byte)
      requires Valid() && InsertCharPre(State())
      modifies this, lines
      ensures Valid() && View() == old(View())
      ensures State() == Editing.InsertChar(old(State()), ch)
    {
      ghost var d := State();
      if cursor_row == |lines| {
        InsertRow(cursor_row, []);
      }
      assert State() == if d.row == |d.rows| then Editing.InsertRow(d, d.row, []) else d;
      if cursor_row < |lines| {
        InsertInLine(cursor_row, cursor_col, ch);
        SetCursor(cursor_row, cursor_col + 1, true);
      }
    }

    /** Line::insert on line k; the other lines are left alone. */
    method InsertInLine(k: nat, pos: nat, ch: byte)
      requires Valid() && k < |lines| && pos <= |lines[k].actual|
      modifies lines[k]
      ensures Valid() && TextsOf(lines) == old(TextsOf(lines))[k := InsertAt(old(lines[k].actual), pos, ch)]
    {
      lines[k].Insert(pos, ch);
      assert forall i :: 0 <= i < |lines| && i != k ==> lines[i] != lines[k];
    }

    /** Line::remove on line k; the other lines are left alone. */
    method RemoveInLine(k: nat, pos: nat)
      requires Valid() && k < |lines| && pos < |lines[k].actual|
      modifies lines[k]
      ensures Valid() && TextsOf(lines) == old(TextsOf(lines))[k := RemoveAt(old(lines[k].actual), pos)]
    {
      lines[k].Remove(pos);
      assert forall i :: 0 <= i < |lines| && i != k ==> lines[i] != lines[k];
    }

    /** Line::push_str on line k; the other lines are left alone. */
    method AppendToLine(k: nat, content: seq<byte>)
      requires Valid() && k < |lines|
      modifies lines[k]
      ensures Valid() && TextsOf(lines) == old(TextsOf(lines))[k := old(lines[k].actual) + content]
    {
      lines[k].PushStr(content);
      assert forall i :: 0 <= i < |lines| && i != k ==> lines[i] != lines[k];
    }

    /** Line::split_off on line k: the line keeps its first `pos` bytes and the rest is returned. */
    method SplitLine(k: nat, pos: nat) returns (tail: seq<byte>)
      requires Valid() && k < |lines| && pos <= |lines[k].actual|
      modifies lines[k]
      ensures Valid() && State() == old(State()).(rows := old(State()).rows[k := old(State()).rows[k][..pos]])
      ensures tail == old(State()).rows[k][pos..]
    {
      tail := lines[k].SplitOff(pos);
      assert forall i :: 0 <= i < |lines| && i != k ==> lines[i] != lines[k];
    }

    /** delete_row: removes the cursor's line, if there is one. */
    method DeleteRow()
      requires Valid()
      modifies this
      ensures Valid() && View() == old(View())
      ensures State() == Editing.DeleteRow(old(State()))
      ensures cursor_row < |old(lines)| ==> lines == old(lines)[..cursor_row] + old(lines)[cursor_row + 1..]
      ensures cursor_row >= |old(lines)| ==> lines == old(lines)
    {
      if cursor_row < |lines| {
        RemoveLine(lines, cursor_row);
        lines, dirty := lines[..cursor_row] + lines[cursor_row + 1..], true;
      }
    }

    /** delete_char: Editing.DeleteChar, editing the line objects in place. */
    method DeleteChar()
      requires Valid() && DeleteCharPre(State())
      modifies this, lines
      ensures Valid() && View() == old(View())
      ensures State() == Editing.DeleteChar(old(State()))
    {
      if (cursor_row, cursor_col) == (0, 0) {
        return;
      }
      if cursor_row < |lines| {
        if cursor_col > 0 {
          RemoveInLine(cursor_row, cursor_col - 1);
          SetCursor(cursor_row, cursor_col - 1, true);
        } else {
          JoinWithPrevious();
        }
      }
    }

    /** The column-0 branch of delete_char: the cursor's line is appended to the one above and removed. */
    method JoinWithPrevious()
      requires Valid() && 0 < cursor_row < |lines| && cursor_col == 0
      modifies this, lines
      ensures Valid() && View() == old(View())
      ensures State() == Editing.DeleteChar(old(State()))
    {
      ghost var d := State();
      var k := cursor_row - 1;
      SetCursor(cursor_row, lines[k].Len(), dirty);
      var tail := lines[cursor_row].Content();
      AppendToLine(k, tail);
      assert State() == d.(rows := d.rows[k := d.rows[k] + d.rows[d.row]], col := |d.rows[k]|);
      DeleteRow();
      SetCursor(cursor_row - 1, cursor_col, dirty);
    }

    /**
     * find: the first line whose rendered text contains the query, with the
     * leftmost offset of the query in it; when no line contains it, the pair
     * (cursor_row, cursor_row).
     */
    method Find(query: seq<byte>) returns (r: (nat, nat))
      ensures (forall n :: 0 <= n < |lines| ==> !Occurs(lines[n].rendered, query)) ==> r == (cursor_row, cursor_row)
      ensures !(forall n :: 0 <= n < |lines| ==> !Occurs(lines[n].rendered, query)) ==>
        r.0 < |lines| && IsFirstMatch(lines[r.0].rendered, query, r.1) &&
        forall n :: 0 <= n < r.0 ==> !Occurs(lines[n].rendered, query)
    {
      for n := 0 to |lines|
        invariant forall k :: 0 <= k < n ==> !Occurs(lines[k].rendered, query)
      {
        var matches := lines[n].MatchIndices(query);
        MatchOffsetsFirst(lines[n].rendered, query);
        if matches != [] {
          return (n, matches[0]);
        }
      }
      return (cursor_row, cursor_row);
    }
  }
}
