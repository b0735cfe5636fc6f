/**
 * The editing operations of the document buffer (src/buffer.rs) and of the
 * older editor (src/main.rs) as functions on a value: the logical rows, the
 * cursor (row, col) and the dirty flag. The classes in Buffers and
 * LegacyEditor are proved to follow these functions.
 *
 * A position is a row index and a byte offset in that row. The row index may
 * be one past the last row (the empty line below the text); the offset is at
 * most the row's length, and 0 below the text.
 */
module Editing {
  import opened Bytes
  import opened Lines
  import opened Keys

  datatype Doc = Doc(rows: seq<seq<byte>>, row: nat, col: nat, dirty: bool)

  /** The cursor invariant both editors keep. */
  predicate CursorValid(d: Doc)
  {
    d.row <= |d.rows| &&
    (d.row < |d.rows| ==> d.col <= |d.rows[d.row]|) &&
    (d.row == |d.rows| ==> d.col == 0)
  }

  // ---------------------------------------------------------------------------
  // The text as one byte string
  // ---------------------------------------------------------------------------

  /** The rows joined with line feeds (no line feed after the last). */
  function Join(rows: seq<seq<byte>>): seq<byte>
  {
    if rows == [] then [] else JoinWith(rows, NL)
  }

  /** rows_to_string: the rows joined with line feeds, and a final line feed. */
  function RowsToString(rows: seq<seq<byte>>): seq<byte>
  {
    Join(rows) + [NL]
  }

  /** The text before row `row` begins: the earlier rows, each with its line feed. */
  function Before(rows: seq<seq<byte>>, row: nat): seq<byte>
    requires row <= |rows|
  {
    Join(rows[..row]) + (if row > 0 then [NL] else [])
  }

  /** The text after row `row` ends. */
  function After(rows: seq<seq<byte>>, row: nat): seq<byte>
    requires row < |rows|
  {
    if row + 1 < |rows| then [NL] + Join(rows[row + 1..]) else []
  }

  /** The offset of the cursor in the joined text. */
  function Offset(d: Doc): nat
    requires d.row <= |d.rows|
  {
    |Before(d.rows, d.row)| + d.col
  }

  lemma {:induction false} JoinAppend(a: seq<seq<byte>>, b: seq<seq<byte>>)
    ensures Join(a + b) == Join(a) + (if a != [] && b != [] then [NL] else []) + Join(b)
  {
    if a == [] {
      assert a + b == b;
    } else if b == [] {
      assert a + b == a;
    } else {
      assert (a + b)[0] == a[0] && (a + b)[1..] == a[1..] + b;
      if |a| > 1 {
        JoinAppend(a[1..], b);
      } else {
        assert a[1..] + b == b;
      }
    }
  }

  /** Joining a row in front of others puts a line feed between them when there are others. */
  lemma JoinCons(x: seq<byte>, rest: seq<seq<byte>>)
    ensures Join([x] + rest) == x + (if rest != [] then [NL] + Join(rest) else [])
  {
    if rest == [] {
      assert [x] + rest == [x];
    } else {
      assert ([x] + rest)[1..] == rest;
    }
  }

  /** The joined text is the text before a row, the row, and the text after it. */
  lemma Decompose(rows: seq<seq<byte>>, row: nat)
    requires row < |rows|
    ensures Join(rows) == Before(rows, row) + rows[row] + After(rows, row)
  {
    var pre, line, suf := rows[..row], rows[row], rows[row + 1..];
    assert rows == pre + ([line] + suf);
    JoinAppend(pre, [line] + suf);
    JoinCons(line, suf);
    Assoc(Before(rows, row), line, After(rows, row));
  }

  /** Replacing one row changes the joined text in that row's place only. */
  lemma ReplaceRow(rows: seq<seq<byte>>, row: nat, x: seq<byte>)
    requires row < |rows|
    ensures Join(rows[row := x]) == Before(rows, row) + x + After(rows, row)
    ensures Before(rows[row := x], row) == Before(rows, row)
  {
    var r := rows[row := x];
    assert r[..row] == rows[..row] && r[row + 1..] == rows[row + 1..];
    Decompose(r, row);
  }

  lemma InsertInMiddle(p: seq<byte>, s: seq<byte>, q: seq<byte>, i: nat, c: byte)
    requires i <= |s|
    ensures InsertAt(p + s + q, |p| + i, c) == p + InsertAt(s, i, c) + q
  {
    assert (p + s + q)[..|p| + i] == p + s[..i];
    assert (p + s + q)[|p| + i..] == s[i..] + q;
  }

  lemma RemoveInMiddle(p: seq<byte>, s: seq<byte>, q: seq<byte>, i: nat)
    requires i < |s|
    ensures RemoveAt(p + s + q, |p| + i) == p + RemoveAt(s, i) + q
  {
    assert (p + s + q)[..|p| + i] == p + s[..i];
    assert (p + s + q)[|p| + i + 1..] == s[i + 1..] + q;
  }

  // ---------------------------------------------------------------------------
  // Cursor motion (move_cursor, editor_move_cursor)
  // ---------------------------------------------------------------------------

  /** What the source needs to avoid a panic: End subtracts 1 from the width, Left indexes the row above. */
  predicate MovePre(d: Doc, m: Motion, cols: nat)
  {
    (m == End ==> cols >= 1) &&
    (m == Left && d.col == 0 && d.row > 0 ==> d.row <= |d.rows|)
  }

  /** The motion itself, before the column is clamped to the row reached. */
  function Step(d: Doc, m: Motion, rows: nat, cols: nat): Doc
    requires MovePre(d, m, cols)
  {
    match m
    case Up => d.(row := SatSub(d.row, 1))
    case Left =>
      if d.col != 0 then d.(col := d.col - 1)
      else if d.row > 0 then d.(row := d.row - 1, col := |d.rows[d.row - 1]|)
      else d
    case Down => d.(row := Min(SatSub(|d.rows|, 1), d.row + 1))
    case Right =>
      if d.row < |d.rows| then
        if d.col < |d.rows[d.row]| then d.(col := d.col + 1)
        else if d.row < |d.rows| - 1 then d.(row := d.row + 1, col := 0)
        else d
      else d
    case PgUp => d.(row := SatSub(d.row, rows))
    case PgDn => d.(row := Min(SatSub(|d.rows|, 1), d.row + rows))
    case Home => d.(col := 0)
    case End => d.(col := cols - 1)
  }

  /**
   * move_cursor with the window's `rows` (page size) and `cols` (End goes to
   * column cols-1): the motion, then the column clamped to the row's length
   * whenever the row exists. The text and the dirty flag do not change.
   */
  function Move(d: Doc, m: Motion, rows: nat, cols: nat): (r: Doc)
    requires MovePre(d, m, cols)
    ensures r.rows == d.rows && r.dirty == d.dirty
    ensures r.row < |r.rows| ==> r.col <= |r.rows[r.row]|
  {
    var s := Step(d, m, rows, cols);
    if s.row < |s.rows| then s.(col := Min(|s.rows[s.row]|, s.col)) else s
  }

  /** Every motion keeps the cursor valid, except End below the text. */
  lemma MoveKeepsCursorValid(d: Doc, m: Motion, rows: nat, cols: nat)
    requires CursorValid(d) && MovePre(d, m, cols)
    requires !(m == End && d.row == |d.rows|)
    ensures CursorValid(Move(d, m, rows, cols))
  {
  }

  /**
   * End on the empty line below the text leaves the column at cols-1, outside
   * the row; a printable key then inserts past the end of the fresh empty
   * row, where the source panics, so InsertCharPre does not hold.
   */
  lemma EndBelowTextBreaksCursor()
    ensures MovePre(Doc([], 0, 0, false), End, 80)
    ensures Move(Doc([], 0, 0, false), End, 24, 80) == Doc([], 0, 79, false)
    ensures !CursorValid(Move(Doc([], 0, 0, false), End, 24, 80))
    ensures !InsertCharPre(Move(Doc([], 0, 0, false), End, 24, 80))
  {
  }

  /** Right then Left comes back, except at the end of the last row where Right does nothing. */
  lemma MoveRightThenLeft(d: Doc, rows: nat, cols: nat)
    requires CursorValid(d) && d.row < |d.rows|
    requires !(d.row == |d.rows| - 1 && d.col == |d.rows[d.row]|)
    ensures MovePre(Move(d, Right, rows, cols), Left, cols)
    ensures Move(Move(d, Right, rows, cols), Left, rows, cols) == d
  {
  }

  /** Left then Right comes back, except at the very start where Left does nothing. */
  lemma MoveLeftThenRight(d: Doc, rows: nat, cols: nat)
    requires CursorValid(d) && d.row < |d.rows| && (d.row, d.col) != (0, 0)
    ensures MovePre(d, Left, cols)
    ensures Move(Move(d, Left, rows, cols), Right, rows, cols) == d
  {
  }

  /** At the end of the last row, Right does nothing however often it is pressed; at (0, 0) Left does nothing. */
  lemma MoveAtTheEnds(d: Doc, rows: nat, cols: nat)
    requires CursorValid(d)
    ensures |d.rows| > 0 && d.row == |d.rows| - 1 && d.col == |d.rows[d.row]| ==> Move(d, Right, rows, cols) == d
    ensures d.row == 0 && d.col == 0 ==> Move(d, Left, rows, cols) == d
  {
  }

  /**
   * Vertical motion saturates: Up and PgUp never pass row 0, Down and PgDn never
   * pass the last row, so Down from the line below the text moves up onto the
   * last row.
   */
  lemma MoveVerticalBounds(d: Doc, rows: nat, cols: nat)
    ensures Move(d, Up, rows, cols).row == SatSub(d.row, 1)
    ensures Move(d, PgUp, rows, cols).row == SatSub(d.row, rows)
    ensures Move(d, Down, rows, cols).row <= SatSub(|d.rows|, 1)
    ensures Move(d, PgDn, rows, cols).row <= SatSub(|d.rows|, 1)
    ensures d.row < |d.rows| ==> Move(d, PgDn, rows, cols).row == Min(|d.rows| - 1, d.row + rows)
    ensures 0 < |d.rows| == d.row ==> Move(d, Down, rows, cols).row == |d.rows| - 1
  {
  }

  /** The motions move the cursor by one byte of the joined text, a line feed counting as one. */
  lemma MoveRightAdvancesOffset(d: Doc, rows: nat, cols: nat)
    requires CursorValid(d) && d.row < |d.rows|
    requires !(d.row == |d.rows| - 1 && d.col == |d.rows[d.row]|)
    ensures Move(d, Right, rows, cols).row <= |d.rows|
    ensures Offset(Move(d, Right, rows, cols)) == Offset(d) + 1
  {
    var r := Move(d, Right, rows, cols);
    if d.col == |d.rows[d.row]| {
      assert d.rows[..d.row + 1] == d.rows[..d.row] + [d.rows[d.row]];
      JoinAppend(d.rows[..d.row], [d.rows[d.row]]);
    }
  }

  // ---------------------------------------------------------------------------
  // Rows (insert_row, append_row, delete_row)
  // ---------------------------------------------------------------------------

  /** insert_row: a new row at index i; an index past the end changes nothing. */
  function InsertRow(d: Doc, i: nat, line: seq<byte>): (r: Doc)
    ensures i <= |d.rows| ==> |r.rows| == |d.rows| + 1 && r.rows[i] == line && r.dirty
    ensures i <= |d.rows| ==> r.rows[..i] == d.rows[..i] && r.rows[i + 1..] == d.rows[i..]
    ensures i > |d.rows| ==> r == d
    ensures r.row == d.row && r.col == d.col
  {
    if i > |d.rows| then d
    else d.(rows := d.rows[..i] + [line] + d.rows[i..], dirty := true)
  }

  /** delete_row: removes the cursor's row, if there is one. */
  function DeleteRow(d: Doc): (r: Doc)
    ensures d.row < |d.rows| ==> r.rows == d.rows[..d.row] + d.rows[d.row + 1..] && r.dirty
    ensures d.row >= |d.rows| ==> r == d
    ensures r.row == d.row && r.col == d.col
  {
    if d.row < |d.rows| then d.(rows := d.rows[..d.row] + d.rows[d.row + 1..], dirty := true) else d
  }

  /** Deleting the row just inserted at the cursor gives the rows back. */
  lemma DeleteInsertRow(d: Doc, line: seq<byte>)
    requires d.row <= |d.rows|
    ensures DeleteRow(InsertRow(d, d.row, line)) == d.(dirty := true)
  {
    var r := InsertRow(d, d.row, line);
    assert r.rows[..d.row] + r.rows[d.row + 1..] == d.rows;
  }

  /** append_row adds its line at the end of the saved text. */
  lemma AppendRowText(d: Doc, line: seq<byte>)
    ensures InsertRow(d, |d.rows|, line).rows == d.rows + [line]
    ensures RowsToString(d.rows + [line]) ==
      Join(d.rows) + (if d.rows != [] then [NL] else []) + line + [NL]
  {
    assert d.rows[|d.rows|..] == [];
    JoinAppend(d.rows, [line]);
  }

  // ---------------------------------------------------------------------------
  // Character edits (insert_char, insert_new_line, delete_char)
  // ---------------------------------------------------------------------------

  /** Where insert_char would panic: inserting past the end of the row. */
  predicate InsertCharPre(d: Doc)
  {
    (d.row < |d.rows| ==> d.col <= |d.rows[d.row]|) && (d.row == |d.rows| ==> d.col == 0)
  }

  /**
   * insert_char: below the text an empty row is added first; then the byte
   * goes in at the cursor, which moves past it. Below that (a row index
   * further out) nothing happens.
   */
  function InsertChar(d: Doc, ch: byte): (r: Doc)
    requires InsertCharPre(d)
    ensures d.row <= |d.rows| ==> r.dirty && r.row == d.row && r.col == d.col + 1
  {
    var d1 := if d.row == |d.rows| then InsertRow(d, d.row, []) else d;
    if d1.row < |d1.rows| then
      d1.(rows := d1.rows[d1.row := InsertAt(d1.rows[d1.row], d1.col, ch)], col := d1.col + 1, dirty := true)
    else d1
  }

  /** Where insert_new_line would panic: splitting a row that is not there, or past its end. */
  predicate InsertNewLinePre(d: Doc)
  {
    d.col > 0 ==> d.row < |d.rows| && d.col <= |d.rows[d.row]|
  }

  /**
   * insert_new_line: at column 0 an empty row goes in above the cursor's row,
   * otherwise the row is split at the cursor; the cursor moves to the start
   * of the next row.
   */
  function InsertNewLine(d: Doc): (r: Doc)
    requires InsertNewLinePre(d)
    ensures r.row == d.row + 1 && r.col == 0
  {
    var d1 := if d.col == 0 then InsertRow(d, d.row, []) else SplitRow(d);
    d1.(row := d.row + 1, col := 0)
  }

  /** The cursor's row keeps the bytes before the cursor, and the rest becomes a new row below it. */
  function SplitRow(d: Doc): (r: Doc)
    requires d.row < |d.rows| && d.col <= |d.rows[d.row]|
    ensures r.row == d.row && r.col == d.col && r.dirty
    ensures r.rows == d.rows[..d.row] + [d.rows[d.row][..d.col], d.rows[d.row][d.col..]] + d.rows[d.row + 1..]
  {
    var line := d.rows[d.row];
    InsertRow(d.(rows := d.rows[d.row := line[..d.col]]), d.row + 1, line[d.col..])
  }

  /** SplitRow is the row insert on the truncated row. */
  lemma SplitRowIsInsert(d: Doc, m: Doc, tail: seq<byte>)
    requires d.row < |d.rows| && d.col <= |d.rows[d.row]|
    requires m == d.(rows := d.rows[d.row := d.rows[d.row][..d.col]]) && tail == d.rows[d.row][d.col..]
    ensures SplitRow(d) == InsertRow(m, m.row + 1, tail)
  {
  }

  /** Where delete_char would panic: removing past the end of the row. */
  predicate DeleteCharPre(d: Doc)
  {
    d.row < |d.rows| && d.col > 0 ==> d.col <= |d.rows[d.row]|
  }

  /**
   * delete_char: nothing at (0, 0) or below the text; inside a row the byte
   * before the cursor goes; at column 0 the row is appended to the one above
   * and removed, and the cursor goes to the join.
   */
  function DeleteChar(d: Doc): (r: Doc)
    requires DeleteCharPre(d)
    ensures (d.row == 0 && d.col == 0) || d.row >= |d.rows| ==> r == d
  {
    if (d.row, d.col) == (0, 0) || d.row >= |d.rows| then d
    else if d.col > 0 then
      d.(rows := d.rows[d.row := RemoveAt(d.rows[d.row], d.col - 1)], col := d.col - 1, dirty := true)
    else
      var prev := d.rows[d.row - 1];
      var merged := d.(rows := d.rows[d.row - 1 := prev + d.rows[d.row]], col := |prev|);
      DeleteRow(merged).(row := d.row - 1)
  }

  /** insert_char keeps the cursor valid. */
  lemma InsertCharKeepsCursorValid(d: Doc, ch: byte)
    requires CursorValid(d)
    ensures CursorValid(InsertChar(d, ch))
  {
  }

  /** insert_new_line keeps the cursor valid. */
  lemma InsertNewLineKeepsCursorValid(d: Doc)
    requires CursorValid(d)
    ensures InsertNewLinePre(d) && CursorValid(InsertNewLine(d))
  {
  }

  /** delete_char keeps the cursor valid. */
  lemma DeleteCharKeepsCursorValid(d: Doc)
    requires CursorValid(d)
    ensures DeleteCharPre(d) && CursorValid(DeleteChar(d))
  {
  }

  /** insert_char in a row: other rows are untouched, the row gains the byte at the cursor. */
  lemma InsertCharInRow(d: Doc, ch: byte)
    requires d.row < |d.rows| && d.col <= |d.rows[d.row]|
    ensures var r := InsertChar(d, ch);
      |r.rows| == |d.rows| && r.rows[d.row] == d.rows[d.row][..d.col] + [ch] + d.rows[d.row][d.col..] &&
      forall i :: 0 <= i < |d.rows| && i != d.row ==> r.rows[i] == d.rows[i]
  {
  }

  /** insert_char on the line below the text: the byte becomes a new last row. */
  lemma InsertCharBelowText(d: Doc, ch: byte)
    requires d.row == |d.rows| && d.col == 0
    ensures InsertChar(d, ch) == Doc(d.rows + [[ch]], d.row, 1, true)
  {
    assert d.rows[|d.rows|..] == [];
    assert InsertAt([], 0, ch) == [ch];
  }

  /** In the joined text, insert_char inserts the byte at the cursor's offset and moves past it. */
  lemma InsertCharText(d: Doc, ch: byte)
    requires d.row < |d.rows| && d.col <= |d.rows[d.row]|
    ensures Offset(d) <= |Join(d.rows)| && Join(InsertChar(d, ch).rows) == InsertAt(Join(d.rows), Offset(d), ch)
    ensures Offset(InsertChar(d, ch)) == Offset(d) + 1
  {
    var line := d.rows[d.row];
    ReplaceRow(d.rows, d.row, InsertAt(line, d.col, ch));
    Decompose(d.rows, d.row);
    InsertInMiddle(Before(d.rows, d.row), line, After(d.rows, d.row), d.col, ch);
  }

  /** The rows after insert_new_line: the cursor's row split in two at the cursor. */
  lemma InsertNewLineRows(d: Doc)
    requires d.row < |d.rows| && d.col <= |d.rows[d.row]|
    ensures var line := d.rows[d.row];
      InsertNewLine(d).rows == d.rows[..d.row] + [line[..d.col], line[d.col..]] + d.rows[d.row + 1..]
  {
    var rows, row, col := d.rows, d.row, d.col;
    var line := rows[row];
    if col == 0 {
      assert line[..col] == [] && line[col..] == line;
      assert rows[row..] == [line] + rows[row + 1..];
    } else {
      var u := rows[row := line[..col]];
      assert u[..row + 1] == rows[..row] + [line[..col]];
      assert u[row + 1..] == rows[row + 1..];
    }
  }

  /** The joined text of rows with one row split in two: a line feed at the split. */
  lemma SplitRowText(rows: seq<seq<byte>>, row: nat, a: seq<byte>, b: seq<byte>)
    requires row < |rows|
    ensures Join(rows[..row] + [a, b] + rows[row + 1..]) == Before(rows, row) + a + [NL] + b + After(rows, row)
    ensures Before(rows[..row] + [a, b] + rows[row + 1..], row + 1) == Before(rows, row) + a + [NL]
  {
    var pre, suf := rows[..row], rows[row + 1..];
    var r := pre + [a, b] + suf;
    var p, q := Before(rows, row), After(rows, row);
    assert r[..row] == pre && r[row] == a && r[row + 1..] == [b] + suf;
    Decompose(r, row);
    assert Before(r, row) == p;
    JoinCons(b, suf);
    assert After(r, row) == [NL] + (b + q);
    Assoc([NL], b, q);
    Assoc(p + a, [NL] + b, q);
    Assoc(p + a, [NL], b);
    var head := pre + [a];
    assert r[..row + 1] == head && head[..row] == pre && head[row] == a;
    Decompose(head, row);
    assert Join(head) == p + a + [];
  }

  /** In the joined text, insert_new_line inserts a line feed at the cursor's offset and moves past it. */
  lemma InsertNewLineText(d: Doc)
    requires d.row < |d.rows| && d.col <= |d.rows[d.row]|
    ensures InsertNewLine(d).row <= |InsertNewLine(d).rows|
    ensures Offset(d) <= |Join(d.rows)| && Join(InsertNewLine(d).rows) == InsertAt(Join(d.rows), Offset(d), NL)
    ensures Offset(InsertNewLine(d)) == Offset(d) + 1
  {
    InsertNewLineRows(d);
    SplitAtText(d.rows, d.row, d.col);
  }

  /** Splitting a row at `col` inserts a line feed into the joined text at the split. */
  lemma SplitAtText(rows: seq<seq<byte>>, row: nat, col: nat)
    requires row < |rows| && col <= |rows[row]|
    ensures var line := rows[row];
      var r := rows[..row] + [line[..col], line[col..]] + rows[row + 1..];
      |Before(rows, row)| + col <= |Join(rows)| &&
      Join(r) == InsertAt(Join(rows), |Before(rows, row)| + col, NL) &&
      |Before(r, row + 1)| == |Before(rows, row)| + col + 1
  {
    var line := rows[row];
    var a, b := line[..col], line[col..];
    var p, q := Before(rows, row), After(rows, row);
    var r := rows[..row] + [a, b] + rows[row + 1..];
    SplitRowText(rows, row, a, b);
    Decompose(rows, row);
    InsertInMiddle(p, line, q, col, NL);
    assert InsertAt(line, col, NL) == a + [NL] + b;
    Assoc(p, a + [NL], b);
    Assoc(p, a, [NL]);
  }

  /** In the joined text, delete_char inside a row removes the byte before the cursor's offset. */
  lemma DeleteCharInRowText(d: Doc)
    requires d.row < |d.rows| && 0 < d.col <= |d.rows[d.row]|
    ensures Offset(d) >= 1 && DeleteChar(d).row <= |DeleteChar(d).rows|
    ensures Offset(d) <= |Join(d.rows)| && Join(DeleteChar(d).rows) == RemoveAt(Join(d.rows), Offset(d) - 1)
    ensures Offset(DeleteChar(d)) == Offset(d) - 1
  {
    var line := d.rows[d.row];
    Decompose(d.rows, d.row);
    ReplaceRow(d.rows, d.row, RemoveAt(line, d.col - 1));
    RemoveInMiddle(Before(d.rows, d.row), line, After(d.rows, d.row), d.col - 1);
  }

  /** In the joined text, delete_char at column 0 removes the line feed before the row. */
  lemma DeleteCharJoinText(d: Doc)
    requires 0 < d.row < |d.rows| && d.col == 0
    ensures Offset(d) >= 1 && DeleteChar(d).row <= |DeleteChar(d).rows|
    ensures Offset(d) <= |Join(d.rows)| && Join(DeleteChar(d).rows) == RemoveAt(Join(d.rows), Offset(d) - 1)
    ensures Offset(DeleteChar(d)) == Offset(d) - 1
  {
    var rows, row := d.rows, d.row;
    var prev := rows[row - 1];
    var merged := rows[row - 1 := prev + rows[row]];
    assert DeleteChar(d).rows == merged[..row] + merged[row + 1..];
    assert merged[..row] + merged[row + 1..] == rows[..row - 1] + [prev + rows[row]] + rows[row + 1..];
    MergeText(rows, row);
  }

  /** Appending a row to the one above removes the line feed between them from the joined text. */
  lemma MergeText(rows: seq<seq<byte>>, row: nat)
    requires 0 < row < |rows|
    ensures var r := rows[..row - 1] + [rows[row - 1] + rows[row]] + rows[row + 1..];
      1 <= |Before(rows, row)| <= |Join(rows)| &&
      Join(r) == RemoveAt(Join(rows), |Before(rows, row)| - 1) &&
      |Before(r, row - 1)| + |rows[row - 1]| == |Before(rows, row)| - 1
  {
    var k := row - 1;
    var prev, line := rows[k], rows[row];
    var j := prev + line;
    var r := rows[..k] + [j] + rows[row + 1..];
    assert j[..|prev|] == prev && j[|prev|..] == line;
    assert r[..k] == rows[..k] && r[k] == j && r[k + 1..] == rows[row + 1..];
    TwoRows(rows, k);
    assert r[..k] + [r[k][..|prev|], r[k][|prev|..]] + r[k + 1..] == rows;
    SplitAtText(r, k, |prev|);
    RemoveInsert(Join(r), |Before(r, k)| + |prev|, NL);
  }

  /** A sequence of rows around two neighbours. */
  lemma TwoRows(rows: seq<seq<byte>>, k: nat)
    requires k + 1 < |rows|
    ensures rows == rows[..k] + [rows[k], rows[k + 1]] + rows[k + 2..]
  {
  }

  /** delete_char right after insert_char gives back the rows and the cursor. */
  lemma DeleteAfterInsertChar(d: Doc, ch: byte)
    requires d.row < |d.rows| && d.col <= |d.rows[d.row]|
    ensures DeleteCharPre(InsertChar(d, ch))
    ensures DeleteChar(InsertChar(d, ch)) == d.(dirty := true)
  {
    RemoveInsert(d.rows[d.row], d.col, ch);
  }

  /** delete_char right after insert_new_line joins the split row again and restores the cursor. */
  lemma DeleteAfterInsertNewLine(d: Doc)
    requires d.row < |d.rows| && d.col <= |d.rows[d.row]|
    ensures DeleteCharPre(InsertNewLine(d))
    ensures DeleteChar(InsertNewLine(d)) == d.(dirty := true)
  {
    var rows, row, col := d.rows, d.row, d.col;
    var line := rows[row];
    var a, b := line[..col], line[col..];
    InsertNewLineRows(d);
    var n := InsertNewLine(d);
    assert a + b == line;
    var m := n.rows[row := a + b];
    assert m[..row + 1] + m[row + 2..] == rows;
  }

  // ---------------------------------------------------------------------------
  // The older editor's insert (editor_row_insert_char, editor_insert_char)
  // ---------------------------------------------------------------------------

  /**
   * editor_insert_char: below the text an empty row is appended; the column is
   * clamped to the row's length, the byte goes in there and the cursor moves
   * past it. A row index further out panics.
   */
  function LegacyInsertChar(d: Doc, ch: byte): (r: Doc)
    requires d.row <= |d.rows|
    ensures r.row == d.row && r.dirty && |r.rows| == Max(|d.rows|, d.row + 1)
  {
    var d1 := if d.row == |d.rows| then d.(rows := d.rows + [[]], dirty := true) else d;
    var line := d1.rows[d1.row];
    var c := Min(d1.col, |line|);
    d1.(rows := d1.rows[d1.row := InsertAt(line, c, ch)], col := c + 1, dirty := true)
  }

  /** With a valid cursor the two editors insert alike. */
  lemma LegacyInsertAgrees(d: Doc, ch: byte)
    requires CursorValid(d)
    ensures LegacyInsertChar(d, ch) == InsertChar(d, ch)
  {
    if d.row == |d.rows| {
      assert d.rows[|d.rows|..] == [];
    }
  }

  /** Past the end of the row the older editor appends the byte at the row's end (the buffer would panic). */
  lemma LegacyInsertClamps(d: Doc, ch: byte)
    requires d.row < |d.rows| && d.col > |d.rows[d.row]|
    ensures LegacyInsertChar(d, ch).rows[d.row] == d.rows[d.row] + [ch]
    ensures LegacyInsertChar(d, ch).col == |d.rows[d.row]| + 1
  {
    assert d.rows[d.row][|d.rows[d.row]|..] == [];
  }

  // ---------------------------------------------------------------------------
  // Reading the saved text back (BufRead::lines, as used to open a file)
  // ---------------------------------------------------------------------------

  /** A trailing carriage return is dropped from a line. */
  function StripCR(line: seq<byte>): seq<byte>
  {
    if line != [] && line[|line| - 1] == CR then line[..|line| - 1] else line
  }

  function StripAll(lines: seq<seq<byte>>): (r: seq<seq<byte>>)
    ensures |r| == |lines| && forall i :: 0 <= i < |lines| ==> r[i] == StripCR(lines[i])
  {
    if lines == [] then [] else StripAll(lines[..|lines| - 1]) + [StripCR(lines[|lines| - 1])]
  }

  /**
   * The lines of a text (BufRead::lines): split at line feeds, with no empty
   * line after a final line feed. A line that ended in a line feed also loses
   * one carriage return before it; an unterminated last line is kept as it is.
   */
  function ReadLines(s: seq<byte>): (r: seq<seq<byte>>)
    ensures forall i :: 0 <= i < |r| ==> NL !in r[i]
  {
    if s == [] then []
    else
      var pieces := SplitOn(s, NL);
      JoinSplit(s, NL);
      var terminated := StripAll(pieces[..|pieces| - 1]);
      assert forall i :: 0 <= i < |terminated| ==> terminated[i] <= pieces[i];
      if s[|s| - 1] == NL then terminated else terminated + [pieces[|pieces| - 1]]
  }

  /** A carriage return before a line feed is dropped. */
  lemma ReadLinesTerminatedCR()
    ensures ReadLines([B('a'), CR, NL]) == [[B('a')]]
  {
    var a := [B('a'), CR];
    SplitOnFirst(a, NL, []);
    assert a + [NL] + [] == [B('a'), CR, NL];
    var pieces := SplitOn([B('a'), CR, NL], NL);
    assert pieces == [a, []];
    assert pieces[..1] == [a];
    assert StripAll([a]) == [StripCR(a)];
  }

  /** A carriage return at the end of an unterminated last line is kept. */
  lemma ReadLinesUnterminatedCR()
    ensures ReadLines([B('a'), CR]) == [[B('a'), CR]]
  {
    var a := [B('a'), CR];
    SplitOnNone(a, NL);
    var pieces := SplitOn(a, NL);
    assert pieces[..0] == [];
  }

  predicate PlainRow(line: seq<byte>)
  {
    NL !in line && (line != [] ==> line[|line| - 1] != CR)
  }

  lemma {:induction false} SplitJoin(rows: seq<seq<byte>>, rest: seq<byte>)
    requires rows != [] && forall i :: 0 <= i < |rows| ==> NL !in rows[i]
    ensures SplitOn(JoinWith(rows, NL) + [NL] + rest, NL) == rows + SplitOn(rest, NL)
  {
    if |rows| == 1 {
      SplitOnFirst(rows[0], NL, rest);
    } else {
      var head, tail := rows[0] + [NL], JoinWith(rows[1..], NL);
      SplitJoin(rows[1..], rest);
      assert JoinWith(rows, NL) == head + tail;
      Assoc(head, tail + [NL], rest);
      Assoc(head, tail, [NL]);
      SplitOnFirst(rows[0], NL, tail + [NL] + rest);
      Assoc([rows[0]], rows[1..], SplitOn(rest, NL));
      assert [rows[0]] + rows[1..] == rows;
    }
  }

  /**
   * Saving and reading back gives the same rows when no row holds a line feed
   * or ends in a carriage return; an empty buffer is saved as "\n", which
   * reads back as one empty row.
   */
  lemma ReadLinesRowsToString(rows: seq<seq<byte>>)
    requires forall i :: 0 <= i < |rows| ==> PlainRow(rows[i])
    ensures rows != [] ==> ReadLines(RowsToString(rows)) == rows
    ensures rows == [] ==> ReadLines(RowsToString(rows)) == [[]]
  {
    var s := RowsToString(rows);
    if rows == [] {
      assert s == [NL];
      SplitOnFirst([], NL, []);
      assert [] + [NL] + [] == [NL];
    } else {
      SplitJoin(rows, []);
      assert s == JoinWith(rows, NL) + [NL] + [];
      var pieces := rows + [[]];
      assert SplitOn(s, NL) == pieces;
      assert pieces[..|pieces| - 1] == rows;
      assert StripAll(rows) == rows;
    }
  }

  /** Joining examples: two rows, and the empty buffer. */
  lemma RowsToStringExamples()
    ensures RowsToString([[B('a')], [B('b')]]) == [B('a'), NL, B('b'), NL]
    ensures RowsToString([]) == [NL]
  {
    var rows := [[B('a')], [B('b')]];
    assert rows[1..] == [[B('b')]];
  }
}
