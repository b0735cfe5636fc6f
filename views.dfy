/**
 * The viewport: how scrolling keeps the cursor on screen (scroll, editor_scroll),
 * where the cursor is drawn (cursor_placement), and the text rows of a frame
 * (frame_content, editor_draw_content).
 */
module Views {
  import opened Bytes
  import opened Lines

  // ---------------------------------------------------------------------------
  // Scrolling
  // ---------------------------------------------------------------------------

  function Dist(a: nat, b: nat): nat { if a <= b then b - a else a - b }

  /**
   * The offset of a window of `size` cells after scrolling to `pos`: moved
   * back to `pos` when it is before the window, moved forward just enough when
   * it is past the window, unchanged otherwise.
   */
  function ScrollOffset(pos: nat, offset: nat, size: nat): (r: nat)
    ensures size >= 1 ==> r <= pos < r + size
    ensures offset <= pos < offset + size ==> r == offset
  {
    if pos < offset then pos
    else if pos >= offset + size then 1 + pos - size
    else offset
  }

  /** Scrolling moves the window as little as possible: no offset that shows `pos` is closer to the old one. */
  lemma ScrollIsMinimal(pos: nat, offset: nat, size: nat, other: nat)
    requires size >= 1 && other <= pos < other + size
    ensures Dist(ScrollOffset(pos, offset, size), offset) <= Dist(other, offset)
  {
  }

  /** place_cursor sets the row offset to the line count, so the next scroll puts the cursor's row on top. */
  lemma PlaceThenScroll(row: nat, lineCount: nat, rows: nat)
    requires row < lineCount
    ensures ScrollOffset(row, lineCount, rows) == row
  {
  }

  /** The rendered column of the cursor: the render position in its row, 0 below the text. */
  function RenderColumn(rows: seq<seq<byte>>, row: nat, col: nat): nat
  {
    if row < |rows| then RenderPos(rows[row], col) else 0
  }

  /**
   * On a row without tabs the rendered column is the logical one, and moving
   * the cursor right never moves its rendered column left.
   */
  lemma RenderColumnBounds(rows: seq<seq<byte>>, row: nat, col: nat)
    requires row < |rows| && col <= |rows[row]|
    ensures NoTabs(rows[row]) ==> RenderColumn(rows, row, col) == col
    ensures RenderColumn(rows, row, col) <= RenderColumn(rows, row, col + 1)
  {
    if NoTabs(rows[row]) {
      RenderPosNoTabs(rows[row], col);
    }
    RenderPosMonotone(rows[row], col, col + 1);
  }

  /**
   * cursor_placement: the 1-based screen position of the cursor. The source
   * subtracts the offsets in unsigned arithmetic, which panics when the
   * cursor is left of or above the window.
   */
  function CursorPlacement(cursorRow: nat, rowOffset: nat, renderCol: nat, colOffset: nat): (r: (nat, nat))
    requires rowOffset <= cursorRow && colOffset <= renderCol
    ensures r.0 >= 1 && r.1 >= 1
    ensures r.0 + rowOffset == cursorRow + 1 && r.1 + colOffset == renderCol + 1
  {
    (cursorRow - rowOffset + 1, renderCol - colOffset + 1)
  }

  /** After scrolling a window of rows x cols, the cursor is drawn inside it and the placement cannot underflow. */
  lemma PlacementAfterScroll(cursorRow: nat, rowOffset: nat, renderCol: nat, colOffset: nat, rows: nat, cols: nat)
    requires rows >= 1 && cols >= 1
    ensures var ro, co := ScrollOffset(cursorRow, rowOffset, rows), ScrollOffset(renderCol, colOffset, cols);
      ro <= cursorRow && co <= renderCol &&
      1 <= CursorPlacement(cursorRow, ro, renderCol, co).0 <= rows &&
      1 <= CursorPlacement(cursorRow, ro, renderCol, co).1 <= cols
  {
  }

  // ---------------------------------------------------------------------------
  // Frames
  // ---------------------------------------------------------------------------

  /** Erase to the end of the line (ECMA-48 EL), then carriage return and line feed. */
  const ERASE_EOL: seq<byte> := [ESC, B('['), B('K'), CR, NL]

  /** The marker drawn on rows below the text. */
  const TILDE: seq<byte> := [B('~')]

  /** `line.chars().skip(skip).take(take)`. */
  function Clip(line: seq<byte>, skip: nat, take: nat): (r: seq<byte>)
    ensures |r| == Min(take, SatSub(|line|, skip))
    ensures forall i :: 0 <= i < |r| ==> r[i] == line[skip + i]
  {
    var rest := if skip <= |line| then line[skip..] else [];
    if take <= |rest| then rest[..take] else rest
  }

  function Fillers(n: nat): (r: seq<seq<byte>>)
    ensures |r| == n && forall i :: 0 <= i < n ==> r[i] == TILDE
  {
    seq(n, i => TILDE)
  }

  /** The rows skipped to the offset, then `fillers` markers. */
  function Sources(rendered: seq<seq<byte>>, rowOffset: nat, fillers: nat): seq<seq<byte>>
  {
    (if rowOffset <= |rendered| then rendered[rowOffset..] else []) + Fillers(fillers)
  }

  /** Each source clipped to the columns shown and ended with ERASE_EOL; at most `rows` of them. */
  function Segments(sources: seq<seq<byte>>, colOffset: nat, rows: nat, cols: nat): (r: seq<seq<byte>>)
    ensures |r| == Min(rows, |sources|)
  {
    var k := Min(rows, |sources|);
    seq(k, i requires 0 <= i < k => Clip(sources[i], colOffset, cols) + ERASE_EOL)
  }

  function Concat(segments: seq<seq<byte>>): seq<byte>
  {
    if segments == [] then [] else Concat(segments[..|segments| - 1]) + segments[|segments| - 1]
  }

  /** frame_content: as many markers as the window has rows beyond the visible text. */
  function FrameSegments(rendered: seq<seq<byte>>, rowOffset: nat, colOffset: nat, rows: nat, cols: nat): seq<seq<byte>>
  {
    Segments(Sources(rendered, rowOffset, SatSub(rows, SatSub(|rendered|, rowOffset))), colOffset, rows, cols)
  }

  function FrameContent(rendered: seq<seq<byte>>, rowOffset: nat, colOffset: nat, rows: nat, cols: nat): seq<byte>
  {
    Concat(FrameSegments(rendered, rowOffset, colOffset, rows, cols))
  }

  /**
   * The frame has exactly one segment per window row: screen row i shows the
   * columns [colOffset, colOffset + cols) of text row rowOffset + i when that
   * row exists, and the marker (also shifted by colOffset) otherwise.
   */
  lemma FrameShape(rendered: seq<seq<byte>>, rowOffset: nat, colOffset: nat, rows: nat, cols: nat)
    ensures var segs := FrameSegments(rendered, rowOffset, colOffset, rows, cols);
      |segs| == rows &&
      forall i :: 0 <= i < rows ==>
        segs[i] == (if rowOffset + i < |rendered| then Clip(rendered[rowOffset + i], colOffset, cols)
                    else Clip(TILDE, colOffset, cols)) + ERASE_EOL
  {
    var visible := SatSub(|rendered|, rowOffset);
    var src := Sources(rendered, rowOffset, SatSub(rows, visible));
    assert |src| == visible + SatSub(rows, visible);
    forall i | 0 <= i < rows
      ensures i < visible ==> src[i] == rendered[rowOffset + i]
      ensures i >= visible ==> src[i] == TILDE
    {
    }
  }

  /** editor_draw_content: the marker count ignores the row offset. */
  function LegacySegments(rendered: seq<seq<byte>>, rowOffset: nat, colOffset: nat, wsRow: nat, wsCol: nat): seq<seq<byte>>
  {
    Segments(Sources(rendered, rowOffset, SatSub(wsRow, |rendered|)), colOffset, wsRow, wsCol)
  }

  function LegacyDrawContent(rendered: seq<seq<byte>>, rowOffset: nat, colOffset: nat, wsRow: nat, wsCol: nat): seq<byte>
  {
    Concat(LegacySegments(rendered, rowOffset, colOffset, wsRow, wsCol))
  }

  /**
   * The older frame never has more segments than window rows, has exactly that
   * many when the row offset is 0, and in general has the visible rows plus
   * (window rows - line count) markers, capped at the window.
   */
  lemma LegacyShape(rendered: seq<seq<byte>>, rowOffset: nat, colOffset: nat, wsRow: nat, wsCol: nat)
    ensures var segs := LegacySegments(rendered, rowOffset, colOffset, wsRow, wsCol);
      |segs| == Min(wsRow, SatSub(|rendered|, rowOffset) + SatSub(wsRow, |rendered|)) &&
      |segs| <= wsRow &&
      (rowOffset == 0 ==> |segs| == wsRow)
  {
  }

  /** Scrolled down a three-row text by two rows, the older frame fills only three of five window rows. */
  lemma LegacyShortFrame()
    ensures |LegacySegments([[B('a')], [B('b')], [B('c')]], 2, 0, 5, 80)| == 3
    ensures |FrameSegments([[B('a')], [B('b')], [B('c')]], 2, 0, 5, 80)| == 5
  {
    FrameShape([[B('a')], [B('b')], [B('c')]], 2, 0, 5, 80);
  }

  lemma {:induction false} ConcatAppend(a: seq<seq<byte>>, b: seq<seq<byte>>)
    ensures Concat(a + b) == Concat(a) + Concat(b)
    decreases |b|
  {
    if b == [] {
      assert a + b == a;
    } else {
      var last := |b| - 1;
      assert (a + b)[..|a + b| - 1] == a + b[..last];
      ConcatAppend(a, b[..last]);
    }
  }

  /** The frame text is its segments in order, each ending in ERASE_EOL. */
  lemma FrameContentSegments(rendered: seq<seq<byte>>, rowOffset: nat, colOffset: nat, rows: nat, cols: nat)
    requires rows >= 1
    ensures var segs := FrameSegments(rendered, rowOffset, colOffset, rows, cols);
      |segs| == rows &&
      FrameContent(rendered, rowOffset, colOffset, rows, cols) == segs[0] + Concat(segs[1..]) &&
      forall i :: 0 <= i < rows ==> segs[i][|segs[i]| - 5..] == ERASE_EOL
  {
    FrameShape(rendered, rowOffset, colOffset, rows, cols);
    var segs := FrameSegments(rendered, rowOffset, colOffset, rows, cols);
    forall i | 0 <= i < rows
      ensures segs[i][|segs[i]| - 5..] == ERASE_EOL
    {
      var body := if rowOffset + i < |rendered| then Clip(rendered[rowOffset + i], colOffset, cols)
                  else Clip(TILDE, colOffset, cols);
      EndsWith(body, ERASE_EOL);
    }
    assert segs == [segs[0]] + segs[1..];
    ConcatAppend([segs[0]], segs[1..]);
    ConcatOne(segs[0]);
  }

  lemma EndsWith(a: seq<byte>, b: seq<byte>)
    ensures (a + b)[|a + b| - |b|..] == b
  {
  }

  lemma ConcatOne(x: seq<byte>)
    ensures Concat([x]) == x
  {
    assert [x][..0] == [];
  }
}
