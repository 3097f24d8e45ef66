/**
 * The coordinate arithmetic of the legacy editor widget, hex_editor.cpp,
 * as functions of the values it reads. The widget class in hex_editor.dfy
 * is specified by these functions.
 *
 * The hex area starts at pixel column_width(11); every byte takes three
 * character cells (two nibbles and a separator). column_width(n) and
 * column_height(n) are not defined in the modelled files: they are taken
 * to be n * font_width and n * font_height.
 */
module EditorGeometry {
  import opened Primitives

  /** The widget's layout: byte columns, text rows and the font cell, in pixels. */
  datatype Layout = Layout(columns: int, rows: int, fontWidth: int, fontHeight: int,
                           verticalOffset: int, verticalShift: int)
  {
    predicate Valid()
    {
      columns > 0 && rows > 0 && fontWidth > 0 && fontHeight > 0
    }

    function ColumnWidth(n: int): int
    {
      n * fontWidth
    }

    function ColumnHeight(n: int): int
    {
      n * fontHeight
    }

    /** The x the cursor is put at when it wraps to the end of a row. */
    function LastColumn(): int
    {
      (columns - 1) * ColumnWidth(4) - ColumnWidth(3)
    }
  }

  /** The scroll offset in bytes, the cursor position and the cursor blink state. */
  datatype Nav = Nav(offset: int, cursor: Point, blink: bool)

  /** The offset invariant: a non-negative whole number of rows. */
  predicate Aligned(g: Layout, offset: int)
    requires g.Valid()
  {
    offset >= 0 && offset % g.columns == 0
  }

  /**
   * get_buffer_position: the nibble under the pixel (x, y), or the byte
   * when `byteAlign` is set. Cell k of a row gives nibble k - k/3, since
   * every third cell is a separator.
   */
  function BufferPosition(g: Layout, offset: int, x: int, y: int, byteAlign: bool): (r: int)
    requires g.Valid()
    ensures x == g.ColumnWidth(11) && y == g.verticalOffset ==> r == (if byteAlign then offset else 2 * offset)
  {
    TDivOfMultiple(offset, 2);
    var cell := TDiv(x - g.ColumnWidth(11), g.fontWidth);
    var column := cell - TDiv(cell, 3);
    var nibble := TDiv(y - g.verticalOffset, g.fontHeight) * g.columns * 2 + column + offset * 2;
    if byteAlign then TDiv(nibble, 2) else nibble
  }

  /** Lines 653-656: a column past the last one wraps to the start of the next row. */
  function WrapRight(g: Layout, column: int, y: int): Point
    requires g.Valid()
  {
    if column > g.LastColumn() then Point(g.ColumnWidth(11), y + g.fontHeight) else Point(column, y)
  }

  /**
   * Lines 641-656 of update_cursor_position: the column the cursor goes to
   * and the row it moves to. Left of the hex area it wraps to the end of
   * the previous row, past the end to the start of the next.
   */
  function WrapColumn(g: Layout, offset: int, x: int, y: int): Option<Point>
    requires g.Valid()
  {
    if x < g.ColumnWidth(11) - g.fontWidth then
      if y < g.verticalOffset then Some(WrapRight(g, g.ColumnWidth(11), y - g.fontHeight))
      else if offset != 0 || y > g.verticalOffset then Some(WrapRight(g, g.LastColumn(), y - g.fontHeight))
      else None
    else
      Some(WrapRight(g, x - TRem(x, g.fontWidth), y))
  }

  /**
   * The single refusal of the wrapping step is a step left of the first
   * column on the top row at offset 0. Otherwise the column lands on the
   * character grid, within the last column of the row, and the row moves
   * by at most one.
   */
  lemma {:induction false} WrapColumnFacts(g: Layout, offset: int, x: int, y: int)
    requires g.Valid()
    ensures WrapColumn(g, offset, x, y).None? <==>
      x < g.ColumnWidth(11) - g.fontWidth && y == g.verticalOffset && offset == 0
    ensures var r := WrapColumn(g, offset, x, y);
      r.Some? ==> TRem(r.value.x, g.fontWidth) == 0
    ensures var r := WrapColumn(g, offset, x, y);
      r.Some? ==> r.value.y == y - g.fontHeight || r.value.y == y || r.value.y == y + g.fontHeight
    ensures var r := WrapColumn(g, offset, x, y);
      r.Some? && g.columns >= 5 ==> r.value.x <= g.LastColumn()
  {
    OnGrid(g, x);
    LastColumnFacts(g);
  }

  /** The last column is cell 4 * columns - 7, right of the first hex cell once there are five columns. */
  lemma LastColumnFacts(g: Layout)
    requires g.Valid()
    ensures g.LastColumn() == (4 * g.columns - 7) * g.fontWidth
    ensures g.columns >= 5 ==> g.ColumnWidth(11) <= g.LastColumn()
  {
    var c, w := g.columns, g.fontWidth;
    calc {
      g.LastColumn();
      (c - 1) * (4 * w) - 3 * w;
      { assert (c - 1) * (4 * w) == (4 * c - 4) * w; }
      (4 * c - 4) * w - 3 * w;
      (4 * c - 7) * w;
    }
    if c >= 5 {
      MulAtLeast(w, 4 * c - 7, 11);
    }
  }

  /** The three columns WrapColumn can choose lie on the character grid. */
  lemma OnGrid(g: Layout, x: int)
    requires g.Valid()
    ensures TRem(g.ColumnWidth(11), g.fontWidth) == 0
    ensures TRem(g.LastColumn(), g.fontWidth) == 0
    ensures TRem(x - TRem(x, g.fontWidth), g.fontWidth) == 0
  {
    TDivOfMultiple(11, g.fontWidth);
    LastColumnFacts(g);
    TDivOfMultiple(4 * g.columns - 7, g.fontWidth);
    assert x - TRem(x, g.fontWidth) == TDiv(x, g.fontWidth) * g.fontWidth;
    TDivOfMultiple(TDiv(x, g.fontWidth), g.fontWidth);
  }

  /** The column, row and offset after the scrolling step of update_cursor_position. */
  datatype Scrolled = Scrolled(offset: int, column: int, y: int)

  /**
   * Lines 658-675: below the last row the view scrolls down one row while
   * the buffer has more to show, and otherwise the cursor snaps to the last
   * column; above the first row it scrolls up one row while the offset is
   * positive.
   */
  function ScrollRow(g: Layout, size: int, offset: int, column: int, y: int): Scrolled
    requires g.Valid()
  {
    var down :=
      if y > g.rows * g.fontHeight then
        if offset < size - g.columns * g.rows then Scrolled(offset + g.columns, column, y - g.fontHeight)
        else Scrolled(offset, g.LastColumn(), y - g.fontHeight)
      else
        Scrolled(offset, column, y);
    if down.y < 0 && down.offset > 0 then
      Scrolled(down.offset - g.columns, down.column, down.y + g.fontHeight)
    else
      down
  }

  /**
   * The scrolling step moves the offset by at most one row: down exactly
   * when the cursor leaves the last row and more data follows, up exactly
   * when it leaves the first row at a positive offset. Past the end of the
   * data the cursor snaps to the last column instead.
   */
  lemma {:induction false} ScrollRowFacts(g: Layout, size: int, offset: int, column: int, y: int)
    requires g.Valid()
    ensures ScrollRow(g, size, offset, column, y).offset == offset + g.columns <==>
      y > g.rows * g.fontHeight && offset < size - g.columns * g.rows
    ensures ScrollRow(g, size, offset, column, y).offset == offset - g.columns <==>
      y < 0 && offset > 0
    ensures var r := ScrollRow(g, size, offset, column, y);
      r.offset == offset || r.offset == offset + g.columns || r.offset == offset - g.columns
    ensures y > g.rows * g.fontHeight && offset >= size - g.columns * g.rows ==>
      ScrollRow(g, size, offset, column, y).column == g.LastColumn()
    ensures var r := ScrollRow(g, size, offset, column, y);
      r.column == column || r.column == g.LastColumn()
  {
    MulAtLeast(g.fontHeight, g.rows, 1);
  }

  /**
   * Lines 676-684 of update_cursor_position: the cursor takes the row of
   * `s.y` when that lies inside the view (otherwise it keeps its row), and
   * the column, moved one cell right when the column's pixel value is 2
   * modulo 3.
   */
  function Settle(g: Layout, cursorY: int, s: Scrolled): Point
    requires g.Valid()
  {
    var cy :=
      if s.y > 0 && s.y < g.ColumnHeight(g.rows) then RowTop(g, s.y) + g.verticalOffset
      else cursorY;
    var cx := if TRem(s.column, 3) != 2 then s.column else s.column + g.fontWidth;
    Point(cx, cy)
  }

  /**
   * A column on the character grid stays on it, and the cursor either
   * keeps its row or goes to the top of a row inside the view.
   */
  lemma {:induction false} SettleFacts(g: Layout, cursorY: int, s: Scrolled)
    requires g.Valid() && TRem(s.column, g.fontWidth) == 0
    ensures TRem(Settle(g, cursorY, s).x, g.fontWidth) == 0
    ensures var p := Settle(g, cursorY, s);
      p.y == cursorY ||
      (g.verticalOffset <= p.y < g.verticalOffset + g.rows * g.fontHeight &&
       TRem(p.y - g.verticalOffset, g.fontHeight) == 0)
  {
    NextCellOnGrid(g, s.column);
    if s.y > 0 && s.y < g.ColumnHeight(g.rows) {
      RowTopFacts(g, s.y);
    }
  }

  /** The top pixel of the row holding `y`. */
  function RowTop(g: Layout, y: int): int
    requires g.Valid()
  {
    y - TRem(y, g.fontHeight)
  }

  /** For a `y` inside the view, the top of its row is a row boundary inside the view. */
  lemma {:induction false} RowTopFacts(g: Layout, y: int)
    requires g.Valid() && 0 < y < g.ColumnHeight(g.rows)
    ensures var t := RowTop(g, y);
      0 <= t < g.rows * g.fontHeight && TRem(t, g.fontHeight) == 0
  {
    var q := TDiv(y, g.fontHeight);
    var t := y - TRem(y, g.fontHeight);
    assert t == g.fontHeight * q;
    MulAtLeast(g.fontHeight, q, 0);
    assert t == q * g.fontHeight;
    TDivOfMultiple(q, g.fontHeight);
  }

  lemma NextCellOnGrid(g: Layout, column: int)
    requires g.Valid() && TRem(column, g.fontWidth) == 0
    ensures TRem(column + g.fontWidth, g.fontWidth) == 0
  {
    var k := TDiv(column, g.fontWidth);
    assert column + g.fontWidth == (k + 1) * g.fontWidth;
    TDivOfMultiple(k + 1, g.fontWidth);
  }

  /**
   * A step of one row either way keeps an aligned offset aligned, provided
   * a step up is only taken from a positive offset.
   */
  lemma RowStepAligned(g: Layout, offset: int, next: int)
    requires g.Valid()
    requires next == offset || next == offset + g.columns || next == offset - g.columns
    requires next == offset - g.columns ==> offset > 0
    ensures Aligned(g, offset) ==> Aligned(g, next)
  {
    if !Aligned(g, offset) {
    } else if next == offset + g.columns {
      MultipleStep(offset, g.columns, 1);
    } else if next == offset - g.columns && next != offset {
      var q := TDiv(offset, g.columns);
      assert offset == g.columns * q;
      MulAtLeast(g.columns, q, 1);
      MultipleStep(offset, g.columns, -1);
    }
  }

  /**
   * update_cursor_position: the new offset, cursor and blink state, or None
   * when the request is refused and nothing changes.
   */
  function CursorUpdate(g: Layout, size: int, n: Nav, x: int, y: int): (r: Option<Nav>)
    requires g.Valid()
    ensures r.Some? ==> r.value.blink && BufferPosition(g, n.offset, x, y, true) <= size
  {
    if BufferPosition(g, n.offset, x, y, true) > size then None
    else
      match WrapColumn(g, n.offset, x, y)
      case None => None
      case Some(p) =>
        var s := ScrollRow(g, size, n.offset, p.x, p.y);
        Some(Nav(s.offset, Settle(g, n.cursor.y, s), true))
  }

  /**
   * A request is refused exactly when the byte under (x, y) lies past the
   * buffer's size or it steps left of the first column on the top row at
   * offset 0. An accepted one turns the cursor on, moves the offset by at
   * most one row (down only while data follows the view, up only from a
   * positive offset, so an aligned offset stays aligned), and leaves the
   * cursor on the character grid, on its old row or at the top of a row
   * inside the view.
   */
  lemma {:induction false} CursorUpdateFacts(g: Layout, size: int, n: Nav, x: int, y: int)
    requires g.Valid()
    ensures CursorUpdate(g, size, n, x, y).None? <==>
      BufferPosition(g, n.offset, x, y, true) > size ||
      (x < g.ColumnWidth(11) - g.fontWidth && y == g.verticalOffset && n.offset == 0)
    ensures var r := CursorUpdate(g, size, n, x, y);
      r.Some? ==> r.value.blink
    ensures var r := CursorUpdate(g, size, n, x, y);
      r.Some? ==>
        r.value.offset == n.offset || r.value.offset == n.offset + g.columns ||
        r.value.offset == n.offset - g.columns
    ensures var r := CursorUpdate(g, size, n, x, y);
      r.Some? && r.value.offset == n.offset + g.columns ==> n.offset < size - g.columns * g.rows
    ensures var r := CursorUpdate(g, size, n, x, y);
      r.Some? && r.value.offset == n.offset - g.columns ==> n.offset > 0
    ensures var r := CursorUpdate(g, size, n, x, y);
      r.Some? && Aligned(g, n.offset) ==> Aligned(g, r.value.offset)
    ensures var r := CursorUpdate(g, size, n, x, y);
      r.Some? ==> TRem(r.value.cursor.x, g.fontWidth) == 0
    ensures var r := CursorUpdate(g, size, n, x, y);
      r.Some? ==>
        (r.value.cursor.y == n.cursor.y ||
         (g.verticalOffset <= r.value.cursor.y < g.verticalOffset + g.rows * g.fontHeight &&
          TRem(r.value.cursor.y - g.verticalOffset, g.fontHeight) == 0))
  {
    WrapColumnFacts(g, n.offset, x, y);
    if BufferPosition(g, n.offset, x, y, true) <= size && WrapColumn(g, n.offset, x, y).Some? {
      var p := WrapColumn(g, n.offset, x, y).value;
      var s := ScrollRow(g, size, n.offset, p.x, p.y);
      ScrollRowFacts(g, size, n.offset, p.x, p.y);
      RowStepAligned(g, n.offset, s.offset);
      OnGrid(g, p.x);
      SettleFacts(g, n.cursor.y, s);
    }
  }

  /**
   * The cursor can come to rest past the data: the size test looks only at
   * the requested point, and the scroll test at y > rows * font_height
   * ignores vertical_offset. With 16 columns, 32 rows, an 8 by 14 font and
   * a 517-byte buffer, a request at (448, 451) is accepted, scrolls one row
   * and leaves the cursor on byte 527.
   */
  lemma CursorPastData()
    ensures var g := Layout(16, 32, 8, 14, 6, 14);
      CursorUpdate(g, 517, Nav(0, Point(88, 6), false), 448, 451) == Some(Nav(16, Point(448, 440), true)) &&
      BufferPosition(g, 16, 448, 440, true) == 527
  {
    var g := Layout(16, 32, 8, 14, 6, 14);
    TDivUnique(360, 8, 45, 0);
    TDivUnique(45, 3, 15, 0);
    TDivUnique(445, 14, 31, 11);
    TDivUnique(1022, 2, 511, 0);
    assert BufferPosition(g, 0, 448, 451, true) == 511;
    TDivUnique(448, 8, 56, 0);
    assert WrapColumn(g, 0, 448, 451) == Some(Point(448, 451));
    assert ScrollRow(g, 517, 0, 448, 451) == Scrolled(16, 448, 437);
    TDivUnique(437, 14, 31, 3);
    TDivUnique(448, 3, 149, 1);
    assert Settle(g, 6, Scrolled(16, 448, 437)) == Point(448, 440);
    TDivUnique(434, 14, 31, 0);
    TDivUnique(1054, 2, 527, 0);
  }

  /** update_cursor_position's effect: a refused request leaves everything as it was. */
  function Move(g: Layout, size: int, n: Nav, x: int, y: int): Nav
    requires g.Valid()
  {
    match CursorUpdate(g, size, n, x, y)
    case None => n
    case Some(m) => m
  }

  /**
   * A cursor move keeps an aligned offset aligned, keeps an offset that is
   * within the buffer within it, and moves the offset by at most one row;
   * a refused move changes nothing.
   */
  lemma {:induction false} MoveFacts(g: Layout, size: int, n: Nav, x: int, y: int)
    requires g.Valid()
    ensures Aligned(g, n.offset) ==> Aligned(g, Move(g, size, n, x, y).offset)
    ensures var r := Move(g, size, n, x, y);
      r.offset == n.offset || r.offset == n.offset + g.columns || r.offset == n.offset - g.columns
    ensures Abs(Move(g, size, n, x, y).offset - n.offset) <= g.columns
    ensures n.offset <= size ==> Move(g, size, n, x, y).offset <= size
  {
    CursorUpdateFacts(g, size, n, x, y);
    MulAtLeast(g.columns, g.rows, 1);
  }

  /**
   * `ticks` cursor steps of one row in the scroll direction, as the loop
   * of auto_scroll_update takes them.
   */
  function ScrollTicks(g: Layout, size: int, n: Nav, down: bool, ticks: nat): Nav
    requires g.Valid()
    decreases ticks
  {
    if ticks == 0 then n else ScrollTicks(g, size, Tick(g, size, n, down), down, ticks - 1)
  }

  /** One auto-scroll tick: the cursor moves one row down or up. */
  function Tick(g: Layout, size: int, n: Nav, down: bool): Nav
    requires g.Valid()
  {
    Move(g, size, n, n.cursor.x, TickY(g, n, down))
  }

  /** The row a tick sends the cursor to: one row down or up. */
  function TickY(g: Layout, n: Nav, down: bool): int
  {
    if down then n.cursor.y + g.fontHeight else n.cursor.y - g.fontHeight
  }

  /**
   * Auto-scrolling keeps the offset a non-negative whole number of rows,
   * and keeps an offset within the buffer within it.
   */
  lemma {:induction false} ScrollTicksStayAligned(g: Layout, size: int, n: Nav, down: bool, ticks: nat)
    requires g.Valid()
    ensures Aligned(g, n.offset) ==> Aligned(g, ScrollTicks(g, size, n, down, ticks).offset)
    ensures n.offset <= size ==> ScrollTicks(g, size, n, down, ticks).offset <= size
    decreases ticks
  {
    if ticks > 0 {
      MoveFacts(g, size, n, n.cursor.x, TickY(g, n, down));
      ScrollTicksStayAligned(g, size, Tick(g, size, n, down), down, ticks - 1);
    }
  }

  /** Each tick moves the offset by at most one row. */
  lemma {:induction false} ScrollTicksDrift(g: Layout, size: int, n: Nav, down: bool, ticks: nat)
    requires g.Valid()
    ensures Abs(ScrollTicks(g, size, n, down, ticks).offset - n.offset) <= ticks * g.columns
    decreases ticks
  {
    if ticks > 0 {
      var m := Tick(g, size, n, down);
      MoveFacts(g, size, n, n.cursor.x, TickY(g, n, down));
      ScrollTicksDrift(g, size, m, down, ticks - 1);
      DriftStep(n.offset, m.offset, ScrollTicks(g, size, n, down, ticks).offset, g.columns, ticks);
    }
  }

  lemma DriftStep(start: int, before: int, after: int, c: int, ticks: int)
    requires c > 0 && ticks > 0 && Abs(before - start) <= c
    requires Abs(after - before) <= (ticks - 1) * c
    ensures Abs(after - start) <= ticks * c
  {
    assert ticks * c == (ticks - 1) * c + c;
  }

  /**
   * The pixel inside cell h (0 and 1 are the two nibbles, 2 the separator)
   * of byte column b on row `row` resolves to nibble h of byte
   * offset + row * columns + b; the separator counts as the next byte's
   * high nibble.
   */
  lemma {:induction false} CellPosition(g: Layout, offset: int, b: int, h: int, dx: int, row: int, dy: int)
    requires g.Valid() && 0 <= offset && 0 <= b && 0 <= h <= 2 && 0 <= dx < g.fontWidth
    requires 0 <= row && 0 <= dy < g.fontHeight
    ensures var x, y := g.ColumnWidth(11 + 3 * b + h) + dx, g.verticalOffset + g.ColumnHeight(row) + dy;
      BufferPosition(g, offset, x, y, false) == 2 * (offset + row * g.columns + b) + h &&
      BufferPosition(g, offset, x, y, true) == offset + row * g.columns + b + (if h == 2 then 1 else 0)
  {
    var x, y := g.ColumnWidth(11 + 3 * b + h) + dx, g.verticalOffset + g.ColumnHeight(row) + dy;
    CellColumn(g, b, h, dx);
    TDivUnique(3 * b + h, 3, b, h);
    CellRow(g, row, dy);
    var k := offset + row * g.columns + b;
    NibbleSum(g.columns, offset, row, b, h);
    if h == 2 {
      TDivUnique(2 * k + h, 2, k + 1, 0);
    } else {
      TDivUnique(2 * k + h, 2, k, h);
    }
  }

  /**
   * Every nibble from the offset on lies under some pixel of the hex area:
   * get_buffer_position gives it, and the byte holding it when byte-aligned.
   */
  lemma {:induction false} EveryNibbleReachable(g: Layout, offset: int, n: int)
    requires g.Valid() && 0 <= offset && 2 * offset <= n
    ensures exists x, y :: BufferPosition(g, offset, x, y, false) == n && BufferPosition(g, offset, x, y, true) == n / 2
  {
    var k, h := n / 2, n % 2;
    var row, b := (k - offset) / g.columns, (k - offset) % g.columns;
    assert k - offset == g.columns * row + b;
    CellPosition(g, offset, b, h, 0, row, 0);
    var x, y := g.ColumnWidth(11 + 3 * b + h) + 0, g.verticalOffset + g.ColumnHeight(row) + 0;
    assert BufferPosition(g, offset, x, y, false) == n;
  }

  /**
   * The pixel of the low nibble of byte column b is a multiple of 3, so a
   * `x % 3 != 1` test on it always passes, whatever the font width.
   */
  lemma LowNibblePixel(g: Layout, b: int)
    requires g.Valid() && 0 <= b
    ensures TRem(g.ColumnWidth(12 + 3 * b), 3) == 0
  {
    assert g.ColumnWidth(12 + 3 * b) == ((4 + b) * g.fontWidth) * 3;
    TDivOfMultiple((4 + b) * g.fontWidth, 3);
  }

  lemma CellColumn(g: Layout, b: int, h: int, dx: int)
    requires g.Valid() && 0 <= b && 0 <= h && 0 <= dx < g.fontWidth
    ensures TDiv(g.ColumnWidth(11 + 3 * b + h) + dx - g.ColumnWidth(11), g.fontWidth) == 3 * b + h
  {
    assert g.ColumnWidth(11 + 3 * b + h) + dx - g.ColumnWidth(11) == g.fontWidth * (3 * b + h) + dx;
    TDivUnique(g.ColumnWidth(11 + 3 * b + h) + dx - g.ColumnWidth(11), g.fontWidth, 3 * b + h, dx);
  }

  lemma CellRow(g: Layout, row: int, dy: int)
    requires g.Valid() && 0 <= row && 0 <= dy < g.fontHeight
    ensures TDiv(g.verticalOffset + g.ColumnHeight(row) + dy - g.verticalOffset, g.fontHeight) == row
  {
    assert g.verticalOffset + g.ColumnHeight(row) + dy - g.verticalOffset == g.fontHeight * row + dy;
    TDivUnique(g.fontHeight * row + dy, g.fontHeight, row, dy);
  }

  lemma NibbleSum(c: int, offset: int, row: int, b: int, h: int)
    requires c > 0 && row >= 0
    ensures row * c * 2 + ((3 * b + h) - b) + offset * 2 == 2 * (offset + row * c + b) + h
    ensures offset + row * c + b >= offset + b
  {
    MulAtLeast(c, row, 0);
  }

  /** Moving the view down one row moves every pixel one row further into the buffer. */
  lemma {:induction false} BufferPositionShift(g: Layout, offset: int, x: int, y: int)
    requires g.Valid()
    ensures BufferPosition(g, offset + g.columns, x, y, false) ==
            BufferPosition(g, offset, x, y, false) + 2 * g.columns
    ensures BufferPosition(g, offset, x, y, true) == TDiv(BufferPosition(g, offset, x, y, false), 2)
  {
    assert (offset + g.columns) * 2 == offset * 2 + 2 * g.columns;
  }

  /** The rows of data on screen: whole rows of the buffer, at most the view's height. */
  function CurrentRows(g: Layout, size: int): int
    requires g.Valid()
  {
    var q := TDiv(size, g.columns);
    if q > g.rows then g.rows else q
  }

  /**
   * The x the editor gives a cursor sent to the end of the data: the cell
   * after the last byte in the last row of data, or the separator
   * cell after the last byte of a full row.
   */
  function EndColumn(g: Layout, size: int): (x: int)
    requires g.Valid()
  {
    var m := TRem(size, g.columns) * 3 + 11;
    g.ColumnWidth(if m != 11 then m else g.columns * 3 + 10)
  }

  /**
   * The end-of-data position update_undo_action, update_selection and
   * wheelEvent jump to; its row is counted from the top of the view (see
   * EndOfDataPosition).
   */
  function EndOfData(g: Layout, size: int): Point
    requires g.Valid()
  {
    Point(EndColumn(g, size), g.ColumnHeight(CurrentRows(g, size)) + g.verticalOffset)
  }

  /**
   * While the data fits in the view, the end-of-data position resolves to
   * byte `offset + size` when the last row is partial: its row is counted
   * from the top of the view, so it is just past the data at offset 0 and
   * `offset` bytes further once scrolled. When the size is a whole number
   * of rows it resolves one row further on, since the row index counts the
   * full rows.
   */
  lemma {:induction false} EndOfDataPosition(g: Layout, size: int, offset: int)
    requires g.Valid() && 0 <= size && 0 <= offset && TDiv(size, g.columns) < g.rows
    ensures var p := EndOfData(g, size);
      (TRem(size, g.columns) != 0 ==> BufferPosition(g, offset, p.x, p.y, true) == offset + size) &&
      (TRem(size, g.columns) == 0 ==> BufferPosition(g, offset, p.x, p.y, true) == offset + size + g.columns)
  {
    var p := EndOfData(g, size);
    var q, m := TDiv(size, g.columns), TRem(size, g.columns);
    assert size == g.columns * q + m;
    assert p.y == g.verticalOffset + g.ColumnHeight(q) + 0;
    if m != 0 {
      assert p.x == g.ColumnWidth(11 + 3 * m + 0) + 0;
      CellPosition(g, offset, m, 0, 0, q, 0);
      assert q * g.columns + m == size;
    } else {
      assert p.x == g.ColumnWidth(11 + 3 * (g.columns - 1) + 2) + 0;
      CellPosition(g, offset, g.columns - 1, 2, 0, q, 0);
      assert q * g.columns == size;
    }
  }

  /**
   * The offset and cursor part of wheelEvent for `steps` notches (positive
   * scrolls up). Up clamps the offset at 0 and the cursor at the first row;
   * down moves only while the offset is inside the buffer and the new one
   * leaves the last screen of data in view; otherwise the cursor moves down
   * and stops at the end of the data.
   */
  function WheelNav(g: Layout, size: int, n: Nav, steps: int): Nav
    requires g.Valid()
  {
    var cr := CurrentRows(g, size);
    if steps > 0 then
      if n.offset - g.columns * steps < 0 then
        var y := n.cursor.y - g.ColumnHeight(steps);
        Nav(0, Point(n.cursor.x, if y < g.verticalOffset then g.verticalOffset else y), n.blink)
      else
        Nav(n.offset - g.columns * steps, Point(n.cursor.x, n.cursor.y + g.ColumnHeight(steps)), n.blink)
    else if steps < 0 && n.offset < size then
      if n.offset + g.columns * -steps > size - g.columns * cr then
        var last := if cr == g.rows then cr - 1 else cr;
        var y := n.cursor.y + g.ColumnHeight(-steps);
        if y > g.ColumnHeight(last) then
          Nav(n.offset, Point(EndColumn(g, size), g.ColumnHeight(last) + g.verticalOffset), n.blink)
        else
          Nav(n.offset, Point(n.cursor.x, y), n.blink)
      else
        Nav(n.offset + g.columns * -steps, Point(n.cursor.x, n.cursor.y - g.ColumnHeight(-steps)), n.blink)
    else
      n
  }

  /**
   * No notches change nothing. Scrolling up moves the view up by `steps`
   * rows exactly when that keeps the offset non-negative, and otherwise to
   * offset 0. Scrolling down either leaves the offset alone or moves it
   * down by `-steps` rows, and only from an offset inside the buffer to one
   * that keeps the last screen of data in view. The blink state is kept and
   * the cursor keeps its column unless it is sent to the end of the data.
   */
  lemma {:induction false} WheelNavFacts(g: Layout, size: int, n: Nav, steps: int)
    requires g.Valid()
    ensures steps == 0 ==> WheelNav(g, size, n, steps) == n
    ensures steps > 0 ==>
      (WheelNav(g, size, n, steps).offset == n.offset - g.columns * steps <==> n.offset - g.columns * steps >= 0)
    ensures var r := WheelNav(g, size, n, steps);
      steps > 0 && r.offset != n.offset - g.columns * steps ==> r.offset == 0
    ensures var r := WheelNav(g, size, n, steps);
      steps < 0 ==>
        (r.offset == n.offset ||
         (r.offset == n.offset - g.columns * steps && n.offset < size &&
          r.offset <= size - g.columns * CurrentRows(g, size)))
    ensures WheelNav(g, size, n, steps).blink == n.blink
    ensures var r := WheelNav(g, size, n, steps);
      r.cursor.x == n.cursor.x || r.cursor.x == EndColumn(g, size)
  {
  }

  /**
   * The wheel keeps the offset a non-negative whole number of rows, and
   * keeps an offset within the buffer within it.
   */
  lemma {:induction false} WheelStaysAligned(g: Layout, size: int, n: Nav, steps: int)
    requires g.Valid()
    ensures Aligned(g, n.offset) ==> Aligned(g, WheelNav(g, size, n, steps).offset)
    ensures 0 <= n.offset <= size ==> WheelNav(g, size, n, steps).offset <= size
  {
    var r := WheelNav(g, size, n, steps);
    WheelNavFacts(g, size, n, steps);
    if 0 <= n.offset <= size {
      MulAtLeast(g.columns, CurrentRows(g, size), 0);
    }
    if Aligned(g, n.offset) && r.offset != n.offset && r.offset != 0 {
      assert r.offset == n.offset + (-steps) * g.columns;
      MultipleStep(n.offset, g.columns, -steps);
    }
  }

  /**
   * Scrolling down and then up by the same amount restores the offset and
   * the cursor when the first scroll was not cut short at the end of the
   * data.
   */
  lemma {:induction false} WheelRoundTrip(g: Layout, size: int, n: Nav, steps: int)
    requires g.Valid() && steps < 0 && 0 <= n.offset < size
    requires n.offset - g.columns * steps <= size - g.columns * CurrentRows(g, size)
    ensures WheelNav(g, size, WheelNav(g, size, n, steps), -steps) == n
  {
    var m := WheelNav(g, size, n, steps);
    assert m.offset == n.offset + g.columns * -steps;
    assert m.offset - g.columns * -steps == n.offset;
  }

  /**
   * get_selection_point: a selection end above the view is drawn from the
   * first cell of the top row, one below it up to the last cell of the
   * bottom row; anything else is drawn where it is.
   */
  function SelectionPoint(g: Layout, p: Point): (r: Point)
    requires g.Valid()
    ensures p.y < 0 ==> r == Point(g.ColumnWidth(11), g.verticalOffset)
    ensures 0 <= p.y <= g.ColumnHeight(g.rows) + g.verticalOffset - g.fontHeight ==> r == p
    ensures g.verticalOffset >= 0 ==> 0 <= r.y <= g.ColumnHeight(g.rows) + g.verticalOffset - g.fontHeight
  {
    MulAtLeast(g.fontHeight, g.rows, 1);
    if p.y < 0 then Point(g.ColumnWidth(11), g.verticalOffset)
    else if p.y > g.ColumnHeight(g.rows) + g.verticalOffset - g.fontHeight then
      Point(g.ColumnWidth(11 + g.columns * 3) - g.fontWidth, g.ColumnHeight(g.rows) + g.verticalOffset - g.fontHeight)
    else p
  }

  /** Clamping a selection end twice is clamping it once. */
  lemma {:induction false} SelectionPointIdempotent(g: Layout, p: Point)
    requires g.Valid() && g.verticalOffset >= 0
    ensures SelectionPoint(g, SelectionPoint(g, p)) == SelectionPoint(g, p)
  {
    var r := SelectionPoint(g, p);
    assert 0 <= r.y <= g.ColumnHeight(g.rows) + g.verticalOffset - g.fontHeight;
  }
}
