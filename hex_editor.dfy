/**
 * The editor widget of hex_editor.cpp as a class whose fields its event
 * handlers update in place. Each method is proved to leave the widget in
 * the state the matching function of EditorModel computes from the old
 * one, so the properties proved there hold for the widget.
 *
 * The layout is fixed when the widget is built; the ROM buffer appears as
 * its size and a ghost log of the requests made of it.
 */
module HexEditor {
  import opened Primitives
  import opened EditorGeometry
  import opened Keys
  import opened EditorModel

  class HexEditor {
    const columns: int
    const rows: int
    const fontWidth: int
    const fontHeight: int
    const verticalOffset: int
    const verticalShift: int
    const bufferSize: int

    var offset: int
    var cursor: Point
    var cursorState: bool
    var selectionStart: Point
    var selectionCurrent: Point
    var selectionActive: bool
    var isDragging: bool
    var clickSide: bool
    var scrollMode: bool
    var scrollDirection: bool
    var scrollSpeed: int
    var mousePosition: Point
    ghost var bufferLog: seq<BufferCall>

    function Geo(): Layout
    {
      Layout(columns, rows, fontWidth, fontHeight, verticalOffset, verticalShift)
    }

    predicate Valid()
    {
      Geo().Valid()
    }

    ghost function State(): Editor
      reads this
    {
      Editor(Nav(offset, cursor, cursorState), selectionStart, selectionCurrent,
             selectionActive, isDragging, clickSide, scrollMode, scrollDirection, scrollSpeed,
             mousePosition, bufferLog)
    }

    /**
     * The constructor: 16 columns, 32 rows, offset 0, the cursor on the
     * first cell of the top row, every flag off. Qt leaves the scroll
     * direction and speed unset; they start at false and 0 here.
     */
    constructor (fontWidth: int, fontHeight: int, bufferSize: int)
      requires fontWidth > 0 && fontHeight > 0
      ensures Valid()
      ensures columns == 16 && rows == 32 && verticalOffset == 6 && verticalShift == fontHeight
      ensures this.fontWidth == fontWidth && this.fontHeight == fontHeight && this.bufferSize == bufferSize
      ensures State() == Editor(Nav(0, Point(11 * fontWidth, 6), false), Point(0, 0), Point(0, 0),
                                false, false, false, false, false, 0, Point(0, 0), [])
      ensures Aligned(Geo(), offset)
    {
      columns, rows := 16, 32;
      this.fontWidth, this.fontHeight, this.bufferSize := fontWidth, fontHeight, bufferSize;
      offset := 0;
      scrollMode, cursorState, clickSide := false, false, false;
      verticalOffset := 6;
      verticalShift := fontHeight;
      cursor := Point(11 * fontWidth, 6);
      isDragging, selectionActive := false, false;
      selectionStart, selectionCurrent, mousePosition := Point(0, 0), Point(0, 0), Point(0, 0);
      scrollDirection, scrollSpeed := false, 0;
      bufferLog := [];
    }

    /**
     * The arithmetic of update_cursor_position on local copies of the
     * offset and the cursor: None when the request is refused.
     */
    static method CursorStep(g: Layout, size: int, n: Nav, x: int, y: int) returns (r: Option<Nav>)
      requires g.Valid()
      ensures r == CursorUpdate(g, size, n, x, y)
    {
      if BufferPosition(g, n.offset, x, y, true) > size {
        return None;
      }
      var wrapped := WrapStep(g, n.offset, x, y);
      if wrapped.None? {
        return None;
      }
      var s := ScrollStep(g, size, n.offset, wrapped.value.x, wrapped.value.y);
      var cursor := SettleStep(g, n.cursor.y, s);
      return Some(Nav(s.offset, cursor, true));
    }

    /**
     * The column snapping of update_cursor_position: left of the first
     * cell the target moves to the end of the previous row (or the start
     * of the first row above the top line), and past the last cell to the
     * start of the next row.
     */
    static method WrapStep(g: Layout, offset: int, x: int, y: int) returns (r: Option<Point>)
      requires g.Valid()
      ensures r == WrapColumn(g, offset, x, y)
    {
      var column := x - TRem(x, g.fontWidth);
      var ty := y;
      if x < g.ColumnWidth(11) - g.fontWidth {
        if ty < g.verticalOffset {
          column := g.ColumnWidth(11);
        } else if offset != 0 || ty > g.verticalOffset {
          column := g.LastColumn();
        } else {
          return None;
        }
        ty := ty - g.fontHeight;
      }
      if column > g.LastColumn() {
        column := g.ColumnWidth(11);
        ty := ty + g.fontHeight;
      }
      return Some(Point(column, ty));
    }

    /** The scrolling of update_cursor_position when the target leaves the window. */
    static method ScrollStep(g: Layout, size: int, offset: int, column: int, y: int) returns (r: Scrolled)
      requires g.Valid()
      ensures r == ScrollRow(g, size, offset, column, y)
    {
      var newOffset, newColumn, ty := offset, column, y;
      if ty > g.rows * g.fontHeight {
        ty := ty - g.fontHeight;
        if newOffset < size - g.columns * g.rows {
          newOffset := newOffset + g.columns;
        } else {
          newColumn := g.LastColumn();
        }
      }
      if ty < 0 && newOffset > 0 {
        ty := ty + g.fontHeight;
        newOffset := newOffset - g.columns;
      }
      return Scrolled(newOffset, newColumn, ty);
    }

    /** Where update_cursor_position finally puts the cursor. */
    static method SettleStep(g: Layout, cursorY: int, s: Scrolled) returns (r: Point)
      requires g.Valid()
      ensures r == Settle(g, cursorY, s)
    {
      r := Point(0, cursorY);
      if s.y > 0 && s.y < g.ColumnHeight(g.rows) {
        r := Point(r.x, s.y - TRem(s.y, g.fontHeight) + g.verticalOffset);
      }
      if TRem(s.column, 3) != 2 {
        r := Point(s.column, r.y);
      } else {
        r := Point(s.column + g.fontWidth, r.y);
      }
    }

    /**
     * update_cursor_position: a refused request changes nothing; otherwise
     * the offset, the cursor and the blink state take the stepper's values.
     */
    method UpdateCursorPosition(x: int, y: int)
      requires Valid()
      modifies this
      ensures State() == MoveCursor(Geo(), bufferSize, old(State()), x, y)
    {
      var step := CursorStep(Geo(), bufferSize, Nav(offset, cursor, cursorState), x, y);
      if step.Some? {
        offset, cursor, cursorState := step.value.offset, step.value.cursor, step.value.blink;
      }
    }

    /**
     * get_selection_range: the byte positions of the two selection ends in
     * order, swapping the stored ends when they were reversed; the answer
     * is whether a selection is shown.
     */
    method GetSelectionRange() returns (active: bool, first: int, last: int)
      requires Valid()
      modifies this
      ensures var s := SelectionRange(Geo(), old(State()));
        State() == s.editor && first == s.first && last == s.last
      ensures active == selectionActive && first <= last
    {
      first := BufferPosition(Geo(), offset, selectionStart.x, selectionStart.y, true);
      last := BufferPosition(Geo(), offset, selectionCurrent.x, selectionCurrent.y, true);
      if first > last {
        first, last := last, first;
        selectionStart, selectionCurrent := selectionCurrent, selectionStart;
      }
      active := selectionActive;
    }

    /** cut: a shown selection is cut from the buffer and the cursor goes to its start. */
    method Cut()
      requires Valid()
      modifies this
      ensures State() == CutSelection(Geo(), old(State()))
    {
      hide Move;
      var active, first, last := GetSelectionRange();
      if !active {
        return;
      }
      bufferLog := bufferLog + [BufferCall.Cut(first, last)];
      cursor := selectionStart;
      selectionActive := false;
    }

    /** copy: a shown selection is copied; only the ordering of its ends changes here. */
    method Copy()
      requires Valid()
      modifies this
      ensures State() == CopySelection(Geo(), old(State()))
    {
      var active, first, last := GetSelectionRange();
      if !active {
        return;
      }
      bufferLog := bufferLog + [BufferCall.Copy(first, last)];
    }

    /** paste: over a shown selection, otherwise at the cursor. */
    method Paste(raw: bool)
      requires Valid()
      modifies this
      ensures State() == PasteAt(Geo(), bufferSize, old(State()), raw)
    {
      var active, first, last := GetSelectionRange();
      if active {
        bufferLog := bufferLog + [BufferCall.Paste(first, last, raw)];
      } else {
        PasteAtCursor(raw);
      }
    }

    /** The part of paste that runs without a selection. */
    method PasteAtCursor(raw: bool)
      requires Valid()
      modifies this
      ensures State() == PasteUnselected(Geo(), bufferSize, old(State()), raw)
    {
      hide Move;
      var g := Geo();
      var n := PasteTargetStep(g, bufferSize, Nav(offset, cursor, cursorState));
      offset, cursor, cursorState, bufferLog, selectionActive := n.offset, n.cursor, n.blink,
        bufferLog + [BufferCall.Paste(BufferPosition(g, n.offset, n.cursor.x, n.cursor.y, true), 0, raw)], false;
    }

    /** The cursor move paste makes first when the cursor's pixel x is not 1 modulo 3. */
    static method PasteTargetStep(g: Layout, size: int, n: Nav) returns (r: Nav)
      requires g.Valid()
      ensures r == PasteTarget(g, size, n)
    {
      hide Move;
      r := n;
      if TRem(n.cursor.x, 3) != 1 {
        r := MoveStep(g, size, n, n.cursor.x + g.fontWidth, n.cursor.y - g.verticalShift - TDiv(g.fontHeight, 2));
      }
    }

    /** update_cursor_position on a copy of the offset, the cursor and the blink state. */
    static method MoveStep(g: Layout, size: int, n: Nav, x: int, y: int) returns (r: Nav)
      requires g.Valid()
      ensures r == Move(g, size, n, x, y)
    {
      var s := CursorStep(g, size, n, x, y);
      r := if s.Some? then s.value else n;
    }

    /** delete_text: the selected bytes, or the byte under the cursor. */
    method DeleteText()
      requires Valid()
      modifies this
      ensures State() == EditorModel.DeleteText(Geo(), old(State()))
    {
      var active, first, last := GetSelectionRange();
      if !active {
        bufferLog := bufferLog + [DeleteAt(BufferPosition(Geo(), offset, cursor.x, cursor.y, true))];
      } else {
        bufferLog := bufferLog + [DeleteRange(first, last)];
        selectionActive := false;
        cursor := selectionStart;
      }
    }

    /** update_undo_action: runs after every undo and redo of the buffer. */
    method UpdateUndoAction()
      requires Valid()
      modifies this
      ensures State() == UndoAction(Geo(), bufferSize, old(State()))
    {
      var g := Geo();
      if BufferPosition(g, offset, cursor.x, cursor.y, true) != 0 {
        var currentRows := TDiv(bufferSize, columns);
        currentRows := if currentRows > rows then rows else currentRows;
        cursor := Point(cursor.x, g.ColumnHeight(currentRows) + verticalOffset);
        var columnOffset := TRem(bufferSize, columns) * 3 + 11;
        cursor := Point(g.ColumnWidth(if columnOffset != 11 then columnOffset else columns * 3 + 10), cursor.y);
      }
      selectionActive := false;
      isDragging := false;
    }

    /** select_all, given what get_max_lines reports. */
    method SelectAll(maxLines: int)
      requires Valid()
      modifies this
      ensures State() == EditorModel.SelectAll(Geo(), old(State()), maxLines)
    {
      var g := Geo();
      selectionStart := Point(g.ColumnWidth(11), verticalOffset - offset);
      selectionCurrent := Point(g.ColumnWidth(11 + columns * 3) - fontWidth,
                                g.ColumnHeight(maxLines + rows) - offset);
      selectionActive := true;
    }

    /** The Tab key, which event() handles before keyPressEvent sees it. */
    method TabPressed()
      modifies this
      ensures State() == ToggleSide(old(State()))
    {
      clickSide := !clickSide;
    }

    /** slider_update, with the widget's height for the scroll-mode branch. */
    method SliderUpdate(position: int, widgetHeight: int)
      requires Valid()
      modifies this
      ensures State() == EditorModel.SliderUpdate(Geo(), old(State()), position, widgetHeight)
    {
      if !scrollMode {
        cursor := Point(cursor.x, cursor.y + (offset - position * columns));
        var oldOffset := offset;
        offset := position * columns;
        if selectionActive {
          selectionStart := Point(selectionStart.x, selectionStart.y - (offset - oldOffset));
          selectionCurrent := Point(selectionCurrent.x, selectionCurrent.y - (offset - oldOffset));
        }
      } else {
        var p := position - TDiv(widgetHeight, 2);
        if p < 0 {
          scrollDirection := false;
          p := -p;
        } else if p > 0 {
          scrollDirection := true;
        } else {
          scrollSpeed := IntMax;
          return;
        }
        scrollSpeed := Abs(TDiv((p - TDiv(widgetHeight, 2)) - 1, 15));
      }
    }

    /** update_selection_position: the Up and Down keys with a selection shown. */
    method UpdateSelectionPosition(amount: int)
      modifies this
      ensures State() == SelectionScroll(bufferSize, old(State()), amount)
    {
      var newOffset := offset + amount;
      if newOffset > 0 && newOffset < bufferSize {
        offset := newOffset;
        selectionStart := Point(selectionStart.x, selectionStart.y - amount);
        selectionCurrent := Point(selectionCurrent.x, selectionCurrent.y - amount);
      }
    }

    /** wheelEvent: the view scrolls by the turn's notches and a shown selection moves with it. */
    method WheelEvent(delta: int)
      requires Valid()
      modifies this
      ensures State() == Wheel(Geo(), bufferSize, old(State()), delta)
    {
      hide WheelNav;
      var steps := TDiv(TDiv(delta, 8), 15);
      var oldOffset := offset;
      var n := WheelStep(Geo(), bufferSize, Nav(offset, cursor, cursorState), steps);
      offset, cursor := n.offset, n.cursor;
      if selectionActive && oldOffset != offset {
        selectionStart := Point(selectionStart.x, selectionStart.y - (offset - oldOffset));
        selectionCurrent := Point(selectionCurrent.x, selectionCurrent.y - (offset - oldOffset));
      }
    }

    /**
     * The scrolling arithmetic of wheelEvent on a copy of the offset and
     * the cursor: up by `steps` rows, or down by `-steps` rows unless the
     * last screen of data is already in view, when the cursor moves instead.
     */
    static method WheelStep(g: Layout, size: int, n: Nav, steps: int) returns (r: Nav)
      requires g.Valid()
      ensures r == WheelNav(g, size, n, steps)
      ensures r.blink == n.blink
    {
      r := n;
      var currentRows := TDiv(size, g.columns);
      currentRows := if currentRows > g.rows then g.rows else currentRows;
      if steps > 0 {
        if r.offset - g.columns * steps < 0 {
          r := r.(offset := 0, cursor := Point(r.cursor.x, r.cursor.y - g.ColumnHeight(steps)));
          if r.cursor.y < g.verticalOffset {
            r := r.(cursor := Point(r.cursor.x, g.verticalOffset));
          }
        } else {
          r := r.(offset := r.offset - g.columns * steps, cursor := Point(r.cursor.x, r.cursor.y + g.ColumnHeight(steps)));
        }
      }
      if steps < 0 && r.offset < size {
        if r.offset + g.columns * -steps > size - g.columns * currentRows {
          if currentRows == g.rows {
            currentRows := currentRows - 1;
          }
          r := r.(cursor := Point(r.cursor.x, r.cursor.y + g.ColumnHeight(-steps)));
          if r.cursor.y > g.ColumnHeight(currentRows) {
            r := r.(cursor := Point(r.cursor.x, g.ColumnHeight(currentRows) + g.verticalOffset));
            var columnOffset := TRem(size, g.columns) * 3 + 11;
            r := r.(cursor := Point(g.ColumnWidth(if columnOffset != 11 then columnOffset else g.columns * 3 + 10), r.cursor.y));
          }
        } else {
          r := r.(offset := r.offset + g.columns * -steps, cursor := Point(r.cursor.x, r.cursor.y - g.ColumnHeight(-steps)));
        }
      }
    }

    /** update_selection: drags the selection's moving end to (x, y). */
    method UpdateSelection(x: int, y: int)
      requires Valid()
      modifies this
      ensures State() == Drag(Geo(), bufferSize, old(State()), x, y)
    {
      var g := Geo();
      if BufferPosition(g, offset, x, y, true) > bufferSize + columns - 1 {
        selectionCurrent := EndOfDataStep(g, bufferSize);
      } else {
        DragWithin(x, y);
      }
    }

    /** The part of update_selection for a mouse position inside the data. */
    method DragWithin(x: int, y: int)
      requires Valid()
      modifies this
      ensures State() == EditorModel.DragWithin(Geo(), bufferSize, old(State()), x, y)
    {
      hide Move, DragNav, EditorModel.DragEnd, DragColumn, DragRow, PastEnd;
      var g := Geo();
      var oldOffset := offset;
      var tx, pastEnd := DragTarget(g, offset, x, y);
      var n := DragStep(g, bufferSize, Nav(offset, cursor, cursorState), tx, y);
      var c := DragEndStep(g, bufferSize, n, pastEnd, y);
      var start := selectionStart;
      if oldOffset != n.offset {
        start := Point(start.x, start.y - (n.offset - oldOffset));
      }
      offset, cursor, cursorState, selectionCurrent, selectionStart := n.offset, c, n.blink, c, start;
    }

    /**
     * The end-of-data position that update_selection, update_undo_action
     * and wheelEvent compute; its row is counted from the top of the view
     * (see EndOfDataPosition).
     */
    static method EndOfDataStep(g: Layout, size: int) returns (p: Point)
      requires g.Valid()
      ensures p == EndOfData(g, size)
    {
      var currentRows := TDiv(size, g.columns);
      currentRows := if currentRows > g.rows then g.rows else currentRows;
      var columnOffset := TRem(size, g.columns) * 3 + 11;
      p := Point(g.ColumnWidth(if columnOffset != 11 then columnOffset else g.columns * 3 + 10),
                 g.ColumnHeight(currentRows) + g.verticalOffset);
    }

    /** The adjustments update_selection makes to the cursor after moving it. */
    static method DragEndStep(g: Layout, size: int, n: Nav, pastEnd: bool, y: int) returns (c: Point)
      ensures c == DragEnd(g, size, n, pastEnd, y)
    {
      c := n.cursor;
      if pastEnd {
        c := Point(c.x + g.ColumnWidth(2), c.y);
      }
      if n.offset == size - g.columns * g.rows && y > g.ColumnHeight(g.rows) {
        c := Point(g.ColumnWidth(11 + g.columns * 3) - g.fontWidth, c.y);
      }
    }

    /**
     * The x update_selection aims the cursor at, clamped into the hex area
     * (and to its first column above the view at offset 0), and whether
     * the mouse was right of the hex area.
     */
    static method DragTarget(g: Layout, offset: int, x: int, y: int) returns (tx: int, pastEnd: bool)
      requires g.Valid()
      ensures tx == DragColumn(g, offset, x, y) && pastEnd == PastEnd(g, x)
    {
      tx, pastEnd := x, false;
      if tx < g.ColumnWidth(11) {
        tx := g.ColumnWidth(11);
      } else if tx >= g.ColumnWidth(10 + g.columns * 3) - g.fontWidth {
        tx := g.ColumnWidth(8 + g.columns * 3) - g.fontWidth;
        pastEnd := true;
      }
      if y < g.verticalShift && offset == 0 {
        tx := g.ColumnWidth(11);
      }
    }

    /**
     * The cursor moves of update_selection: to (x, y), and once more a
     * cell to the right unless the cursor's pixel x is 1 modulo 3.
     */
    static method DragStep(g: Layout, size: int, n: Nav, x: int, y: int) returns (r: Nav)
      requires g.Valid()
      ensures r == DragNav(g, size, n, x, DragRow(g, y))
    {
      hide Move;
      var row := y - g.verticalShift - TDiv(g.fontHeight, 2);
      r := MoveStep(g, size, n, x, row);
      if TRem(r.cursor.x, 3) != 1 {
        r := MoveStep(g, size, r, x + g.fontWidth, row);
      }
    }

    /**
     * auto_scroll_update, one timer tick: a drag follows the mouse, and
     * otherwise the cursor takes ScrollFactor(scrollSpeed) row steps.
     */
    method AutoScrollUpdate()
      requires Valid()
      modifies this
      ensures State() == AutoScroll(Geo(), bufferSize, old(State()))
    {
      hide Move, ScrollTicks, EditorModel.Drag;
      if isDragging {
        UpdateSelection(mousePosition.x, mousePosition.y);
        return;
      }
      var scrollFactor := 1;
      if scrollSpeed < 5 {
        scrollFactor := Abs(scrollSpeed - 20);
      }
      var n := ScrollTicksStep(Geo(), bufferSize, Nav(offset, cursor, cursorState), scrollDirection, scrollFactor);
      offset, cursor, cursorState := n.offset, n.cursor, n.blink;
    }

    /** The loop of auto_scroll_update: `ticks` cursor moves of one row each. */
    static method ScrollTicksStep(g: Layout, size: int, n: Nav, down: bool, ticks: nat) returns (r: Nav)
      requires g.Valid()
      ensures r == ScrollTicks(g, size, n, down, ticks)
    {
      hide Move;
      r := n;
      var i := 0;
      while i < ticks
        invariant 0 <= i <= ticks
        invariant ScrollTicks(g, size, r, down, ticks - i) == ScrollTicks(g, size, n, down, ticks)
      {
        if !down {
          r := MoveStep(g, size, r, r.cursor.x, r.cursor.y - g.fontHeight);
        } else {
          r := MoveStep(g, size, r, r.cursor.x, r.cursor.y + g.fontHeight);
        }
        i := i + 1;
      }
    }

    /**
     * mousePressEvent; `hexColumn` is what to_hex_column gives for the
     * press's x, used when the press is in the ASCII area.
     */
    method MousePress(ex: int, ey: int, right: bool, hexColumn: int)
      requires Valid()
      modifies this
      ensures State() == EditorModel.MousePress(Geo(), bufferSize, old(State()), ex, ey, right, hexColumn)
    {
      if right {
        return;
      }
      var g := Geo();
      var x := ex;
      if InAsciiArea(g, ex) {
        x := hexColumn;
        clickSide := true;
      } else {
        clickSide := false;
      }
      PressAt(x, PressRow(g, ey), ey);
    }

    /** The part of mousePressEvent after the side is chosen, at the row-snapped (x, y). */
    method PressAt(x: int, y: int, ey: int)
      requires Valid()
      modifies this
      ensures State() == EditorModel.PressAt(Geo(), bufferSize, old(State()), x, y, ey)
    {
      hide Move, BufferPosition, TDiv, TRem, Layout.ColumnWidth;
      var g := Geo();
      if BufferPosition(g, offset, x, y, true) > bufferSize {
        return;
      }
      selectionActive := false;
      if ey < verticalOffset + verticalShift {
        return;
      }
      if x > g.ColumnWidth(11) && x < g.ColumnWidth(11 + columns * 3) - fontWidth {
        UpdateCursorPosition(x, y);
        StartDrag();
      }
    }

    /**
     * A press that is not part of a drag yet anchors one at the cursor, one
     * cell to the left unless the cursor's pixel x is 1 modulo 3.
     */
    method StartDrag()
      requires Valid()
      modifies this
      ensures State() == EditorModel.StartDrag(Geo(), old(State()))
    {
      if !isDragging {
        isDragging := true;
        selectionStart := cursor;
        if TRem(cursor.x, 3) != 1 {
          selectionStart := Point(cursor.x - fontWidth, cursor.y);
        }
        selectionCurrent := selectionStart;
      }
    }

    /** mouseMoveEvent; `hexColumn` is what to_hex_column gives for the move's x. */
    method MouseMove(ex: int, ey: int, hexColumn: int)
      requires Valid()
      modifies this
      ensures State() == EditorModel.MouseMove(Geo(), bufferSize, old(State()), ex, ey, hexColumn)
    {
      hide Move, EditorModel.Drag;
      mousePosition := Point(ex, ey);
      if clickSide {
        mousePosition := Point(hexColumn, mousePosition.y);
      }
      if isDragging {
        selectionActive := true;
        UpdateSelection(mousePosition.x, ey);
        if ey > Geo().ColumnHeight(rows) {
          scrollDirection := true;
        } else if ey < verticalShift {
          scrollDirection := false;
        }
      }
    }

    /** mouseReleaseEvent; `hexColumn` is what to_hex_column gives for the release's x. */
    method MouseRelease(ex: int, ey: int, hexColumn: int)
      modifies this
      ensures State() == EditorModel.MouseRelease(old(State()), ex, ey, hexColumn)
    {
      mousePosition := Point(ex, ey);
      if clickSide {
        mousePosition := Point(hexColumn, mousePosition.y);
      }
      isDragging := false;
      if selectionCurrent == selectionStart {
        selectionActive := false;
        return;
      }
    }

    /** The typing part of keyPressEvent. */
    method TypeKey(key: int, modifiers: int)
      requires Valid()
      modifies this
      ensures State() == EditorModel.TypeKey(Geo(), bufferSize, old(State()), key, modifiers)
    {
      hide Move, BufferPosition, TDiv, TRem, Layout.ColumnWidth, Layout.ColumnHeight, EditorModel.DeleteText, SelectionRange;
      if clickSide {
        if key >= KeySpace && key <= KeyAsciiTilde {
          if selectionActive {
            DeleteText();
          }
          var value := if modifiers != ShiftModifier && key >= KeyA && key <= KeyZ then key + 32 else key;
          bufferLog := bufferLog + [UpdateByte(value, BufferPosition(Geo(), offset, cursor.x, cursor.y, true))];
          UpdateCursorPosition(cursor.x + fontWidth * 2, cursor.y);
        }
      } else {
        if key >= Key0 && key <= Key9 {
          if selectionActive {
            DeleteText();
          }
          bufferLog := bufferLog + [UpdateNibble(key - Key0, BufferPosition(Geo(), offset, cursor.x, cursor.y, false))];
          UpdateCursorPosition(cursor.x + fontWidth, cursor.y);
        } else if key >= KeyA && key <= KeyF {
          if selectionActive {
            DeleteText();
          }
          bufferLog := bufferLog + [UpdateNibble(key - KeyA + 10, BufferPosition(Geo(), offset, cursor.x, cursor.y, false))];
          UpdateCursorPosition(cursor.x + fontWidth, cursor.y);
        }
      }
    }

    /** The closing switch of keyPressEvent. */
    method NavigateKey(key: int)
      requires Valid()
      modifies this
      ensures State() == EditorModel.NavigateKey(Geo(), bufferSize, old(State()), key)
    {
      hide Move, BufferPosition, TDiv, TRem, Layout.ColumnWidth, Layout.ColumnHeight, EditorModel.DeleteText, SelectionRange;
      var g := Geo();
      if key == KeyDelete {
        DeleteText();
      } else if key == KeyBackspace {
        UpdateCursorPosition(cursor.x - g.ColumnWidth(3), cursor.y);
        DeleteText();
      } else if key == KeyHome {
        UpdateCursorPosition(g.ColumnWidth(11), cursor.y);
      } else if key == KeyEnd {
        if BufferPosition(g, offset, g.ColumnWidth(8 + columns * 3), cursor.y, true) < bufferSize {
          UpdateCursorPosition(g.ColumnWidth(8 + columns * 3), cursor.y);
        } else {
          UpdateCursorPosition(g.ColumnWidth(TRem(bufferSize, columns) * 3 + 11), cursor.y);
        }
      } else if key == KeyUp {
        if selectionActive {
          UpdateSelectionPosition(-columns);
        } else {
          UpdateCursorPosition(cursor.x, cursor.y - fontHeight);
        }
      } else if key == KeyDown {
        if selectionActive {
          UpdateSelectionPosition(columns);
        } else {
          UpdateCursorPosition(cursor.x, cursor.y + fontHeight);
        }
      } else if key == KeyRight {
        UpdateCursorPosition(cursor.x + fontWidth, cursor.y);
      } else if key == KeyLeft {
        UpdateCursorPosition(cursor.x - g.ColumnWidth(2), cursor.y);
      } else if key == KeyPageUp {
        UpdateCursorPosition(cursor.x, cursor.y - g.ColumnHeight(rows));
      } else if key == KeyPageDown {
        UpdateCursorPosition(cursor.x, cursor.y + g.ColumnHeight(rows));
      }
    }

    /** keyPressEvent; `maxLines` is what get_max_lines reports. */
    method KeyPress(key: int, modifiers: int, maxLines: int)
      requires Valid()
      modifies this
      ensures State() == EditorModel.KeyPress(Geo(), bufferSize, old(State()), key, modifiers, maxLines)
    {
      if modifiers == ControlModifier {
        if key == KeyA {
          SelectAll(maxLines);
        }
        return;
      }
      if modifiers == ControlModifier + ShiftModifier {
        if key == KeyV {
          Paste(true);
        }
      }
      if modifiers == AltModifier {
        if key == KeyS {
          scrollMode := !scrollMode;
        }
        return;
      }
      TypeKey(key, modifiers);
      NavigateKey(key);
    }
  }
}
