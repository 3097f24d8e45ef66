/**
 * The editor's state as a value and every operation of hex_editor.cpp as a
 * function from the old state to the new one. The widget class in
 * hex_editor.dfy is proved to compute exactly these functions; the lemmas
 * here state what each operation does.
 *
 * The buffer is the ROM_buffer object, whose code is not part of this
 * model: the editor sees only its size, which none of the modelled
 * operations changes, and every request it makes of the buffer is appended
 * to `calls`.
 */
module EditorModel {
  import opened Primitives
  import opened EditorGeometry
  import opened Keys

  /** A request made of the ROM buffer, with the positions the editor passed. */
  datatype BufferCall =
    | UpdateNibble(value: int, nibble: int)
    | UpdateByte(value: int, position: int)
    | Cut(first: int, last: int)
    | Copy(first: int, last: int)
    | Paste(first: int, last: int, raw: bool)
    | DeleteRange(first: int, last: int)
    | DeleteAt(position: int)

  /**
   * The fields of the editor widget that the modelled operations read or
   * write; `nav` groups the offset, the cursor and the cursor blink state.
   */
  datatype Editor = Editor(nav: Nav, selStart: Point, selCurrent: Point,
                           selectionActive: bool, isDragging: bool, clickSide: bool,
                           scrollMode: bool, scrollDirection: bool, scrollSpeed: int,
                           mousePosition: Point, calls: seq<BufferCall>)

  /** The Qt constant INT_MAX, the timer interval that stops auto-scrolling. */
  const IntMax: int := 0x7fff_ffff

  /** update_cursor_position applied to the whole editor. */
  function MoveCursor(g: Layout, size: int, e: Editor, x: int, y: int): Editor
    requires g.Valid()
  {
    e.(nav := Move(g, size, e.nav, x, y))
  }

  /** Moves both selection ends by `-delta` pixels, as every offset change does. */
  function ShiftEnds(e: Editor, delta: int): Editor
  {
    e.(selStart := Point(e.selStart.x, e.selStart.y - delta),
       selCurrent := Point(e.selCurrent.x, e.selCurrent.y - delta))
  }

  /** ShiftEnds, applied only while a selection is shown. */
  function ShiftSelection(e: Editor, delta: int): Editor
  {
    if e.selectionActive then ShiftEnds(e, delta) else e
  }

  /** The result of get_selection_range: the editor after it and the two byte positions. */
  datatype Ranged = Ranged(editor: Editor, first: int, last: int)

  /**
   * get_selection_range: the byte positions of the two selection ends in
   * order. When they were reversed, the stored ends are swapped as well.
   */
  function SelectionRange(g: Layout, e: Editor): Ranged
    requires g.Valid()
  {
    var a := BufferPosition(g, e.nav.offset, e.selStart.x, e.selStart.y, true);
    var b := BufferPosition(g, e.nav.offset, e.selCurrent.x, e.selCurrent.y, true);
    if a > b then Ranged(e.(selStart := e.selCurrent, selCurrent := e.selStart), b, a)
    else Ranged(e, a, b)
  }

  /**
   * The two positions come out in order; the stored ends are swapped
   * exactly when they were reversed, and nothing else changes.
   */
  lemma SelectionRangeOrders(g: Layout, e: Editor)
    requires g.Valid()
    ensures SelectionRange(g, e).first <= SelectionRange(g, e).last
    ensures var a := BufferPosition(g, e.nav.offset, e.selStart.x, e.selStart.y, true);
      var b := BufferPosition(g, e.nav.offset, e.selCurrent.x, e.selCurrent.y, true);
      var r := SelectionRange(g, e);
      (a <= b ==> r.first == a && r.last == b && r.editor == e) &&
      (a > b ==>
        r.first == b && r.last == a && r.editor == e.(selStart := e.selCurrent, selCurrent := e.selStart))
  {
  }

  /** After one get_selection_range the ends are in order: a second one changes nothing. */
  lemma {:induction false} SelectionRangeIdempotent(g: Layout, e: Editor)
    requires g.Valid()
    ensures var r := SelectionRange(g, e);
      SelectionRange(g, r.editor) == r
  {
    var r := SelectionRange(g, e);
    assert r.editor.nav == e.nav;
  }

  /** cut: with a selection, cuts its bytes and puts the cursor at its start. */
  function CutSelection(g: Layout, e: Editor): Editor
    requires g.Valid()
  {
    var s := SelectionRange(g, e);
    var f := s.editor;
    if !f.selectionActive then f
    else f.(calls := f.calls + [Cut(s.first, s.last)], nav := f.nav.(cursor := f.selStart),
            selectionActive := false)
  }

  /**
   * Without a selection cut only orders the ends; with one it requests a
   * cut of the selected bytes, puts the cursor at the selection's start
   * and hides the selection. The offset never changes.
   */
  lemma CutSelectionEffect(g: Layout, e: Editor)
    requires g.Valid()
    ensures var s := SelectionRange(g, e);
      var r := CutSelection(g, e);
      (!e.selectionActive ==> r == s.editor) &&
      (e.selectionActive ==>
        r.calls == e.calls + [Cut(s.first, s.last)] && !r.selectionActive &&
        r.nav == e.nav.(cursor := s.editor.selStart))
    ensures CutSelection(g, e).nav.offset == e.nav.offset
  {
  }

  /** copy: copies the selected bytes; the editor's own fields change only by the swap. */
  function CopySelection(g: Layout, e: Editor): Editor
    requires g.Valid()
  {
    var s := SelectionRange(g, e);
    if s.editor.selectionActive then s.editor.(calls := s.editor.calls + [Copy(s.first, s.last)])
    else s.editor
  }

  /** copy requests a copy of the selected bytes when there is a selection, and otherwise nothing. */
  lemma CopySelectionEffect(g: Layout, e: Editor)
    requires g.Valid()
    ensures var s := SelectionRange(g, e);
      CopySelection(g, e) == s.editor.(calls := e.calls + if e.selectionActive then [Copy(s.first, s.last)] else [])
  {
  }

  /**
   * paste: over the selection when there is one; otherwise at the cursor's
   * byte, after moving a cursor whose pixel x is not 1 modulo 3 one cell
   * right and up.
   */
  function PasteAt(g: Layout, size: int, e: Editor, raw: bool): Editor
    requires g.Valid()
  {
    var s := SelectionRange(g, e);
    var f := s.editor;
    if f.selectionActive then f.(calls := f.calls + [Paste(s.first, s.last, raw)])
    else PasteUnselected(g, size, f, raw)
  }

  /**
   * paste without a selection: a cursor whose pixel x is not 1 modulo 3
   * first moves one cell right and up by vertical_shift plus half a row
   * (PasteTwoRowsUp shows where that lands), then the paste is requested at
   * its byte.
   */
  function PasteUnselected(g: Layout, size: int, e: Editor, raw: bool): Editor
    requires g.Valid()
  {
    PasteAtCursor(g, e.(nav := PasteTarget(g, size, e.nav)), raw)
  }

  /**
   * The cursor move paste makes first: one cell right and up by
   * vertical_shift plus half a row, unless the pixel x is 1 modulo 3.
   */
  function PasteTarget(g: Layout, size: int, n: Nav): Nav
    requires g.Valid()
  {
    if TRem(n.cursor.x, 3) != 1 then
      Move(g, size, n, n.cursor.x + g.fontWidth, n.cursor.y - g.verticalShift - TDiv(g.fontHeight, 2))
    else
      n
  }

  /** The request paste makes without a selection: at the cursor's byte, with no length. */
  function PasteAtCursor(g: Layout, e: Editor, raw: bool): Editor
    requires g.Valid()
  {
    e.(calls := e.calls + [Paste(BufferPosition(g, e.nav.offset, e.nav.cursor.x, e.nav.cursor.y, true), 0, raw)],
       selectionActive := false)
  }

  /**
   * With a selection paste requests a paste over it; without one it
   * requests a paste at the byte the (possibly moved) cursor ends on and
   * leaves the selection off. Either way one request is made and an
   * aligned offset stays aligned.
   */
  lemma PasteAtEffect(g: Layout, size: int, e: Editor, raw: bool)
    requires g.Valid()
    ensures var s := SelectionRange(g, e);
      e.selectionActive ==> PasteAt(g, size, e, raw) == s.editor.(calls := e.calls + [Paste(s.first, s.last, raw)])
    ensures var r := PasteAt(g, size, e, raw);
      !e.selectionActive ==>
        !r.selectionActive &&
        r.calls == e.calls + [Paste(BufferPosition(g, r.nav.offset, r.nav.cursor.x, r.nav.cursor.y, true), 0, raw)]
    ensures Aligned(g, e.nav.offset) ==> Aligned(g, PasteAt(g, size, e, raw).nav.offset)
    ensures e.nav.offset <= size ==> PasteAt(g, size, e, raw).nav.offset <= size
  {
    hide Move;
    var f := SelectionRange(g, e).editor;
    assert f.nav == e.nav;
    if !f.selectionActive && TRem(f.nav.cursor.x, 3) != 1 {
      var x, y := f.nav.cursor.x + g.fontWidth, f.nav.cursor.y - g.verticalShift - TDiv(g.fontHeight, 2);
      assert PasteAt(g, size, e, raw).nav == Move(g, size, e.nav, x, y);
      MoveFacts(g, size, e.nav, x, y);
    }
  }

  /**
   * The move before an unselected paste goes up by vertical_shift plus half
   * a row, which with the default 14-pixel shift and font height lands two
   * rows up: in the default layout, a cursor on byte 80 (the second cell of
   * row 5) pastes at byte 49, in row 3.
   */
  lemma PasteTwoRowsUp(e: Editor, raw: bool)
    requires e.nav == Nav(0, Point(96, 76), true)
    ensures var g := Layout(16, 32, 8, 14, 6, 14);
      BufferPosition(g, 0, 96, 76, true) == 80 &&
      PasteTarget(g, 1000, e.nav) == Nav(0, Point(112, 48), true) &&
      PasteUnselected(g, 1000, e, raw).calls == e.calls + [Paste(49, 0, raw)]
  {
    var g := Layout(16, 32, 8, 14, 6, 14);
    assert BufferPosition(g, 0, 96, 76, true) == 80;
    assert BufferPosition(g, 0, 104, 55, true) == 49;
    assert WrapColumn(g, 0, 104, 55) == Some(Point(104, 55));
    assert ScrollRow(g, 1000, 0, 104, 55) == Scrolled(0, 104, 55);
    assert Settle(g, 76, Scrolled(0, 104, 55)) == Point(112, 48);
    assert PasteTarget(g, 1000, e.nav) == Nav(0, Point(112, 48), true);
    assert BufferPosition(g, 0, 112, 48, true) == 49 by {
      assert TDiv(24, 8) == 3 && TDiv(3, 3) == 1 && TDiv(42, 14) == 3;
    }
  }

  /**
   * delete_text: deletes the selected bytes and puts the cursor at the
   * selection's start, or without a selection deletes the byte under the
   * cursor.
   */
  function DeleteText(g: Layout, e: Editor): Editor
    requires g.Valid()
  {
    var s := SelectionRange(g, e);
    var f := s.editor;
    if !f.selectionActive then
      f.(calls := f.calls + [DeleteAt(BufferPosition(g, f.nav.offset, f.nav.cursor.x, f.nav.cursor.y, true))])
    else
      f.(calls := f.calls + [DeleteRange(s.first, s.last)], selectionActive := false,
         nav := f.nav.(cursor := f.selStart))
  }

  /**
   * Without a selection delete_text requests deletion of the byte under the
   * cursor; with one it requests deletion of the selected bytes, puts the
   * cursor at the selection's start and hides the selection. Afterwards no
   * selection is shown and the offset is unchanged.
   */
  lemma DeleteTextEffect(g: Layout, e: Editor)
    requires g.Valid()
    ensures var s := SelectionRange(g, e);
      !e.selectionActive ==>
        DeleteText(g, e) == s.editor.(calls := e.calls +
          [DeleteAt(BufferPosition(g, e.nav.offset, e.nav.cursor.x, e.nav.cursor.y, true))])
    ensures var s := SelectionRange(g, e);
      var r := DeleteText(g, e);
      e.selectionActive ==>
        r.calls == e.calls + [DeleteRange(s.first, s.last)] && r.nav == e.nav.(cursor := s.editor.selStart)
    ensures !DeleteText(g, e).selectionActive
    ensures DeleteText(g, e).nav.offset == e.nav.offset
  {
  }

  /**
   * update_undo_action: after an undo or redo the selection and any drag
   * end, and a cursor anywhere but the first byte moves to the end of the
   * data.
   */
  function UndoAction(g: Layout, size: int, e: Editor): Editor
    requires g.Valid()
  {
    if BufferPosition(g, e.nav.offset, e.nav.cursor.x, e.nav.cursor.y, true) != 0 then
      e.(nav := e.nav.(cursor := EndOfData(g, size)), selectionActive := false, isDragging := false)
    else
      e.(selectionActive := false, isDragging := false)
  }

  /**
   * Both flags are cleared; the cursor stays on the first byte and jumps to
   * the end of the data from anywhere else; nothing else changes.
   */
  lemma UndoActionEffect(g: Layout, size: int, e: Editor)
    requires g.Valid()
    ensures var r := UndoAction(g, size, e);
      !r.selectionActive && !r.isDragging
    ensures var r := UndoAction(g, size, e);
      r.nav.offset == e.nav.offset && r.nav.blink == e.nav.blink
    ensures BufferPosition(g, e.nav.offset, e.nav.cursor.x, e.nav.cursor.y, true) == 0 ==>
      UndoAction(g, size, e).nav.cursor == e.nav.cursor
    ensures BufferPosition(g, e.nav.offset, e.nav.cursor.x, e.nav.cursor.y, true) != 0 ==>
      UndoAction(g, size, e).nav.cursor == EndOfData(g, size)
    ensures var r := UndoAction(g, size, e);
      r == e.(nav := r.nav, selectionActive := false, isDragging := false)
  {
  }

  /**
   * select_all: the selection runs from the first cell of the buffer's first
   * row to the last cell of row `maxLines + rows`, in pixels relative to the
   * current offset, and is switched on.
   */
  function SelectAll(g: Layout, e: Editor, maxLines: int): Editor
    requires g.Valid()
  {
    e.(selStart := Point(g.ColumnWidth(11), g.verticalOffset - e.nav.offset),
       selCurrent := Point(g.ColumnWidth(11 + g.columns * 3) - g.fontWidth,
                           g.ColumnHeight(maxLines + g.rows) - e.nav.offset),
       selectionActive := true)
  }

  /**
   * Select All switches the selection on and changes nothing else. With
   * the view at the top of the buffer (and the first row's top edge within
   * one row of the widget's top), the selection ordered by
   * get_selection_range runs from byte 0 to byte `(maxLines + rows) *
   * columns`: the whole of `maxLines + rows` rows.
   */
  lemma SelectAllEffect(g: Layout, e: Editor, maxLines: int)
    requires g.Valid() && e.nav.offset == 0 && 0 < g.verticalOffset <= g.fontHeight && maxLines >= 0
    ensures var r := SelectAll(g, e, maxLines);
      r.selectionActive && r == e.(selStart := r.selStart, selCurrent := r.selCurrent, selectionActive := true)
    ensures var s := SelectionRange(g, SelectAll(g, e, maxLines));
      s.first == 0 && s.last == (maxLines + g.rows) * g.columns
  {
    var r := SelectAll(g, e, maxLines);
    var c, n := g.columns, maxLines + g.rows;
    assert BufferPosition(g, 0, r.selStart.x, r.selStart.y, true) == 0;
    assert r.selCurrent.x - g.ColumnWidth(11) == (3 * c - 1) * g.fontWidth;
    TDivOfMultiple(3 * c - 1, g.fontWidth);
    TDivUnique(3 * c - 1, 3, c - 1, 2);
    MulAtLeast(g.fontHeight, n, 1);
    assert r.selCurrent.y - g.verticalOffset == g.fontHeight * (n - 1) + (g.fontHeight - g.verticalOffset);
    TDivUnique(r.selCurrent.y - g.verticalOffset, g.fontHeight, n - 1, g.fontHeight - g.verticalOffset);
    assert (n - 1) * c * 2 + 2 * c == 2 * (c * n);
    TDivOfMultiple(c * n, 2);
    assert BufferPosition(g, 0, r.selCurrent.x, r.selCurrent.y, true) == c * n;
    MulAtLeast(c, n, 0);
  }

  /**
   * With the view scrolled, Select All's start lies above the buffer: in
   * the default layout at offset 112 (seven rows down) the ordered
   * selection starts at byte -16, and a cut right after requests that
   * range.
   */
  lemma SelectAllScrolled(e: Editor)
    requires e.nav.offset == 112
    ensures var g := Layout(16, 32, 8, 14, 6, 14);
      var r := SelectAll(g, e, 100);
      var s := SelectionRange(g, r);
      s.first == -16 && s.last == 2096 && CutSelection(g, r).calls == e.calls + [Cut(-16, 2096)]
  {
    var g := Layout(16, 32, 8, 14, 6, 14);
    assert BufferPosition(g, 112, 88, -106, true) == -16 by {
      assert TDiv(-112, 14) == -8;
      assert TDiv(-32, 2) == -16;
    }
    assert BufferPosition(g, 112, 464, 1736, true) == 2096;
    hide BufferPosition;
    var r := SelectAll(g, e, 100);
    assert r.selStart == Point(88, -106) && r.selCurrent == Point(464, 1736);
    assert SelectionRange(g, r) == Ranged(r, -16, 2096);
  }


  /** The Tab key switches typing between the hex side and the ASCII side. */
  function ToggleSide(e: Editor): Editor
  {
    e.(clickSide := !e.clickSide)
  }

  /** Tab flips the side, changes nothing else, and twice is no change at all. */
  lemma ToggleSideEffect(e: Editor)
    ensures ToggleSide(e).clickSide != e.clickSide
    ensures ToggleSide(e) == e.(clickSide := ToggleSide(e).clickSide)
    ensures ToggleSide(ToggleSide(e)) == e
  {
  }

  /**
   * The auto-scroll interval for a slider `distance` pixels from the middle:
   * the number of whole 15-pixel steps in the magnitude of `distance`
   * less half the widget's height, less one.
   */
  function ScrollSpeed(distance: int, widgetHeight: int): (r: int)
    ensures var v := distance - TDiv(widgetHeight, 2) - 1;
      0 <= r && 15 * r <= Abs(v) < 15 * (r + 1)
  {
    var v := distance - TDiv(widgetHeight, 2) - 1;
    assert v == 15 * TDiv(v, 15) + TRem(v, 15);
    Abs(TDiv(v, 15))
  }

  /**
   * slider_update: outside scroll mode the slider sets the offset to
   * `position` rows, and the cursor and the selection move the other way;
   * in scroll mode the slider's distance from the middle sets the
   * auto-scroll direction and speed.
   */
  function SliderUpdate(g: Layout, e: Editor, position: int, widgetHeight: int): Editor
    requires g.Valid()
  {
    if !e.scrollMode then
      var o := position * g.columns;
      var moved := e.(nav := e.nav.(offset := o, cursor := Point(e.nav.cursor.x, e.nav.cursor.y + (e.nav.offset - o))));
      ShiftSelection(moved, o - e.nav.offset)
    else
      ScrollModeSlider(e, position - TDiv(widgetHeight, 2), widgetHeight)
  }

  /** The scroll-mode branch of slider_update, `distance` pixels from the middle. */
  function ScrollModeSlider(e: Editor, distance: int, widgetHeight: int): Editor
  {
    if distance < 0 then e.(scrollDirection := false, scrollSpeed := ScrollSpeed(-distance, widgetHeight))
    else if distance > 0 then e.(scrollDirection := true, scrollSpeed := ScrollSpeed(distance, widgetHeight))
    else e.(scrollSpeed := IntMax)
  }

  /**
   * Outside scroll mode the offset becomes `position` rows (aligned for a
   * non-negative position) and the cursor and a shown selection move up by
   * the change. In scroll mode the direction is down below the middle and
   * up above it, and the middle itself stops the timer with INT_MAX.
   */
  lemma {:induction false} SliderUpdateEffect(g: Layout, e: Editor, position: int, widgetHeight: int)
    requires g.Valid()
    ensures var r := SliderUpdate(g, e, position, widgetHeight);
      !e.scrollMode ==>
        r.nav.offset == position * g.columns &&
        r.nav.cursor == Point(e.nav.cursor.x, e.nav.cursor.y - (r.nav.offset - e.nav.offset)) &&
        r == ShiftSelection(e, r.nav.offset - e.nav.offset).(nav := r.nav)
    ensures !e.scrollMode && position >= 0 ==> Aligned(g, SliderUpdate(g, e, position, widgetHeight).nav.offset)
    ensures var r := SliderUpdate(g, e, position, widgetHeight);
      var d := position - TDiv(widgetHeight, 2);
      e.scrollMode ==>
        (d == 0 ==> r == e.(scrollSpeed := IntMax)) &&
        (d != 0 ==> r == e.(scrollDirection := d > 0, scrollSpeed := ScrollSpeed(Abs(d), widgetHeight)))
  {
    RowsAligned(g, position);
  }

  lemma RowsAligned(g: Layout, rows: int)
    requires g.Valid()
    ensures rows >= 0 ==> Aligned(g, rows * g.columns)
  {
    if rows >= 0 {
      MulAtLeast(g.columns, rows, 0);
      TDivOfMultiple(rows, g.columns);
    }
  }

  /** The cursor steps one auto-scroll tick takes: 20 - speed when fast, otherwise one. */
  function ScrollFactor(speed: int): (k: nat)
    ensures k >= 1
    ensures speed < 5 ==> k == 20 - speed && k > 15
    ensures speed >= 5 ==> k == 1
  {
    if speed < 5 then Abs(speed - 20) else 1
  }

  /**
   * update_selection: drags the selection's moving end to (x, y). Past the
   * data it goes to the end-of-data position; otherwise the cursor is moved
   * there (a second time a cell further right unless its pixel x is 1
   * modulo 3) and the moving end
   * follows it, and the anchored end moves by the offset change.
   */
  function Drag(g: Layout, size: int, e: Editor, x: int, y: int): Editor
    requires g.Valid()
  {
    if BufferPosition(g, e.nav.offset, x, y, true) > size + g.columns - 1 then
      e.(selCurrent := EndOfData(g, size))
    else
      DragWithin(g, size, e, x, y)
  }

  /** update_selection for a mouse position at most one row past the data. */
  function DragWithin(g: Layout, size: int, e: Editor, x: int, y: int): Editor
    requires g.Valid()
  {
    var n := DragNav(g, size, e.nav, DragColumn(g, e.nav.offset, x, y), DragRow(g, y));
    FinishDrag(g, size, e.nav.offset, e.(nav := n), PastEnd(g, x), y)
  }

  /** The y update_selection moves the cursor to: vertical_shift plus half a row above the mouse. */
  function DragRow(g: Layout, y: int): int
    requires g.Valid()
  {
    y - g.verticalShift - TDiv(g.fontHeight, 2)
  }

  /**
   * update_selection's cursor moves: to (x, y), and once more a cell to the
   * right unless the cursor's pixel x is 1 modulo 3 (LowNibblePixel: on a
   * low nibble it never is).
   */
  function DragNav(g: Layout, size: int, n: Nav, x: int, y: int): Nav
    requires g.Valid()
  {
    var m := Move(g, size, n, x, y);
    if TRem(m.cursor.x, 3) != 1 then Move(g, size, m, x + g.fontWidth, y) else m
  }

  /**
   * The two cursor moves of a drag keep an aligned offset aligned and an
   * offset within the buffer within it.
   */
  lemma {:induction false} DragNavAligned(g: Layout, size: int, n: Nav, x: int, y: int)
    requires g.Valid()
    ensures Aligned(g, n.offset) ==> Aligned(g, DragNav(g, size, n, x, y).offset)
    ensures n.offset <= size ==> DragNav(g, size, n, x, y).offset <= size
  {
    hide Move;
    var m := Move(g, size, n, x, y);
    MoveFacts(g, size, n, x, y);
    if TRem(m.cursor.x, 3) != 1 {
      MoveFacts(g, size, m, x + g.fontWidth, y);
    }
  }

  /** The two cursor moves of a drag scroll by at most two rows. */
  lemma {:induction false} DragNavDrift(g: Layout, size: int, n: Nav, x: int, y: int)
    requires g.Valid()
    ensures Abs(DragNav(g, size, n, x, y).offset - n.offset) <= 2 * g.columns
  {
    hide Move;
    var m := Move(g, size, n, x, y);
    MoveFacts(g, size, n, x, y);
    if TRem(m.cursor.x, 3) != 1 {
      MoveFacts(g, size, m, x + g.fontWidth, y);
    }
  }

  /** Whether update_selection's x lies right of the hex area. */
  predicate PastEnd(g: Layout, x: int)
  {
    !(x < g.ColumnWidth(11)) && x >= g.ColumnWidth(10 + g.columns * 3) - g.fontWidth
  }

  /**
   * The x update_selection moves the cursor to: clamped into the hex area,
   * and the first column when the mouse is above the view at offset 0.
   */
  function DragColumn(g: Layout, offset: int, x: int, y: int): int
  {
    if y < g.verticalShift && offset == 0 then g.ColumnWidth(11)
    else if x < g.ColumnWidth(11) then g.ColumnWidth(11)
    else if PastEnd(g, x) then g.ColumnWidth(8 + g.columns * 3) - g.fontWidth
    else x
  }

  /**
   * The end of update_selection: the moving end takes the cursor, adjusted
   * by DragEnd, and the anchored end moves by the offset change since
   * `oldOffset`.
   */
  function FinishDrag(g: Layout, size: int, oldOffset: int, e: Editor, pastEnd: bool, y: int): Editor
  {
    var c := DragEnd(g, size, e.nav, pastEnd, y);
    e.(nav := e.nav.(cursor := c), selCurrent := c,
       selStart := Point(e.selStart.x, e.selStart.y - (e.nav.offset - oldOffset)))
  }

  /**
   * Where update_selection leaves the cursor after moving it to `n`: past
   * the last byte when the mouse was right of the hex area, and on the
   * last cell of its row when the last screen is below the view.
   */
  function DragEnd(g: Layout, size: int, n: Nav, pastEnd: bool, y: int): Point
  {
    var c := if pastEnd then Point(n.cursor.x + g.ColumnWidth(2), n.cursor.y) else n.cursor;
    if n.offset == size - g.columns * g.rows && y > g.ColumnHeight(g.rows)
    then Point(g.ColumnWidth(11 + g.columns * 3) - g.fontWidth, c.y) else c
  }

  /**
   * A drag past the data only moves the selection's end to the end of the
   * data. Any other drag leaves the cursor and the moving end together,
   * moves the anchored end by exactly the offset change, and keeps an
   * aligned offset aligned; nothing else changes.
   */
  lemma {:induction false} DragEffect(g: Layout, size: int, e: Editor, x: int, y: int)
    requires g.Valid()
    ensures BufferPosition(g, e.nav.offset, x, y, true) > size + g.columns - 1 ==>
      Drag(g, size, e, x, y) == e.(selCurrent := EndOfData(g, size))
    ensures var r := Drag(g, size, e, x, y);
      BufferPosition(g, e.nav.offset, x, y, true) <= size + g.columns - 1 ==>
        r.selCurrent == r.nav.cursor
    ensures Aligned(g, e.nav.offset) ==> Aligned(g, Drag(g, size, e, x, y).nav.offset)
    ensures e.nav.offset <= size ==> Drag(g, size, e, x, y).nav.offset <= size
    ensures Abs(Drag(g, size, e, x, y).nav.offset - e.nav.offset) <= 2 * g.columns
    ensures var r := Drag(g, size, e, x, y);
      r.selStart == Point(e.selStart.x, e.selStart.y - (r.nav.offset - e.nav.offset))
    ensures var r := Drag(g, size, e, x, y);
      r == e.(nav := r.nav, selStart := r.selStart, selCurrent := r.selCurrent)
  {
    DragNavAligned(g, size, e.nav, DragColumn(g, e.nav.offset, x, y), DragRow(g, y));
    DragNavDrift(g, size, e.nav, DragColumn(g, e.nav.offset, x, y), DragRow(g, y));
  }

  /**
   * auto_scroll_update: during a drag it drags to the last mouse position;
   * otherwise it steps the cursor ScrollFactor rows in the scroll direction.
   */
  function AutoScroll(g: Layout, size: int, e: Editor): Editor
    requires g.Valid()
  {
    if e.isDragging then Drag(g, size, e, e.mousePosition.x, e.mousePosition.y)
    else e.(nav := ScrollTicks(g, size, e.nav, e.scrollDirection, ScrollFactor(e.scrollSpeed)))
  }

  /**
   * A tick during a drag is a drag to the last mouse position. Otherwise it
   * takes 20 - speed row steps when the speed is below 5 and one step
   * otherwise, which moves the offset by at most that many rows; only the
   * offset, the cursor and the blink state change. Either way an aligned
   * offset stays aligned.
   */
  lemma {:induction false} AutoScrollEffect(g: Layout, size: int, e: Editor)
    requires g.Valid()
    ensures e.isDragging ==> AutoScroll(g, size, e) == Drag(g, size, e, e.mousePosition.x, e.mousePosition.y)
    ensures var r := AutoScroll(g, size, e);
      !e.isDragging ==>
        r == e.(nav := r.nav) &&
        Abs(r.nav.offset - e.nav.offset) <= (if e.scrollSpeed < 5 then 20 - e.scrollSpeed else 1) * g.columns
    ensures Aligned(g, e.nav.offset) ==> Aligned(g, AutoScroll(g, size, e).nav.offset)
    ensures e.nav.offset <= size ==> AutoScroll(g, size, e).nav.offset <= size
  {
    if e.isDragging {
      DragEffect(g, size, e, e.mousePosition.x, e.mousePosition.y);
    } else {
      ScrollTicksStayAligned(g, size, e.nav, e.scrollDirection, ScrollFactor(e.scrollSpeed));
      ScrollTicksDrift(g, size, e.nav, e.scrollDirection, ScrollFactor(e.scrollSpeed));
    }
  }

  /** The notches a wheel turn of `delta` eighths of a degree makes, 15 degrees a notch. */
  function WheelSteps(delta: int): int
  {
    TDiv(TDiv(delta, 8), 15)
  }

  /** wheelEvent: WheelNav for the turn's notches, with a shown selection moving along. */
  function Wheel(g: Layout, size: int, e: Editor, delta: int): Editor
    requires g.Valid()
  {
    var n := WheelNav(g, size, e.nav, WheelSteps(delta));
    ShiftSelection(e, n.offset - e.nav.offset).(nav := n)
  }

  /**
   * A turn of less than one notch changes nothing. Otherwise a shown
   * selection moves by the opposite of the offset change, only the offset,
   * the cursor and the selection change, and an aligned offset stays
   * aligned.
   */
  lemma {:induction false} WheelEffect(g: Layout, size: int, e: Editor, delta: int)
    requires g.Valid()
    ensures -120 < delta < 120 ==> Wheel(g, size, e, delta) == e
    ensures var r := Wheel(g, size, e, delta);
      r == ShiftSelection(e, r.nav.offset - e.nav.offset).(nav := r.nav)
    ensures Aligned(g, e.nav.offset) ==> Aligned(g, Wheel(g, size, e, delta).nav.offset)
    ensures 0 <= e.nav.offset <= size ==> Wheel(g, size, e, delta).nav.offset <= size
  {
    WheelNavFacts(g, size, e.nav, WheelSteps(delta));
    WheelStaysAligned(g, size, e.nav, WheelSteps(delta));
    if -120 < delta < 120 {
      SmallTurn(delta);
      assert ShiftEnds(e, 0) == e;
    }
  }

  lemma SmallTurn(delta: int)
    requires -120 < delta < 120
    ensures WheelSteps(delta) == 0
  {
    TDivUnique(delta, 8, TDiv(delta, 8), TRem(delta, 8));
    var q := TDiv(delta, 8);
    assert -15 < q < 15 by {
      if q >= 15 { MulAtLeast(8, q, 15); }
      if q <= -15 { MulAtLeast(8, -15, q); }
    }
    TDivUnique(q, 15, 0, q);
  }

  /**
   * update_selection_position: the Up and Down keys with a selection move
   * the view by `amount` bytes when the new offset stays strictly inside
   * the buffer, and the selection ends with it on screen.
   */
  function SelectionScroll(size: int, e: Editor, amount: int): Editor
  {
    var o := e.nav.offset + amount;
    if 0 < o < size then ShiftEnds(e, amount).(nav := e.nav.(offset := o)) else e
  }

  /**
   * The view moves by `amount` exactly when the new offset lies strictly
   * between 0 and the size, and then both selection ends move up by
   * `amount` pixels; otherwise nothing changes.
   */
  lemma SelectionScrollEffect(size: int, e: Editor, amount: int)
    ensures 0 < e.nav.offset + amount < size ==>
      SelectionScroll(size, e, amount) == ShiftEnds(e, amount).(nav := e.nav.(offset := e.nav.offset + amount))
    ensures !(0 < e.nav.offset + amount < size) ==> SelectionScroll(size, e, amount) == e
  {
  }

  /**
   * Scrolling the selection by a whole row keeps the offset aligned, and
   * keeps an offset within the buffer within it.
   */
  lemma {:induction false} SelectionScrollAligned(g: Layout, size: int, e: Editor, amount: int)
    requires g.Valid() && (amount == g.columns || amount == -g.columns)
    ensures Aligned(g, e.nav.offset) ==> Aligned(g, SelectionScroll(size, e, amount).nav.offset)
    ensures e.nav.offset <= size ==> SelectionScroll(size, e, amount).nav.offset <= size
  {
    var o := SelectionScroll(size, e, amount).nav.offset;
    RowStepAligned(g, e.nav.offset, o);
  }

  /**
   * mousePressEvent: a press in the ASCII area is mapped to its hex column
   * (`hexColumn`, the value to_hex_column gives) and selects the ASCII side.
   * `ey` is the press's own y; y is the row-snapped one.
   */
  function MousePress(g: Layout, size: int, e: Editor, ex: int, ey: int, right: bool, hexColumn: int): Editor
    requires g.Valid()
  {
    if right then e
    else PressAt(g, size, e.(clickSide := InAsciiArea(g, ex)), PressColumn(g, ex, hexColumn), PressRow(g, ey), ey)
  }

  /** Whether a press or a move at x lies in the ASCII area. */
  predicate InAsciiArea(g: Layout, x: int)
    requires g.Valid()
  {
    g.ColumnWidth(3 * g.columns + 15) < x < g.ColumnWidth(4 * g.columns + 15)
  }

  /** The x a press acts on: its hex column when it hit the ASCII area. */
  function PressColumn(g: Layout, ex: int, hexColumn: int): int
    requires g.Valid()
  {
    if InAsciiArea(g, ex) then hexColumn else ex
  }

  /**
   * The y a press at `ey` moves the cursor to: the top of its row, moved
   * down by vertical_offset and up by vertical_shift plus half a row.
   */
  function PressRow(g: Layout, ey: int): int
    requires g.Valid()
  {
    (ey - g.verticalShift) - TRem(ey, g.fontHeight) - TDiv(g.fontHeight, 2) + g.verticalOffset
  }

  /**
   * The rest of mousePressEvent once the side is chosen: a press past the
   * data is ignored; any other hides the selection, and one on a byte moves
   * the cursor there and starts a drag.
   */
  function PressAt(g: Layout, size: int, e: Editor, x: int, y: int, ey: int): Editor
    requires g.Valid()
  {
    if BufferPosition(g, e.nav.offset, x, y, true) > size then e
    else if ey < g.verticalOffset + g.verticalShift then e.(selectionActive := false)
    else if g.ColumnWidth(11) < x < g.ColumnWidth(11 + g.columns * 3) - g.fontWidth then
      StartDrag(g, MoveCursor(g, size, e.(selectionActive := false), x, y))
    else e.(selectionActive := false)
  }

  /**
   * A press that is not already part of a drag anchors one at the cursor,
   * one cell to the left unless the cursor's pixel x is 1 modulo 3.
   */
  function StartDrag(g: Layout, e: Editor): Editor
  {
    if e.isDragging then e
    else
      var c := e.nav.cursor;
      var anchor := if TRem(c.x, 3) != 1 then Point(c.x - g.fontWidth, c.y) else c;
      e.(isDragging := true, selStart := anchor, selCurrent := anchor)
  }

  /**
   * The right button changes nothing. A left press records the side it hit,
   * makes no buffer request, keeps an aligned offset aligned, and a drag it
   * starts begins with both selection ends at one point.
   */
  lemma {:induction false} MousePressEffect(g: Layout, size: int, e: Editor, ex: int, ey: int, right: bool, hexColumn: int)
    requires g.Valid()
    ensures right ==> MousePress(g, size, e, ex, ey, right, hexColumn) == e
    ensures !right ==> MousePress(g, size, e, ex, ey, right, hexColumn).clickSide == InAsciiArea(g, ex)
    ensures var r := MousePress(g, size, e, ex, ey, right, hexColumn);
      !right && r.isDragging && !e.isDragging ==> r.selStart == r.selCurrent
    ensures Aligned(g, e.nav.offset) ==> Aligned(g, MousePress(g, size, e, ex, ey, right, hexColumn).nav.offset)
    ensures e.nav.offset <= size ==> MousePress(g, size, e, ex, ey, right, hexColumn).nav.offset <= size
    ensures MousePress(g, size, e, ex, ey, right, hexColumn).calls == e.calls
  {
    hide Move;
    MoveFacts(g, size, e.nav, PressColumn(g, ex, hexColumn), PressRow(g, ey));
  }

  /**
   * mouseMoveEvent: records the mouse position and, during a drag, shows the
   * selection, drags its end and points auto-scrolling down below the view
   * and up above it.
   */
  function MouseMove(g: Layout, size: int, e: Editor, ex: int, ey: int, hexColumn: int): Editor
    requires g.Valid()
  {
    var e1 := e.(mousePosition := Point(if e.clickSide then hexColumn else ex, ey));
    if e1.isDragging then
      var e2 := Drag(g, size, e1.(selectionActive := true), e1.mousePosition.x, ey);
      if ey > g.ColumnHeight(g.rows) then e2.(scrollDirection := true)
      else if ey < g.verticalShift then e2.(scrollDirection := false)
      else e2
    else e1
  }

  /**
   * The mouse position is recorded, in hex-column terms on the ASCII side.
   * Without a drag nothing else changes; during one the scroll direction
   * points down below the view and up above it, an aligned offset stays
   * aligned, and neither the buffer nor the drag flag is touched.
   */
  lemma {:induction false} MouseMoveEffect(g: Layout, size: int, e: Editor, ex: int, ey: int, hexColumn: int)
    requires g.Valid()
    ensures MouseMove(g, size, e, ex, ey, hexColumn).mousePosition == Point(if e.clickSide then hexColumn else ex, ey)
    ensures var r := MouseMove(g, size, e, ex, ey, hexColumn);
      !e.isDragging ==> r == e.(mousePosition := r.mousePosition)
    ensures e.isDragging && ey > g.ColumnHeight(g.rows) ==> MouseMove(g, size, e, ex, ey, hexColumn).scrollDirection
    ensures e.isDragging && g.verticalShift > ey && ey <= g.ColumnHeight(g.rows) ==>
      !MouseMove(g, size, e, ex, ey, hexColumn).scrollDirection
    ensures Aligned(g, e.nav.offset) ==> Aligned(g, MouseMove(g, size, e, ex, ey, hexColumn).nav.offset)
    ensures e.nav.offset <= size ==> MouseMove(g, size, e, ex, ey, hexColumn).nav.offset <= size
    ensures var r := MouseMove(g, size, e, ex, ey, hexColumn);
      r.calls == e.calls && r.isDragging == e.isDragging
  {
    var e1 := e.(mousePosition := Point(if e.clickSide then hexColumn else ex, ey));
    DragEffect(g, size, e1.(selectionActive := true), e1.mousePosition.x, ey);
  }

  /**
   * mouseReleaseEvent: ends the drag, and a selection whose ends coincide
   * is switched off.
   */
  function MouseRelease(e: Editor, ex: int, ey: int, hexColumn: int): Editor
  {
    var e1 := e.(mousePosition := Point(if e.clickSide then hexColumn else ex, ey), isDragging := false);
    if e1.selCurrent == e1.selStart then e1.(selectionActive := false) else e1
  }

  /**
   * After a release no drag is in progress, and the selection stays shown
   * exactly when it was shown and its ends differ.
   */
  lemma MouseReleaseEffect(e: Editor, ex: int, ey: int, hexColumn: int)
    ensures !MouseRelease(e, ex, ey, hexColumn).isDragging
    ensures MouseRelease(e, ex, ey, hexColumn).selectionActive <==> e.selectionActive && e.selCurrent != e.selStart
    ensures var r := MouseRelease(e, ex, ey, hexColumn);
      r == e.(mousePosition := Point(if e.clickSide then hexColumn else ex, ey),
              isDragging := false, selectionActive := r.selectionActive)
  {
  }

  /** A shown selection is deleted before a keystroke is typed over it. */
  function ClearSelection(g: Layout, e: Editor): Editor
    requires g.Valid()
  {
    if e.selectionActive then DeleteText(g, e) else e
  }

  /**
   * The value a key types on the given side, if any: a printable key's
   * character on the ASCII side, a hex key's nibble on the hex side.
   */
  function Typed(asciiSide: bool, key: int, modifiers: int): Option<int>
  {
    if asciiSide then
      if KeySpace <= key <= KeyAsciiTilde then Some(AsciiValue(key, modifiers)) else None
    else HexDigit(key)
  }

  /** The buffer write a typed value makes at the cursor: a whole byte or one nibble. */
  function TypedWrite(g: Layout, n: Nav, asciiSide: bool, value: int): BufferCall
    requires g.Valid()
  {
    if asciiSide then UpdateByte(value, BufferPosition(g, n.offset, n.cursor.x, n.cursor.y, true))
    else UpdateNibble(value, BufferPosition(g, n.offset, n.cursor.x, n.cursor.y, false))
  }

  /** How far right the cursor moves after typing: two cells for a byte, one for a nibble. */
  function TypedStep(g: Layout, asciiSide: bool): int
    requires g.Valid()
  {
    if asciiSide then g.fontWidth * 2 else g.fontWidth
  }

  /**
   * The typing part of keyPressEvent: a key that types a value on the
   * current side first deletes a shown selection, then writes the value
   * under the cursor and moves the cursor right.
   */
  function TypeKey(g: Layout, size: int, e: Editor, key: int, modifiers: int): Editor
    requires g.Valid()
  {
    match Typed(e.clickSide, key, modifiers)
    case None => e
    case Some(v) =>
      var f := ClearSelection(g, e);
      MoveCursor(g, size, f.(calls := f.calls + [TypedWrite(g, f.nav, e.clickSide, v)]),
                 f.nav.cursor.x + TypedStep(g, e.clickSide), f.nav.cursor.y)
  }

  /**
   * A key that types nothing on the current side changes nothing. Without
   * a selection a typed key makes exactly one write, under the cursor, and
   * then moves the cursor right past what it wrote; over a selection it is
   * delete_text followed by that same typing. An aligned offset stays
   * aligned.
   */
  lemma {:induction false} TypeKeyEffect(g: Layout, size: int, e: Editor, key: int, modifiers: int)
    requires g.Valid()
    ensures Typed(e.clickSide, key, modifiers).None? ==> TypeKey(g, size, e, key, modifiers) == e
    ensures var r := TypeKey(g, size, e, key, modifiers);
      var t := Typed(e.clickSide, key, modifiers);
      t.Some? && !e.selectionActive ==>
        r.calls == e.calls + [TypedWrite(g, e.nav, e.clickSide, t.value)] &&
        r.nav == Move(g, size, e.nav, e.nav.cursor.x + TypedStep(g, e.clickSide), e.nav.cursor.y) &&
        r == e.(nav := r.nav, calls := r.calls)
    ensures Typed(e.clickSide, key, modifiers).Some? && e.selectionActive ==>
      TypeKey(g, size, e, key, modifiers) == TypeKey(g, size, DeleteText(g, e), key, modifiers)
    ensures Aligned(g, e.nav.offset) ==> Aligned(g, TypeKey(g, size, e, key, modifiers).nav.offset)
    ensures e.nav.offset <= size ==> TypeKey(g, size, e, key, modifiers).nav.offset <= size
  {
    hide Move;
    if Typed(e.clickSide, key, modifiers).Some? {
      if e.selectionActive {
        DeleteTextEffect(g, e);
        TypedOnClean(g, size, DeleteText(g, e), key, modifiers);
      } else {
        TypedOnClean(g, size, e, key, modifiers);
      }
    }
  }

  lemma {:induction false} TypedOnClean(g: Layout, size: int, e: Editor, key: int, modifiers: int)
    requires g.Valid() && !e.selectionActive && Typed(e.clickSide, key, modifiers).Some?
    ensures var r := TypeKey(g, size, e, key, modifiers);
      var t := Typed(e.clickSide, key, modifiers);
      r.calls == e.calls + [TypedWrite(g, e.nav, e.clickSide, t.value)] &&
      r.nav == Move(g, size, e.nav, e.nav.cursor.x + TypedStep(g, e.clickSide), e.nav.cursor.y) &&
      r == e.(nav := r.nav, calls := r.calls)
    ensures Aligned(g, e.nav.offset) ==> Aligned(g, TypeKey(g, size, e, key, modifiers).nav.offset)
    ensures e.nav.offset <= size ==> TypeKey(g, size, e, key, modifiers).nav.offset <= size
  {
    hide Move;
    assert ClearSelection(g, e) == e;
    MoveFacts(g, size, e.nav, e.nav.cursor.x + TypedStep(g, e.clickSide), e.nav.cursor.y);
  }

  /**
   * The two sides decode keys as keyPressEvent does: the ASCII side takes
   * every printable key, as AsciiValue gives it, and the hex side only the
   * digits and the capitals A to F, as HexDigit gives them.
   */
  lemma TypedFacts(key: int, modifiers: int)
    ensures Typed(true, key, modifiers).Some? <==> KeySpace <= key <= KeyAsciiTilde
    ensures Typed(true, key, modifiers).Some? ==> Typed(true, key, modifiers).value == AsciiValue(key, modifiers)
    ensures Typed(false, key, modifiers) == HexDigit(key)
    ensures Typed(false, key, modifiers).Some? <==> (Key0 <= key <= Key9 || KeyA <= key <= KeyF)
  {
  }

  /** The x the End key aims at: past the row's last byte, or the data's end on its last row. */
  function EndKeyColumn(g: Layout, size: int, offset: int, y: int): int
    requires g.Valid()
  {
    if BufferPosition(g, offset, g.ColumnWidth(8 + g.columns * 3), y, true) < size
    then g.ColumnWidth(8 + g.columns * 3)
    else g.ColumnWidth(TRem(size, g.columns) * 3 + 11)
  }

  /**
   * The point update_cursor_position is called with by the keys of
   * keyPressEvent's final switch that move the cursor: Backspace, Home,
   * End, Up, Down, Right, Left, Page Up and Page Down.
   */
  function KeyTarget(g: Layout, size: int, n: Nav, key: int): Option<Point>
    requires g.Valid()
  {
    var c := n.cursor;
    if key == KeyBackspace then Some(Point(c.x - g.ColumnWidth(3), c.y))
    else if key == KeyHome then Some(Point(g.ColumnWidth(11), c.y))
    else if key == KeyEnd then Some(Point(EndKeyColumn(g, size, n.offset, c.y), c.y))
    else if key == KeyUp then Some(Point(c.x, c.y - g.fontHeight))
    else if key == KeyDown then Some(Point(c.x, c.y + g.fontHeight))
    else if key == KeyRight then Some(Point(c.x + g.fontWidth, c.y))
    else if key == KeyLeft then Some(Point(c.x - g.ColumnWidth(2), c.y))
    else if key == KeyPageUp then Some(Point(c.x, c.y - g.ColumnHeight(g.rows)))
    else if key == KeyPageDown then Some(Point(c.x, c.y + g.ColumnHeight(g.rows)))
    else None
  }

  /**
   * The final switch of keyPressEvent: Delete deletes, Up and Down move a
   * shown selection, and the other keys move the cursor, Backspace then
   * deleting where it lands.
   */
  function NavigateKey(g: Layout, size: int, e: Editor, key: int): Editor
    requires g.Valid()
  {
    if key == KeyDelete then DeleteText(g, e)
    else if key == KeyUp && e.selectionActive then SelectionScroll(size, e, -g.columns)
    else if key == KeyDown && e.selectionActive then SelectionScroll(size, e, g.columns)
    else
      match KeyTarget(g, size, e.nav, key)
      case None => e
      case Some(p) =>
        var m := MoveCursor(g, size, e, p.x, p.y);
        if key == KeyBackspace then DeleteText(g, m) else m
  }

  /**
   * Where each moving key aims: Backspace one byte back, Home the row's
   * first byte, Up and Down one row, Right one cell on, Left one byte back
   * and the page keys a screen's height; only these keys and Delete take
   * part in the switch.
   */
  lemma KeyTargetFacts(g: Layout, size: int, n: Nav, key: int)
    requires g.Valid()
    ensures KeyTarget(g, size, n, key).Some? <==> IsNavigationKey(key) && key != KeyDelete
    ensures var c := n.cursor;
      var t := KeyTarget(g, size, n, key);
      (key == KeyBackspace ==> t == Some(Point(c.x - 3 * g.fontWidth, c.y))) &&
      (key == KeyHome ==> t == Some(Point(11 * g.fontWidth, c.y))) &&
      (key == KeyUp ==> t == Some(Point(c.x, c.y - g.fontHeight))) &&
      (key == KeyDown ==> t == Some(Point(c.x, c.y + g.fontHeight))) &&
      (key == KeyRight ==> t == Some(Point(c.x + g.fontWidth, c.y))) &&
      (key == KeyLeft ==> t == Some(Point(c.x - 2 * g.fontWidth, c.y))) &&
      (key == KeyPageUp ==> t == Some(Point(c.x, c.y - g.rows * g.fontHeight))) &&
      (key == KeyPageDown ==> t == Some(Point(c.x, c.y + g.rows * g.fontHeight)))
  {
  }

  /**
   * Keys outside the switch change nothing; Delete is delete_text; Up and
   * Down move a shown selection one row; every other key of the switch
   * moves the cursor to its target, and Backspace then deletes there. An
   * aligned offset stays aligned.
   */
  lemma {:induction false} NavigateKeyEffect(g: Layout, size: int, e: Editor, key: int)
    requires g.Valid()
    ensures !IsNavigationKey(key) ==> NavigateKey(g, size, e, key) == e
    ensures key == KeyDelete ==> NavigateKey(g, size, e, key) == DeleteText(g, e)
    ensures (key == KeyUp || key == KeyDown) && e.selectionActive ==>
      NavigateKey(g, size, e, key) == SelectionScroll(size, e, if key == KeyUp then -g.columns else g.columns)
    ensures var t := KeyTarget(g, size, e.nav, key);
      var r := NavigateKey(g, size, e, key);
      t.Some? && !((key == KeyUp || key == KeyDown) && e.selectionActive) ==>
        (key == KeyBackspace ==> r == DeleteText(g, MoveCursor(g, size, e, t.value.x, t.value.y))) &&
        (key != KeyBackspace ==> r == MoveCursor(g, size, e, t.value.x, t.value.y))
    ensures Aligned(g, e.nav.offset) ==> Aligned(g, NavigateKey(g, size, e, key).nav.offset)
    ensures e.nav.offset <= size ==> NavigateKey(g, size, e, key).nav.offset <= size
  {
    KeyTargetFacts(g, size, e.nav, key);
    if key == KeyDelete {
      DeleteTextEffect(g, e);
    } else if (key == KeyUp || key == KeyDown) && e.selectionActive {
      SelectionScrollAligned(g, size, e, if key == KeyUp then -g.columns else g.columns);
    } else if KeyTarget(g, size, e.nav, key).Some? {
      var p := KeyTarget(g, size, e.nav, key).value;
      MoveFacts(g, size, e.nav, p.x, p.y);
      DeleteTextEffect(g, MoveCursor(g, size, e, p.x, p.y));
    }
  }

  /**
   * keyPressEvent: Control+A selects all and Alt+S toggles scroll mode,
   * each ending the event; Control+Shift+V pastes raw and goes on to the
   * typing and navigation parts like any other key.
   */
  function KeyPress(g: Layout, size: int, e: Editor, key: int, modifiers: int, maxLines: int): Editor
    requires g.Valid()
  {
    if modifiers == ControlModifier then
      if key == KeyA then SelectAll(g, e, maxLines) else e
    else if modifiers == AltModifier then
      if key == KeyS then e.(scrollMode := !e.scrollMode) else e
    else
      NavigateKey(g, size, TypeKey(g, size, RawPaste(g, size, e, key, modifiers), key, modifiers), key)
  }

  /** Control+Shift+V pastes raw before the key goes on to be typed and navigated. */
  function RawPaste(g: Layout, size: int, e: Editor, key: int, modifiers: int): Editor
    requires g.Valid()
  {
    if modifiers == ControlModifier + ShiftModifier && key == KeyV then PasteAt(g, size, e, true) else e
  }

  /**
   * With Control only A acts, and with Alt only S; any key press keeps an
   * aligned offset aligned.
   */
  lemma {:induction false} KeyPressEffect(g: Layout, size: int, e: Editor, key: int, modifiers: int, maxLines: int)
    requires g.Valid()
    ensures modifiers == ControlModifier ==>
      KeyPress(g, size, e, key, modifiers, maxLines) == (if key == KeyA then SelectAll(g, e, maxLines) else e)
    ensures modifiers == AltModifier ==>
      KeyPress(g, size, e, key, modifiers, maxLines) == (if key == KeyS then e.(scrollMode := !e.scrollMode) else e)
    ensures Aligned(g, e.nav.offset) ==> Aligned(g, KeyPress(g, size, e, key, modifiers, maxLines).nav.offset)
    ensures e.nav.offset <= size ==> KeyPress(g, size, e, key, modifiers, maxLines).nav.offset <= size
  {
    if modifiers != ControlModifier && modifiers != AltModifier {
      var e1 := RawPaste(g, size, e, key, modifiers);
      PasteAtEffect(g, size, e, true);
      TypeKeyEffect(g, size, e1, key, modifiers);
      NavigateKeyEffect(g, size, TypeKey(g, size, e1, key, modifiers), key);
    }
  }

  /**
   * On the hex side, with no selection and no Control or Alt, the key for
   * nibble value v writes v at the nibble under the cursor and then moves
   * the cursor one cell right, and nothing else is written.
   */
  lemma {:induction false} HexKeyWritesNibble(g: Layout, size: int, e: Editor, v: int, modifiers: int, maxLines: int)
    requires g.Valid() && 0 <= v < 16 && !e.clickSide && !e.selectionActive
    requires modifiers != ControlModifier && modifiers != AltModifier
    ensures var r := KeyPress(g, size, e, HexKey(v), modifiers, maxLines);
      r.calls == e.calls + [UpdateNibble(v, BufferPosition(g, e.nav.offset, e.nav.cursor.x, e.nav.cursor.y, false))] &&
      r.nav == Move(g, size, e.nav, e.nav.cursor.x + g.fontWidth, e.nav.cursor.y)
  {
    hide Move;
    var key := HexKey(v);
    HexDigitRoundTrip(v, key);
    assert !(modifiers == ControlModifier + ShiftModifier && key == KeyV);
    assert !IsNavigationKey(key);
    TypedFacts(key, modifiers);
    TypeKeyEffect(g, size, e, key, modifiers);
    NavigateKeyEffect(g, size, TypeKey(g, size, e, key, modifiers), key);
  }

  /**
   * Control+Shift+V on the ASCII side does not end the event after the raw
   * paste: the same key then types a lower-case `v` over the byte the paste
   * was requested at.
   */
  lemma {:induction false} RawPasteAlsoTypes(g: Layout, size: int, e: Editor, maxLines: int)
    requires g.Valid() && e.clickSide && !e.selectionActive
    ensures var p := PasteAt(g, size, e, true);
      var at := BufferPosition(g, p.nav.offset, p.nav.cursor.x, p.nav.cursor.y, true);
      KeyPress(g, size, e, KeyV, ControlModifier + ShiftModifier, maxLines).calls ==
        e.calls + [Paste(at, 0, true), UpdateByte('v' as int, at)]
  {
    hide Move;
    var p := PasteAt(g, size, e, true);
    PasteAtEffect(g, size, e, true);
    assert RawPaste(g, size, e, KeyV, ControlModifier + ShiftModifier) == p;
    TypedFacts(KeyV, ControlModifier + ShiftModifier);
    assert Typed(p.clickSide, KeyV, ControlModifier + ShiftModifier) == Some('v' as int);
    TypedOnClean(g, size, p, KeyV, ControlModifier + ShiftModifier);
    assert !IsNavigationKey(KeyV);
    NavigateKeyEffect(g, size, TypeKey(g, size, p, KeyV, ControlModifier + ShiftModifier), KeyV);
  }

  /**
   * On the ASCII side, with no selection and no Control or Alt, a letter
   * typed without Shift is written in lower case at the byte under the
   * cursor, and the cursor moves two cells right.
   */
  lemma {:induction false} LetterWritesLowerCase(g: Layout, size: int, e: Editor, key: int, modifiers: int, maxLines: int)
    requires g.Valid() && e.clickSide && !e.selectionActive && 'A' as int <= key <= 'Z' as int
    requires modifiers != ControlModifier && modifiers != AltModifier && modifiers != ShiftModifier
    requires !(modifiers == ControlModifier + ShiftModifier && key == KeyV)
    ensures var r := KeyPress(g, size, e, key, modifiers, maxLines);
      r.calls == e.calls + [UpdateByte('a' as int + (key - 'A' as int),
        BufferPosition(g, e.nav.offset, e.nav.cursor.x, e.nav.cursor.y, true))] &&
      r.nav == Move(g, size, e.nav, e.nav.cursor.x + g.fontWidth * 2, e.nav.cursor.y)
  {
    hide Move;
    assert !IsNavigationKey(key);
    TypedFacts(key, modifiers);
    TypeKeyEffect(g, size, e, key, modifiers);
    NavigateKeyEffect(g, size, TypeKey(g, size, e, key, modifiers), key);
  }
}
