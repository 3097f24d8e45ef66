# shex editor core in Dafny

This project models the position and selection logic of the shex hex
editor (a Qt widget written in C++) and proves properties of it. The model
has three parts.

- **`Selection`** (`selection.dfy`) models the `selection` value type. It
  is a class with the fields `start`, `end`, `active` and `dragging`, with
  the setters as methods and the getters as functions that read those
  fields. A nibble range is stored exactly as it was dragged, and a
  reversed drag is normalised only when it is read.
- **`AddressDisplay`** (`address_display.dfy`) models the address column's
  two conversions, from a screen point to the first nibble of its row and
  back. Round-trip lemmas are proved for both directions.
- **The editor widget** of `hex_editor.cpp` is split into three modules:
  - `EditorGeometry` states the coordinate arithmetic as functions:
    get_buffer_position, the steps of update_cursor_position, the wheel
    scroll and get_selection_point.
  - `EditorModel` states each event handler as a function from the old
    editor state (datatype `Editor`) to the new one, and proves what each
    handler does.
  - `HexEditor` is a class with the widget's fields. Its methods update
    those fields in place, following the C++ handlers branch by branch.
    Each method is proved to leave `State()` equal to the matching
    `EditorModel` function of the old state. So everything proved about
    the model also holds for the widget.

`Primitives` defines C++ integer division and remainder, which truncate
toward zero (`TDiv`, `TRem`). `Keys` holds Qt's key and modifier codes.

The ROM buffer appears only as its size and as a ghost log of the
requests the editor makes of it (`update_nibble`, `update_byte`, `cut`,
`copy`, `paste`, `delete_text`). `column_width(n)` and `column_height(n)`
are taken to be `n * font_width` and `n * font_height`, with positive font
sizes. The widget's offset invariant is `Aligned`: the offset is a
non-negative whole number of rows. Every handler that moves the view is
proved to keep it; the slider keeps it for a non-negative position, which
is all a scroll bar sends. Every handler except the slider is also proved to keep
an offset that lies within the buffer (`offset <= size`) within it. The
slider sets the offset to `position * columns`, so it keeps that bound
only when `position * columns <= size`. Where the wheel or the slider
changes the offset by `d`, both ends of a shown selection move their y
values by `-d`; a hidden selection is left alone. A
drag moves only the anchored start's y by `-d`: the moving end takes the
cursor's new position. The code uses the byte count `d` as a pixel
distance there, and the model keeps that.

Every call of `get_buffer_position` with two arguments is modelled with
`byte_align` set to true. The default value of that parameter is declared
in hex_editor.h, which is not part of this model. The call with an
explicit `false` at hex_editor.cpp:373 and :380 writes a single nibble.
That supports reading the default as byte-aligned.

Where a natural reading differs from the code, the model follows the code:

- For `create_selection(10, 10)`, a description of the bytes [10, 20)
  gives `byte_range() == 10`. The code stores `end` one past the last
  nibble and returns `(end - start + 1) / 2 == 11`. `CreatedSelection`
  proves `n + 1` for every non-negative `n`.
- The end-of-data position used by update_undo_action, update_selection
  and wheelEvent counts its row from the top of the view, not from the
  start of the buffer. When the last row is partial it resolves to byte
  `offset + size`: just past the data at offset 0, and `offset` bytes
  further once scrolled. When the size is a whole number of rows, it lies
  one row further on (`EndOfDataPosition`). For example, with 100 bytes
  and the view moved down one row (offset 16, which Down over a selection
  reaches), Control+Z puts the cursor on byte 116.
- Control+Shift+V does not end the key event after `paste(true)`
  (hex_editor.cpp:338-343). On the ASCII side the same key press then
  types a lower-case `v` over the byte the paste was requested at
  (`RawPasteAlsoTypes`).
- select_all measures both ends from the current offset. At offset 0 the
  selection covers bytes 0 to `(max_lines + rows) * columns`
  (`SelectAllEffect`). Once the view is scrolled, the start lies above the
  buffer: at offset 112 in the default layout the ordered selection starts
  at byte -16, and a cut requests that range (`SelectAllScrolled`).
- The `x % 3 != 1` tests of paste, mousePressEvent and update_selection
  (hex_editor.cpp:185, :510 and :729) look at the cursor's pixel x. They do
  not test which nibble the cursor is on. A low nibble's pixel
  `(12 + 3b) * font_width` is always a multiple of 3 (`LowNibblePixel`).
- paste without a selection first moves the cursor up by
  `vertical_shift + font_height / 2`. With the default 14-pixel font and
  shift, that is two rows up: a cursor on byte 80 pastes at byte 49
  (`PasteTwoRowsUp`).
- update_cursor_position checks the size only at the requested point, and
  its scroll test `y > rows * font_height` ignores `vertical_offset`. So
  the cursor can come to rest past the data. In a 517-byte buffer, a
  request at (448, 451) scrolls one row and leaves the cursor on byte 527
  (`CursorPastData`).

## Model

| member | source | states |
|---|---|---|
| Primitives.TDiv | hex_editor.cpp:629-632 | C++ `/`: for operands that are not negative it is Euclidean division, and with a positive divisor the quotient has the dividend's sign |
| Primitives.TRem | hex_editor.cpp:641 | C++ `%`: `a == b * TDiv(a, b) + r`, `|r| < |b|`, and `r` has the sign of `a` |
| Keys.HexDigit | hex_editor.cpp:368-381 | a key types a nibble exactly when it is `0`-`9` or `A`-`F`; the value is below 16, and such a key is printable and not a navigation key |
| Keys.HexDigitRoundTrip | hex_editor.cpp:368-381 | each nibble value has exactly one key, which decodes back to it |
| Keys.AsciiValue | hex_editor.cpp:361-363 | an unshifted capital is stored in lower case, any other key as its own code; a printable key stays printable |
| Selection.Selection.constructor | selection.h:18-21 | a fresh selection has `start == end == 0` and both flags off; it normalises to [0, 2), has `range() == 1` and `byte_range() == 0`, and is not active |
| Selection.Selection.CreateSelection | selection.cpp:6-12 | stores `2*s` and `2*(s+n)+1` and switches on; for `s, n >= 0` the byte getters give `s` and `s+n`, `byte_range()` is `n+1`, and it is active exactly when `n > 0` |
| Selection.Selection.SetStart | selection.cpp:14-17 | changes `start` and nothing else |
| Selection.Selection.SetEnd | selection.cpp:19-23 | stores one past the given nibble and switches the selection on; `start` and `dragging` are kept |
| Selection.Selection.GetStart | selection.cpp:25-28 | the smaller of the stored bounds |
| Selection.Selection.GetEnd | selection.cpp:30-33 | strictly above `get_start()` in every state: the stored end of a forward range, otherwise two nibbles past the stored start |
| Selection.Selection.GetStartByte | selection.cpp:35-38 | the byte of `get_start()`, rounded toward zero |
| Selection.Selection.GetEndByte | selection.cpp:40-43 | the byte of `get_end()`, rounded toward zero |
| Selection.Selection.GetStartAligned | selection.cpp:45-48 | `get_start() & ~1`: even, at most `get_start()`, and at most one below it |
| Selection.Selection.GetEndAligned | selection.cpp:51-54 | `get_end() & ~1`: even, at most `get_end()`, and at most one below it |
| Selection.Selection.MoveEnd | selection.cpp:56-59 | moves `end` by exactly `amount` and changes nothing else |
| Selection.Selection.Range | selection.cpp:61-64 | the inclusive span of the raw fields; it is positive exactly when they are not reversed |
| Selection.Selection.ByteRange | selection.cpp:66-69 | `range()` halved with C++ division |
| Selection.Selection.IsActive | selection.cpp:71-74 | active exactly when the flag is on and the normalised range ends in a later byte than it starts |
| Selection.Selection.SetActive | selection.cpp:76-82 | sets the flag; switching it off also ends the drag, and switching it on keeps the drag flag |
| Selection.Selection.IsDragging | selection.cpp:84-87 | reports the drag flag, the one SetDragging sets and SetActive(false) clears |
| Selection.Selection.SetDragging | selection.cpp:89-92 | `is_dragging()` afterwards answers the value set; nothing else changes |
| Selection.Selection.CreatedSelection | selection.cpp:6-12 | what create_selection stores covers bytes `s` to `s+n`, both included |
| Selection.Selection.ReversedDrag | selection.cpp:25-33 | a reversed drag stays recorded as `start > end`; the getters swap it and end one byte past the stored start, and `range()` is not positive |
| AddressDisplay.ScreenToNibble | displays/address_display.cpp:21-26 | the result is always even; for a point on or below the top, it is at least `2*offset` |
| AddressDisplay.NibbleToScreen | displays/address_display.cpp:29-34 | x is 0, and y is a whole number of rows |
| AddressDisplay.ScreenToNibbleIgnoresX | displays/address_display.cpp:21-26 | the point's x and the `byte_align` flag play no part |
| AddressDisplay.ScreenToNibbleMonotone | displays/address_display.cpp:24-25 | a lower point never maps to an earlier nibble |
| AddressDisplay.NibbleRoundTrip | displays/address_display.cpp:21-34 | nibble to screen and back gives the first nibble of that nibble's row, with rows counted by C++ division |
| AddressDisplay.NibbleRoundTripVisible | displays/address_display.cpp:21-34 | for `n >= 2*offset`, the round trip gives `2*offset + 2*columns*((n - 2*offset) / (2*columns))` |
| AddressDisplay.RowStartRoundTrip | displays/address_display.cpp:21-34 | a row-start nibble survives the round trip unchanged |
| AddressDisplay.EveryRowAddressed | displays/address_display.cpp:21-26 | every row start `2*offset + 2*columns*row` is the nibble of some point of the column |
| AddressDisplay.ScreenRoundTrip | displays/address_display.cpp:21-34 | screen to nibble and back snaps the point to x 0 and the top of its row |
| AddressDisplay.ScreenRoundTripVisible | displays/address_display.cpp:21-34 | for `y >= 0` the round trip's y is `y - y % height` |
| EditorGeometry.BufferPosition | hex_editor.cpp:627-634 | the first hex cell of the top row is byte `offset`, or nibble `2*offset` when not byte-aligned |
| EditorGeometry.CellPosition | hex_editor.cpp:627-634 | every pixel of nibble cell h of byte column b on a row maps to that nibble, and to that byte when byte-aligned; a separator counts as the next byte |
| EditorGeometry.EveryNibbleReachable | hex_editor.cpp:627-634 | every nibble from `2*offset` on lies under some pixel, which in byte mode gives the byte holding that nibble |
| EditorGeometry.BufferPositionShift | hex_editor.cpp:627-634 | scrolling one row down adds `2*columns` to every pixel's nibble, and the byte result is the nibble result halved |
| EditorGeometry.WrapColumnFacts | hex_editor.cpp:641-656 | the wrap step refuses only a step left of the first column on the top row at offset 0. Otherwise the column is on the character grid and the row moves by at most one. With at least five columns the column is also within the last column |
| EditorGeometry.LastColumnFacts | hex_editor.cpp:646 | the wrap-back column is cell `4*columns - 7`, right of the first hex cell once there are five columns |
| EditorGeometry.OnGrid | hex_editor.cpp:641-654 | each of the three columns the wrap step can choose is a whole number of character cells |
| EditorGeometry.ScrollRowFacts | hex_editor.cpp:658-675 | the offset moves down one row exactly when the cursor leaves the last row and more data follows, and up one row exactly when it leaves the first row at a positive offset; past the data the cursor snaps to the last column |
| EditorGeometry.SettleFacts | hex_editor.cpp:676-683 | the cursor stays on the character grid and either keeps its row or goes to the top of a row inside the view |
| EditorGeometry.RowTopFacts | hex_editor.cpp:676-677 | the top of the row holding a y inside the view is a row boundary inside the view |
| EditorGeometry.RowStepAligned | hex_editor.cpp:658-675 | a step of one row, upward only from a positive offset, keeps the offset a non-negative whole number of rows |
| EditorGeometry.CursorUpdate | hex_editor.cpp:636-684 | an accepted request turns the cursor on, and the requested point's byte lies within the size |
| EditorGeometry.CursorUpdateFacts | hex_editor.cpp:636-689 | a request is refused exactly when its byte lies past the size, or when it steps left of the first column on the top row at offset 0. An accepted one turns the cursor on and moves the offset by at most one row, down only while data follows and up only from a positive offset, so `Aligned` is kept. It leaves the cursor on the grid, on its old row or on a row inside the view |
| EditorGeometry.CursorPastData | hex_editor.cpp:636-684 | in a 517-byte buffer, a request at (448, 451) is accepted, scrolls one row and leaves the cursor on byte 527, past the data |
| EditorGeometry.MoveFacts | hex_editor.cpp:636-689 | a cursor move, refused or not, keeps the offset aligned, keeps an offset within the buffer within it, and moves it by at most one row |
| EditorGeometry.ScrollTicksStayAligned | hex_editor.cpp:99-105 | any number of auto-scroll steps keeps the offset aligned, and keeps an offset within the buffer within it |
| EditorGeometry.ScrollTicksDrift | hex_editor.cpp:99-105 | k auto-scroll steps move the offset by at most k rows |
| EditorGeometry.EndOfDataPosition | hex_editor.cpp:704-710 | while the data fits the view, the end-of-data position holds byte `offset + size` when the last row is partial (just past the data only at offset 0), and byte `offset + size + columns` when the size is a whole number of rows |
| EditorGeometry.WheelNavFacts | hex_editor.cpp:441-469 | zero steps change nothing. Up moves the view by `steps` rows exactly when that keeps the offset non-negative, and otherwise clamps at 0. Down moves it by `-steps` rows only from an offset inside the buffer, and only to one that keeps the last screen of data in view; otherwise it leaves it alone. The blink state and the cursor column are kept, unless the cursor is sent to the end of the data |
| EditorGeometry.WheelStaysAligned | hex_editor.cpp:441-469 | the wheel keeps the offset aligned, and keeps a non-negative offset within the buffer within it |
| EditorGeometry.WheelRoundTrip | hex_editor.cpp:441-469 | scrolling down by n rows and then up by n rows restores the offset and the cursor, when the first scroll was not cut short at the end of the data |
| EditorGeometry.LowNibblePixel | hex_editor.cpp:185 | the pixel x of any byte's low nibble is a multiple of 3, so the `x % 3 != 1` tests never pick out the low nibble |
| EditorGeometry.SelectionPoint | hex_editor.cpp:604-614 | an end above the view is drawn from the first cell of the top row; an end inside the view is drawn where it is; the result's y always lies in the view |
| EditorGeometry.SelectionPointIdempotent | hex_editor.cpp:604-614 | clamping twice is clamping once |
| EditorModel.SelectionRangeOrders | hex_editor.cpp:616-625 | the two byte positions come out ordered; the stored ends are swapped exactly when they were reversed, and nothing else changes |
| EditorModel.SelectionRangeIdempotent | hex_editor.cpp:616-625 | a second get_selection_range changes nothing |
| EditorModel.CutSelectionEffect | hex_editor.cpp:155-166 | without a selection only the ends are ordered. With one, the selected bytes are cut, the cursor goes to the selection's start and the selection is hidden. The offset never changes |
| EditorModel.CopySelectionEffect | hex_editor.cpp:168-177 | exactly one copy request is made, of the selected bytes, when a selection is shown, and none otherwise |
| EditorModel.PasteAtEffect | hex_editor.cpp:179-193 | with a selection it pastes over it. Without one it pastes at the byte the cursor finally rests on and leaves the selection off. The offset stays aligned and within the buffer |
| EditorModel.PasteTwoRowsUp | hex_editor.cpp:184-191 | in the default layout, a cursor on byte 80 at offset 0 moves two rows up before an unselected paste, which is requested at byte 49 |
| EditorModel.DeleteTextEffect | hex_editor.cpp:195-206 | deletes the byte under the cursor, or the selected bytes with the cursor moved to the selection's start; afterwards no selection is shown and the offset is unchanged |
| EditorModel.UndoActionEffect | hex_editor.cpp:125-138 | both flags are cleared; the cursor stays on byte 0 and otherwise jumps to the end of the data; nothing else changes |
| EditorModel.SelectAllEffect | hex_editor.cpp:208-217 | the selection is switched on and nothing else changes. At offset 0, with `0 < vertical_offset <= font_height`, the ordered selection covers bytes 0 to `(max_lines + rows) * columns` |
| EditorModel.SelectAllScrolled | hex_editor.cpp:208-217 | at offset 112 in the default layout, with `max_lines` 100, the ordered selection runs from byte -16 to byte 2096, and a cut requests exactly that range |
| EditorModel.ToggleSideEffect | hex_editor.cpp:317-323 | Tab flips the side and nothing else, so twice is no change |
| EditorModel.ScrollSpeed | hex_editor.cpp:84 | the interval is the number of whole 15-pixel steps in `|distance - height/2 - 1|`: `15*r <= |v| < 15*(r+1)` |
| EditorModel.SliderUpdateEffect | hex_editor.cpp:61-87 | outside scroll mode the offset becomes `position` rows, aligned for `position >= 0`, and the cursor and a shown selection move by the opposite of the change. In scroll mode the direction is down below the middle and up above it, and the middle sets the interval to INT_MAX |
| EditorModel.ScrollFactor | hex_editor.cpp:95-98 | a tick takes `20 - speed` steps when the speed is below 5, and one step otherwise |
| EditorModel.DragNavAligned | hex_editor.cpp:728-731 | the two cursor moves of a drag keep the offset aligned, and keep an offset within the buffer within it |
| EditorModel.DragNavDrift | hex_editor.cpp:728-731 | the two cursor moves of a drag scroll by at most two rows |
| EditorModel.DragEffect | hex_editor.cpp:702-745 | a drag more than a row past the data only moves the moving end to the end of the data. Otherwise the cursor and the moving end coincide, and the anchored end moves by exactly the opposite of the offset change. The offset stays aligned and within the buffer and moves by at most two rows, and nothing else changes |
| EditorModel.AutoScrollEffect | hex_editor.cpp:89-107 | during a drag a tick is a drag to the last mouse position. Otherwise only the navigation state changes and the offset moves by at most ScrollFactor rows. The offset stays aligned and within the buffer |
| EditorModel.WheelEffect | hex_editor.cpp:435-479 | a turn of under one notch changes nothing; a shown selection moves by the opposite of the offset change; the offset stays aligned, and a non-negative offset stays within the buffer |
| EditorModel.SmallTurn | hex_editor.cpp:437 | a delta strictly between -120 and 120 makes no notch |
| EditorModel.SelectionScrollEffect | hex_editor.cpp:691-700 | the view moves by `amount`, and both ends by `-amount`, exactly when the new offset lies strictly between 0 and the size; otherwise nothing changes |
| EditorModel.SelectionScrollAligned | hex_editor.cpp:691-700 | moving by one row keeps the offset aligned, and keeps an offset within the buffer within it |
| EditorModel.MousePressEffect | hex_editor.cpp:481-516 | the right button changes nothing. A left press records the side it hit and makes no buffer request. The offset stays aligned and within the buffer, and a drag it starts begins with both ends at one point |
| EditorModel.MouseMoveEffect | hex_editor.cpp:518-538 | the mouse position is recorded in hex-column terms on the ASCII side, and without a drag nothing else changes. During one, the direction points down below the view and up above it, and the offset stays aligned and within the buffer. Neither the buffer nor the drag flag is touched |
| EditorModel.MouseReleaseEffect | hex_editor.cpp:540-556 | the drag ends; the selection stays shown exactly when it was shown and its ends differ |
| EditorModel.TypeKeyEffect | hex_editor.cpp:356-383 | a key that types nothing on the current side changes nothing. Without a selection a typed key makes exactly one write, under the cursor, then moves the cursor right past it. Over a selection it is delete_text followed by that same typing. The offset stays aligned and within the buffer |
| EditorModel.TypedOnClean | hex_editor.cpp:356-383 | without a selection, typing is one write under the cursor, then the cursor move, and nothing else |
| EditorModel.TypedFacts | hex_editor.cpp:356-383 | the ASCII side takes every printable key, the hex side only `0`-`9` and `A`-`F` |
| EditorModel.KeyTargetFacts | hex_editor.cpp:385-432 | where each moving key sends the cursor: Backspace and Left go one byte back (3 and 2 cells), Home to the row's first hex cell, Up and Down one row, Right one cell, and the page keys a screen's height |
| EditorModel.NavigateKeyEffect | hex_editor.cpp:385-432 | other keys change nothing. Delete is delete_text. Up and Down move a shown selection one row. Every other key moves the cursor to its target, and Backspace then deletes there. The offset stays aligned and within the buffer |
| EditorModel.KeyPressEffect | hex_editor.cpp:326-433 | with Control only A acts, and with Alt only S; every key press keeps the offset aligned and within the buffer |
| EditorModel.HexKeyWritesNibble | hex_editor.cpp:368-382 | on the hex side, with no selection, the key for nibble value v writes exactly v at the nibble under the cursor, then moves the cursor one cell right |
| EditorModel.RawPasteAlsoTypes | hex_editor.cpp:338-365 | on the ASCII side with no selection, Control+Shift+V requests the raw paste and then writes a lower-case `v` at the same byte |
| EditorModel.LetterWritesLowerCase | hex_editor.cpp:361-365 | on the ASCII side, with no selection, an unshifted letter writes its lower case at the byte under the cursor, then moves the cursor two cells right |
| HexEditor.HexEditor.constructor | hex_editor.cpp:9-40 | 16 columns, 32 rows, offset 0 (aligned), the cursor on the first hex cell of the top row, and every flag off |
| HexEditor.HexEditor.CursorStep | hex_editor.cpp:636-689 | the C++ branches compute CursorUpdate, whose refusals and bounds CursorUpdateFacts states |
| HexEditor.HexEditor.WrapStep | hex_editor.cpp:641-656 | the column and row code computes WrapColumn (see WrapColumnFacts) |
| HexEditor.HexEditor.ScrollStep | hex_editor.cpp:658-675 | the scrolling code computes ScrollRow (see ScrollRowFacts) |
| HexEditor.HexEditor.SettleStep | hex_editor.cpp:676-684 | the final cursor placement computes Settle (see SettleFacts) |
| HexEditor.HexEditor.MoveStep | hex_editor.cpp:636-689 | update_cursor_position on a copy of the navigation state: a refused request gives it back unchanged |
| HexEditor.HexEditor.UpdateCursorPosition | hex_editor.cpp:636-689 | the widget's offset, cursor and blink state become Move's; every other field is kept |
| HexEditor.HexEditor.GetSelectionRange | hex_editor.cpp:616-625 | returns the ordered byte positions and whether a selection is shown, and swaps the stored ends as SelectionRange does |
| HexEditor.HexEditor.Cut | hex_editor.cpp:155-166 | the widget ends in CutSelection's state |
| HexEditor.HexEditor.Copy | hex_editor.cpp:168-177 | the widget ends in CopySelection's state |
| HexEditor.HexEditor.Paste | hex_editor.cpp:179-193 | the widget ends in PasteAt's state |
| HexEditor.HexEditor.PasteAtCursor | hex_editor.cpp:184-191 | the branch without a selection: the cursor moves as PasteTarget says, then one paste request is made at its byte |
| HexEditor.HexEditor.PasteTargetStep | hex_editor.cpp:185-188 | computes PasteTarget: unless the cursor's pixel x is 1 modulo 3, one move a cell right and up by `vertical_shift` plus half a row |
| HexEditor.HexEditor.DeleteText | hex_editor.cpp:195-206 | the widget ends in DeleteText's state |
| HexEditor.HexEditor.UpdateUndoAction | hex_editor.cpp:125-138 | the widget ends in UndoAction's state |
| HexEditor.HexEditor.SelectAll | hex_editor.cpp:208-217 | the widget ends in SelectAll's state |
| HexEditor.HexEditor.TabPressed | hex_editor.cpp:319-322 | only the side flag flips |
| HexEditor.HexEditor.SliderUpdate | hex_editor.cpp:61-87 | the widget ends in SliderUpdate's state |
| HexEditor.HexEditor.UpdateSelectionPosition | hex_editor.cpp:691-700 | the widget ends in SelectionScroll's state |
| HexEditor.HexEditor.WheelEvent | hex_editor.cpp:435-479 | the widget ends in Wheel's state |
| HexEditor.HexEditor.WheelStep | hex_editor.cpp:437-469 | the wheel's offset and cursor code computes WheelNav (see WheelNavFacts) and keeps the blink state |
| HexEditor.HexEditor.UpdateSelection | hex_editor.cpp:702-745 | the widget ends in Drag's state |
| HexEditor.HexEditor.DragWithin | hex_editor.cpp:714-744 | the branch for positions at most one row past the data ends in DragWithin's state |
| HexEditor.HexEditor.EndOfDataStep | hex_editor.cpp:704-710 | computes EndOfData (see EndOfDataPosition) |
| HexEditor.HexEditor.DragTarget | hex_editor.cpp:714-727 | the clamped x is DragColumn, and the override flag is set exactly when the mouse is right of the hex area |
| HexEditor.HexEditor.DragStep | hex_editor.cpp:728-731 | the two cursor moves compute DragNav (see DragNavAligned, DragNavDrift) |
| HexEditor.HexEditor.DragEndStep | hex_editor.cpp:732-740 | computes DragEnd, the final cursor and moving end |
| HexEditor.HexEditor.AutoScrollUpdate | hex_editor.cpp:89-107 | the widget ends in AutoScroll's state |
| HexEditor.HexEditor.ScrollTicksStep | hex_editor.cpp:99-105 | the counted loop of cursor steps computes ScrollTicks (see ScrollTicksStayAligned, ScrollTicksDrift) |
| HexEditor.HexEditor.MousePress | hex_editor.cpp:481-495 | the widget ends in MousePress's state |
| HexEditor.HexEditor.PressAt | hex_editor.cpp:496-515 | the rest of the press ends in PressAt's state |
| HexEditor.HexEditor.StartDrag | hex_editor.cpp:507-514 | a new drag is anchored as StartDrag says |
| HexEditor.HexEditor.MouseMove | hex_editor.cpp:518-538 | the widget ends in MouseMove's state |
| HexEditor.HexEditor.MouseRelease | hex_editor.cpp:540-556 | the widget ends in MouseRelease's state |
| HexEditor.HexEditor.TypeKey | hex_editor.cpp:356-383 | the widget ends in TypeKey's state |
| HexEditor.HexEditor.NavigateKey | hex_editor.cpp:385-432 | the widget ends in NavigateKey's state |
| HexEditor.HexEditor.KeyPress | hex_editor.cpp:326-433 | the widget ends in KeyPress's state, so KeyPressEffect, HexKeyWritesNibble and LetterWritesLowerCase hold for it |

## Left out

- Rendering is not modelled. This covers paintEvent, paint_selection, minimumSizeHint, update_window, the repaint calls (`update()`) and the `do_update` flag of update_cursor_position. None of them changes a modelled field.
- HexEditor.HexEditor.constructor: resizeEvent is not modelled. It recomputes `rows` from the widget's height (hex_editor.cpp:561), so the class keeps `rows` at the constructor's 32. The EditorGeometry and EditorModel lemmas hold for every `Layout`, and so for any row count.
- font_setup measures the font with QFontMetrics. The font width and height are the constructor's parameters instead.
- Timers are not modelled: the cursor blink timer, update_cursor_state, control_auto_scroll, and the scroll timer's start, stop and setInterval. What the slider and the mouse leave in `scroll_speed` and `scroll_direction` is modelled, and so is one auto_scroll_update tick.
- Qt signals (`update_slider`, `update_status_text`, `update_range`, `toggle_scroll_mode`) have no effect on the model.
- get_status_text, context_menu, disassemble, get_file_name and set_focus are left out: they format text, build menus or forward to Qt.
- ROM_buffer's code is not part of this model. Its contents, undo stack and clipboard are not modelled, and the buffer size stays constant in the model, even across a cut, paste or delete. Requests to it are recorded in a ghost log.
- to_hex_column, get_max_lines and the widget's `height()` are not part of this model. Their results are parameters of the handlers that use them.
- The scroll direction and speed have no initial value in the C++ constructor; the model starts them at false and 0.
- Integers are unbounded: 32-bit overflow is not modelled. The `char` conversion in keyPressEvent does not change a printable key's value, so it is not modelled either.
- Qt's key and modifier codes are given by their Qt enumeration values. The modifier test compares whole modifier sets, as the code does.
- The branch of update_selection at hex_editor.cpp:724-727 can never run, because the condition on line 722 already covers it. The model omits it.
- The `if(is_dragging)` block at the end of mouseReleaseEvent can never run, because the flag was cleared just before. The model omits it.
- selection.h declares `drag_direction`, which has no definition, so it is not modelled. hex_editor.h (which declares a newer editor), disassembly_cores/isa_spc700.h, version.h and address_display's get_line are not part of this model.
