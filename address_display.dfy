/**
 * The address column of displays/address_display.cpp. It maps a screen
 * point to the first nibble of the row under it and back. `columns` and
 * `offset` are the display's get_columns() and get_offset() (the offset is
 * in bytes), and `height` is the font height, editor_font::get_height().
 */
module AddressDisplay {
  import opened Primitives

  /**
   * The first nibble of the row under `position`. The x coordinate and
   * `byteAlign` play no part: every point of a row gives its first nibble.
   */
  function ScreenToNibble(position: Point, byteAlign: bool, columns: int, offset: int, height: int): (n: int)
    requires height > 0
    ensures n % 2 == 0
    ensures position.y >= 0 && columns >= 0 ==> n >= 2 * offset
  {
    var y := TDiv(position.y, height);
    assert position.y >= 0 && columns >= 0 ==> y * columns >= 0;
    (y * columns + offset) * 2
  }

  /** The left end of the row that holds `nibble`, in pixels. */
  function NibbleToScreen(nibble: int, columns: int, offset: int, height: int): (p: Point)
    requires columns > 0 && height > 0
    ensures p.x == 0
    ensures TRem(p.y, height) == 0
  {
    var n := nibble - offset * 2;
    var y := TDiv(n, columns * 2);
    TDivOfMultiple(y, height);
    Point(0, y * height)
  }

  /** Only the y coordinate of the point matters. */
  lemma ScreenToNibbleIgnoresX(p: Point, q: Point, a: bool, b: bool, columns: int, offset: int, height: int)
    requires height > 0 && p.y == q.y
    ensures ScreenToNibble(p, a, columns, offset, height) == ScreenToNibble(q, b, columns, offset, height)
  {
  }

  /** A lower point never maps to an earlier row. */
  lemma {:induction false} ScreenToNibbleMonotone(p: Point, q: Point, columns: int, offset: int, height: int)
    requires height > 0 && columns >= 0 && p.y <= q.y
    ensures ScreenToNibble(p, false, columns, offset, height) <= ScreenToNibble(q, false, columns, offset, height)
  {
    TDivMonotone(p.y, q.y, height);
    MulAtLeast(columns + 1, TDiv(q.y, height), TDiv(p.y, height));
    assert (columns + 1) * TDiv(q.y, height) == columns * TDiv(q.y, height) + TDiv(q.y, height);
    assert (columns + 1) * TDiv(p.y, height) == columns * TDiv(p.y, height) + TDiv(p.y, height);
    if columns > 0 {
      MulAtLeast(columns, TDiv(q.y, height), TDiv(p.y, height));
    }
  }

  /**
   * Nibble to screen and back gives the first nibble of the nibble's row
   * (rows counted from the offset with C++ division).
   */
  lemma {:induction false} NibbleRoundTrip(nibble: int, columns: int, offset: int, height: int)
    requires columns > 0 && height > 0
    ensures ScreenToNibble(NibbleToScreen(nibble, columns, offset, height), false, columns, offset, height)
      == 2 * offset + 2 * columns * TDiv(nibble - 2 * offset, 2 * columns)
  {
    var row := TDiv(nibble - 2 * offset, 2 * columns);
    TDivOfMultiple(row, height);
  }

  /** For nibbles at or after the offset, the row is the Euclidean quotient. */
  lemma {:induction false} NibbleRoundTripVisible(nibble: int, columns: int, offset: int, height: int)
    requires columns > 0 && height > 0 && nibble >= 2 * offset
    ensures ScreenToNibble(NibbleToScreen(nibble, columns, offset, height), false, columns, offset, height)
      == 2 * offset + 2 * columns * ((nibble - 2 * offset) / (2 * columns))
  {
    NibbleRoundTrip(nibble, columns, offset, height);
  }

  /** A row-start nibble survives the round trip unchanged. */
  lemma {:induction false} RowStartRoundTrip(row: int, columns: int, offset: int, height: int)
    requires columns > 0 && height > 0
    ensures var n := 2 * offset + 2 * columns * row;
      ScreenToNibble(NibbleToScreen(n, columns, offset, height), false, columns, offset, height) == n
  {
    var n := 2 * offset + 2 * columns * row;
    assert n - 2 * offset == row * (2 * columns);
    TDivOfMultiple(row, 2 * columns);
    NibbleRoundTrip(n, columns, offset, height);
  }

  /** Every row start, above or below the top, is the address of some point of the column. */
  lemma {:induction false} EveryRowAddressed(row: int, columns: int, offset: int, height: int)
    requires columns > 0 && height > 0
    ensures exists p :: ScreenToNibble(p, false, columns, offset, height) == 2 * offset + 2 * columns * row
  {
    var p := Point(0, row * height);
    TDivOfMultiple(row, height);
    assert ScreenToNibble(p, false, columns, offset, height) == (row * columns + offset) * 2;
  }

  /** Screen to nibble and back snaps the point to the top of its row (C++ remainder). */
  lemma {:induction false} ScreenRoundTrip(p: Point, b: bool, columns: int, offset: int, height: int)
    requires columns > 0 && height > 0
    ensures NibbleToScreen(ScreenToNibble(p, b, columns, offset, height), columns, offset, height)
      == Point(0, p.y - TRem(p.y, height))
  {
    var row := TDiv(p.y, height);
    var n := ScreenToNibble(p, b, columns, offset, height);
    assert n - 2 * offset == row * (2 * columns);
    TDivOfMultiple(row, 2 * columns);
  }

  /** For points on or below the top, that is the Euclidean remainder. */
  lemma {:induction false} ScreenRoundTripVisible(p: Point, b: bool, columns: int, offset: int, height: int)
    requires columns > 0 && height > 0 && p.y >= 0
    ensures NibbleToScreen(ScreenToNibble(p, b, columns, offset, height), columns, offset, height).y
      == p.y - p.y % height
  {
    ScreenRoundTrip(p, b, columns, offset, height);
  }
}
