/**
 * The selection value type of selection.cpp: a nibble range kept as the raw
 * `start` and `end` the user dragged, plus the `active` and `dragging` flags.
 *
 * `end` is stored one past the requested nibble, so the range includes its
 * last nibble. The getters normalise a reversed drag on the fly and never
 * write the stored fields back.
 */
module Selection {
  import opened Primitives

  class Selection {
    var start: int
    var end: int
    var active: bool
    var dragging: bool

    /** The default member initialisers: an empty, inactive selection. */
    constructor ()
      ensures start == 0 && end == 0 && !active && !dragging
      ensures GetStart() == 0 && GetEnd() == 2
      ensures Range() == 1 && ByteRange() == 0
      ensures !IsActive()
    {
      start, end := 0, 0;
      active, dragging := false, false;
    }

    /** A selection of the bytes from `startByte` for `size` bytes on. */
    static method CreateSelection(startByte: int, size: int) returns (s: Selection)
      ensures fresh(s)
      ensures s.start == 2 * startByte && s.end == 2 * (startByte + size) + 1
      ensures s.active && !s.dragging
      ensures 0 <= startByte && 0 <= size ==>
        s.GetStartByte() == startByte && s.GetEndByte() == startByte + size &&
        s.ByteRange() == size + 1 && (s.IsActive() <==> size > 0)
    {
      s := new Selection();
      s.SetStart(startByte * 2);
      s.SetEnd((startByte + size) * 2);
      CreatedSelection(s, startByte, size);
    }

    method SetStart(s: int)
      modifies this
      ensures start == s
      ensures end == old(end) && active == old(active) && dragging == old(dragging)
    {
      start := s;
    }

    /** Records `e` as the last selected nibble and switches the selection on. */
    method SetEnd(e: int)
      modifies this
      ensures end == e + 1 && active
      ensures start == old(start) && dragging == old(dragging)
    {
      end := e + 1;
      active := true;
    }

    /** The smaller stored bound. */
    function GetStart(): (r: int)
      reads this
      ensures r <= start && r <= end
      ensures r == start || r == end
    {
      if start > end then end else start
    }

    /**
     * The normalised exclusive end: the stored `end` for a forward range,
     * otherwise two nibbles (one byte) past the stored `start`.
     */
    function GetEnd(): (r: int)
      reads this
      ensures GetStart() < r
      ensures start < r && end <= r
      ensures start < end ==> r == end
      ensures end <= start ==> r == start + 2
    {
      if start < end then end else start + 2
    }

    /** The byte holding the first selected nibble (C++ division by 2). */
    function GetStartByte(): (r: int)
      reads this
      ensures GetStart() >= 0 ==> 2 * r <= GetStart() <= 2 * r + 1
      ensures GetStart() < 0 ==> 2 * r - 1 <= GetStart() <= 2 * r
    {
      TDiv(GetStart(), 2)
    }

    function GetEndByte(): (r: int)
      reads this
      ensures GetEnd() >= 0 ==> 2 * r <= GetEnd() <= 2 * r + 1
      ensures GetEnd() < 0 ==> 2 * r - 1 <= GetEnd() <= 2 * r
    {
      TDiv(GetEnd(), 2)
    }

    /** `get_start() & ~1`: on two's complement this rounds down to an even value. */
    function GetStartAligned(): (r: int)
      reads this
      ensures r % 2 == 0
      ensures r <= GetStart() <= r + 1
    {
      GetStart() - GetStart() % 2
    }

    function GetEndAligned(): (r: int)
      reads this
      ensures r % 2 == 0
      ensures r <= GetEnd() <= r + 1
    {
      GetEnd() - GetEnd() % 2
    }

    /** Extends or shrinks the range by moving only its stored end. */
    method MoveEnd(amount: int)
      modifies this
      ensures end == old(end) + amount
      ensures start == old(start) && active == old(active) && dragging == old(dragging)
    {
      end := end + amount;
    }

    /**
     * The span in nibbles over the RAW fields, counting the last nibble: it
     * is positive exactly when the range is not reversed.
     */
    function Range(): (r: int)
      reads this
      ensures r > 0 <==> start <= end
      ensures start + r == end + 1
    {
      end - start + 1
    }

    /** Range() in whole bytes, with C++ division. */
    function ByteRange(): (r: int)
      reads this
      ensures Range() >= 0 ==> 2 * r <= Range() <= 2 * r + 1
      ensures Range() < 0 ==> 2 * r - 1 <= Range() <= 2 * r
    {
      TDiv(end - start + 1, 2)
    }

    /** Active means the flag is on and the normalised range spans two bytes. */
    function IsActive(): (r: bool)
      reads this
      ensures r <==> active && GetStartByte() < GetEndByte()
    {
      TDivMonotone(GetStart(), GetEnd(), 2);
      active && GetStartByte() != GetEndByte()
    }

    /** Switching the selection off also ends any drag in progress. */
    method SetActive(a: bool)
      modifies this
      ensures active == a
      ensures IsDragging() == (a && old(IsDragging()))
      ensures start == old(start) && end == old(end)
    {
      active := a;
      if !active {
        dragging := false;
      }
    }

    /** Whether a drag is in progress: set by SetDragging, cleared by SetActive(false). */
    function IsDragging(): (r: bool)
      reads this
      ensures r == dragging
    {
      dragging
    }

    method SetDragging(d: bool)
      modifies this
      ensures IsDragging() == d
      ensures start == old(start) && end == old(end) && active == old(active)
    {
      dragging := d;
    }
  }

  /**
   * What create_selection(b, n) stores describes bytes b to b+n, both
   * included: byte_range() is n+1, and only n > 0 makes it active.
   */
  lemma CreatedSelection(s: Selection, b: int, n: int)
    requires s.start == 2 * b && s.end == 2 * (b + n) + 1 && s.active
    ensures 0 <= b && 0 <= n ==>
      s.GetStartByte() == b && s.GetEndByte() == b + n &&
      s.ByteRange() == n + 1 && (s.IsActive() <==> n > 0)
  {
    if 0 <= b && 0 <= n {
      TDivUnique(2 * (b + n) + 1, 2, b + n, 1);
      TDivUnique(2 * n + 2, 2, n + 1, 0);
      TDivOfMultiple(b, 2);
    }
  }

  /**
   * A reversed drag keeps `start > end` in the fields; the getters swap it
   * and close the range one byte past the stored start.
   */
  lemma ReversedDrag(s: Selection)
    requires s.start > s.end
    ensures s.GetStart() == s.end && s.GetEnd() == s.start + 2
    ensures s.Range() <= 0
  {
  }
}
