/**
 * The Qt key codes and keyboard modifiers keyPressEvent dispatches on,
 * with the values of Qt's Qt::Key and Qt::KeyboardModifier enumerations,
 * and the two decodings of a keystroke into the value written to the
 * buffer: a hex digit on the hex side and a character on the ASCII side.
 */
module Keys {
  import opened Primitives

  const KeySpace: int := 0x20
  const KeyAsciiTilde: int := 0x7e
  const Key0: int := 0x30
  const Key9: int := 0x39
  const KeyA: int := 0x41
  const KeyF: int := 0x46
  const KeyS: int := 0x53
  const KeyV: int := 0x56
  const KeyZ: int := 0x5a
  const KeyTab: int := 0x0100_0001
  const KeyBackspace: int := 0x0100_0003
  const KeyDelete: int := 0x0100_0007
  const KeyHome: int := 0x0100_0010
  const KeyEnd: int := 0x0100_0011
  const KeyLeft: int := 0x0100_0012
  const KeyUp: int := 0x0100_0013
  const KeyRight: int := 0x0100_0014
  const KeyDown: int := 0x0100_0015
  const KeyPageUp: int := 0x0100_0016
  const KeyPageDown: int := 0x0100_0017

  const NoModifier: int := 0
  const ShiftModifier: int := 0x0200_0000
  const ControlModifier: int := 0x0400_0000
  const AltModifier: int := 0x0800_0000

  /** The keys the final switch of keyPressEvent acts on. */
  predicate IsNavigationKey(key: int)
  {
    key == KeyDelete || key == KeyBackspace || key == KeyHome || key == KeyEnd ||
    key == KeyUp || key == KeyDown || key == KeyRight || key == KeyLeft ||
    key == KeyPageUp || key == KeyPageDown
  }

  /** The nibble value a key types on the hex side: digits and capital A to F. */
  function HexDigit(key: int): (r: Option<int>)
    ensures r.Some? ==> 0 <= r.value < 16
    ensures r.Some? <==> (Key0 <= key <= Key9 || KeyA <= key <= KeyF)
    ensures r.Some? ==> !IsNavigationKey(key) && KeySpace <= key <= KeyAsciiTilde
  {
    if Key0 <= key <= Key9 then Some(key - Key0)
    else if KeyA <= key <= KeyF then Some(key - KeyA + 10)
    else None
  }

  /** The key that types nibble value `v`. */
  function HexKey(v: int): (key: int)
    requires 0 <= v < 16
    ensures Key0 <= key <= Key9 || KeyA <= key <= KeyF
  {
    if v < 10 then Key0 + v else KeyA + v - 10
  }

  /** Every nibble value has exactly one key, and each hex key decodes back to its value. */
  lemma HexDigitRoundTrip(v: int, key: int)
    requires 0 <= v < 16
    ensures HexDigit(HexKey(v)) == Some(v)
    ensures HexDigit(key) == Some(v) ==> key == HexKey(v)
  {
  }

  /**
   * The byte an ASCII-side keystroke writes: an unshifted letter is stored
   * in lower case, any other printable key as its own code.
   */
  function AsciiValue(key: int, modifiers: int): (r: int)
    ensures modifiers != ShiftModifier && 'A' as int <= key <= 'Z' as int ==>
      r == 'a' as int + (key - 'A' as int)
    ensures !('A' as int <= key <= 'Z' as int) || modifiers == ShiftModifier ==> r == key
    ensures KeySpace <= key <= KeyAsciiTilde ==> KeySpace <= r <= KeyAsciiTilde
  {
    if modifiers != ShiftModifier && KeyA <= key <= KeyZ then key + 32 else key
  }
}
