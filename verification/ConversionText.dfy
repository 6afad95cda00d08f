/** What one conversion prints, by its letters, its width and precision and its argument
    alone: an account that knows neither the decoder's kinds nor the padding loops.  Where
    the 16 bits of a width wrap around, the text says where the spaces end up. */
module ConversionText {
  import opened CType
  import opened Digits

  // ------------------------------------------------------------------- integers

  /** How many values the length of an integer conversion keeps apart. */
  function Range(length: string): (m: nat)
    ensures m >= 2 && m % 2 == 0
  {
    if length == "hh" then 0x100
    else if length == "h" then 0x1_0000
    else if length == "" then 0x1_0000_0000
    else 0x1_0000_0000_0000_0000
  }

  function IntegerSize(length: string): nat {
    if length == "hh" then 1 else if length == "h" then 2 else if length == "" then 4 else 8
  }

  predicate IsSigned(c: char) {
    c == 'd' || c == 'i'
  }

  /** The integer that a conversion sees in a 64-bit slot. */
  function IntegerOf(c: char, length: string, slot: u64): int {
    var x: int := slot as int % Range(length);
    if IsSigned(c) && x >= Range(length) / 2 then x - Range(length) else x
  }

  function Absolute(x: int): nat {
    if x < 0 then -x else x
  }

  function SignOf(c: char, flags: string, x: int): string {
    if x < 0 then "-"
    else if !IsSigned(c) then ""
    else if '+' in flags then "+"
    else if ' ' in flags then " "
    else ""
  }

  function PrefixOf(c: char, flags: string): string {
    if '#' !in flags then ""
    else if c == 'o' then "0"
    else if c == 'x' then "0x"
    else if c == 'X' then "0X"
    else ""
  }

  function Radix(c: char): (b: nat)
    ensures IsBase(b)
  {
    if c == 'o' then 8 else if c == 'x' || c == 'X' then 16 else 10
  }

  /** At least `precision` digits. */
  function AtLeast(digits: string, precision: int): string {
    if |digits| < precision then Fill('0', precision - |digits|) + digits else digits
  }

  /** w columns to fill, w being what is left of the width in 16 bits. */
  function Padded(before: string, body: string, left: bool, zero: bool, w: s16): string {
    var n := if w > 0 then w else 0;
    if left then
      if w == -0x8000 then before + body + Fill(' ', 0x8000)
      else before + body + Fill(' ', n)
    else if zero then
      if w == -0x8000 then before + Fill('0', 0x8000) + body
      else if w == -0x7fff then before + body + Fill(' ', 0x8000)
      else before + Fill('0', n) + body
    else
      if w == -0x8000 then Fill(' ', 0x8000) + before + body
      else if w == -0x7fff then before + Fill(' ', 0x8000) + body
      else if w == -0x7ffe then before + body + Fill(' ', 0x8000)
      else Fill(' ', n) + before + body
  }

  function IntegerIn(c: char, length: string, flags: string, left: bool, width: s16, precision: s16, slot: u64): string {
    var x := IntegerOf(c, length, slot);
    var before := SignOf(c, flags, x) + PrefixOf(c, flags);
    var body := AtLeast(Numeral(Absolute(x), Radix(c), c == 'x'), precision);
    Padded(before, body, left, '0' in flags, ToS16(width - |before| - |body|))
  }

  // --------------------------------------------------------- strings, characters

  /** A text with n spaces on one side. */
  function Spaced(text: string, left: bool, n: nat): string {
    if left then text + Fill(' ', n) else Fill(' ', n) + text
  }

  function StringIn(s: string, left: bool, width: s16, precision: s16): string {
    var t := if 0 <= precision < |s| then s[..precision] else s;
    if !left && width == -0x8000 && |t| < 0x7fff then t + Fill(' ', 0x7fff - |t|)
    else Spaced(t, left, if width > |t| then width - |t| else 0)
  }

  function CharIn(c: char, left: bool, width: s16): string {
    if left && width == -0x8000 then [c] + Fill(' ', 0x7fff)
    else if width == -0x8000 then Fill(' ', 0x7fff) + [c]
    else if !left && width == -0x7fff then [c] + Fill(' ', 0x7fff)
    else Spaced([c], left, if width > 1 then width - 1 else 0)
  }
}
