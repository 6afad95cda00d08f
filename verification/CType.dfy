/** Bytes as characters, C strings, fixed-width integers and the ctype table. */
module CType {

  const NUL: char := '\0'

  /** The characters of a C string before its terminator: bytes other than 0. */
  type cstring = s: string | forall i | 0 <= i < |s| :: 0 < s[i] as int < 256

  /** `s[i]` of a C string, reading the terminator at its end. */
  function CharAt(s: string, i: nat): char {
    if i < |s| then s[i] else NUL
  }

  predicate IsDigit(c: char) {
    '0' <= c <= '9'
  }

  predicate IsXDigit(c: char) {
    '0' <= c <= '9' || 'A' <= c <= 'F' || 'a' <= c <= 'f'
  }

  predicate IsSpace(c: char) {
    9 <= c as int <= 13 || c == ' ' || c as int == 160
  }

  /** Letters of Latin-1 and digits. */
  predicate IsAlnum(c: char) {
    || '0' <= c <= '9' || 'A' <= c <= 'Z' || 'a' <= c <= 'z'
    || (192 <= c as int <= 255 && c as int != 215 && c as int != 247)
  }

  /** TOLOWER(c) == lower, for a lower-case letter: or-ing in 0x20 maps just the two cases to it. */
  predicate EitherCase(c: char, lower: char)
    requires 'a' <= lower <= 'z'
  {
    c == lower || c as int + 0x20 == lower as int
  }

  const TWO8: nat := 0x100
  const TWO16: nat := 0x1_0000
  const TWO32: nat := 0x1_0000_0000
  const TWO64: nat := 0x1_0000_0000_0000_0000

  type s16 = x: int | -0x8000 <= x < 0x8000
  type u64 = x: int | 0 <= x < 0x1_0000_0000_0000_0000

  /** The two's complement reading of the low bits of v. */
  function Signed(v: int, modulus: nat): (r: int)
    requires modulus >= 2 && modulus % 2 == 0
    ensures -(modulus / 2) <= r < modulus / 2
    ensures r == if r >= 0 then v % modulus else v % modulus - modulus
  {
    var m := v % modulus;
    if m < modulus / 2 then m else m - modulus
  }

  function ToS16(v: int): s16 {
    Signed(v, TWO16)
  }

  function ToU64(v: int): u64 {
    v % TWO64
  }
}
