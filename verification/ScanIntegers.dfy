/** The integer conversions of vsscanf, by indices: which characters are read, in which base,
    and what is stored. */
module ScanIntegers {
  import opened CType
  import opened ConversionText
  import opened Digits
  import opened Scanf
  import opened ScanTokens
  import FormatGrammar
  import Strto

  /** A hexadecimal prefix stands at d. */
  predicate Prefixed(buf: string, d: nat) {
    CharAt(buf, d) == '0' && (CharAt(buf, d + 1) == 'x' || CharAt(buf, d + 1) == 'X')
  }

  /** The base in which the digits at d are read: `%i` finds it out. */
  function ReadBase(c: char, buf: string, d: nat): nat {
    if c == 'o' then 8
    else if c == 'x' || c == 'X' then 16
    else if c != 'i' || CharAt(buf, d) != '0' then 10
    else if Prefixed(buf, d) && IsXDigit(CharAt(buf, d + 2)) then 16
    else 8
  }

  predicate DigitIn(c: char, base: nat) {
    IsXDigit(c) && DigitValue(c) < base
  }

  /** What must stand first: a digit of the base, a decimal one for `%i`. */
  predicate Begins(c: char, first: char) {
    if c == 'o' then '0' <= first <= '7' else if c == 'x' || c == 'X' then IsXDigit(first) else IsDigit(first)
  }

  /** s[p..e] are all the digits from p on. */
  predicate AllDigits(s: string, p: nat, e: nat, base: nat) {
    && p <= e <= |s| && (forall x | p <= x < e :: DigitIn(s[x], base)) && !DigitIn(CharAt(s, e), base)
  }

  function StartOf(c: char, buf: string, d: nat): nat {
    if ReadBase(c, buf, d) == 16 && Prefixed(buf, d) then d + 2 else d
  }

  /** An integer kept in as many bytes as the length of its conversion says. */
  function Kept(signed: bool, length: string, v: int): int {
    var x := v % Range(length);
    if signed && x >= Range(length) / 2 then x - Range(length) else x
  }

  /** A size_t is read without a sign even by `%zd`. */
  predicate KeepsSign(c: char, length: string) {
    IsSigned(c) && length != "z" && length != "Z"
  }

  lemma Parses(buf: string, c: char, d: nat) returns (e: nat, v: nat)
    requires FormatGrammar.IsIntegerConversion(c) && d < |buf| && Begins(c, buf[d])
    ensures var start, base := StartOf(c, buf, d), ReadBase(c, buf, d);
            && AllDigits(buf, start, e, base)
            && v == Digits.Value(buf[start..e], base) && Strto.ParseUnsigned(buf, d, BaseOf(c)) == Strto.Parsed(v % TWO64, e)
  {
    hide Digits.Value;
    var start, base := StartOf(c, buf, d), ReadBase(c, buf, d);
    assert Strto.BaseFor(buf, d, BaseOf(c)) == base && Strto.StartFor(buf, d, BaseOf(c)) == start;
    assert start <= |buf|;
    e := Strto.RunEnd(buf, start, base);
    assert Strto.Run(buf, start, e) == buf[start..e];
    v := Digits.Value(buf[start..e], base);
  }

  lemma SizesAgree(length: string)
    requires FormatGrammar.IsLength(length) && length != "t"
    ensures var q := FormatGrammar.LengthChar(length);
            && StoreSize(q) == IntegerSize(length) && Modulus(StoreSize(q)) == Range(length)
            && (q == 'z' || q == 'Z' <==> length == "z" || length == "Z")
  {
  }

  lemma SameLow8(a: int, b: int, q: int)
    requires a == b + 0x1_0000_0000_0000_0000 * q
    ensures a % 0x100 == b % 0x100
  {
    assert a == b + 0x100 * (0x100_0000_0000_0000 * q);
  }

  lemma SameLow16(a: int, b: int, q: int)
    requires a == b + 0x1_0000_0000_0000_0000 * q
    ensures a % 0x1_0000 == b % 0x1_0000
  {
    assert a == b + 0x1_0000 * (0x1_0000_0000_0000 * q);
  }

  lemma SameLow32(a: int, b: int, q: int)
    requires a == b + 0x1_0000_0000_0000_0000 * q
    ensures a % 0x1_0000_0000 == b % 0x1_0000_0000
  {
    assert a == b + 0x1_0000_0000 * (0x1_0000_0000 * q);
  }

  lemma SameLow64(a: int, b: int, q: int)
    requires a == b + 0x1_0000_0000_0000_0000 * q
    ensures a % 0x1_0000_0000_0000_0000 == b % 0x1_0000_0000_0000_0000
  {
  }

  /** Numbers that differ by a multiple of 2^64 are kept alike. */
  lemma SameLow(length: string, a: int, b: int, q: int)
    requires a == b + 0x1_0000_0000_0000_0000 * q
    ensures a % Range(length) == b % Range(length)
  {
    if length == "hh" {
      SameLow8(a, b, q);
    } else if length == "h" {
      SameLow16(a, b, q);
    } else if length == "" {
      SameLow32(a, b, q);
    } else {
      SameLow64(a, b, q);
    }
  }

  lemma KeptOnce(length: string, v: int)
    ensures v % TWO64 % Range(length) == v % Range(length)
    ensures ToU64(-(v % TWO64)) % Range(length) == (-v) % Range(length)
  {
    hide Range;
    var r, q := v % TWO64, v / TWO64;
    SameLow(length, v, r, q);
    var m, k := (-r) % TWO64, (-r) / TWO64;
    assert -v == m + 0x1_0000_0000_0000_0000 * (k - q);
    SameLow(length, -v, m, k - q);
  }

  lemma Begun(c: char, first: char)
    requires FormatGrammar.IsIntegerConversion(c)
    ensures Begins(c, first) <==> Convertible(first, BaseOf(c))
  {
  }

  lemma MinusIsNoDigit(buf: string, c: char, p: nat)
    requires IsSigned(c) && CharAt(buf, p) == '-'
    ensures Strto.ParseUnsigned(buf, p, BaseOf(c)) == Strto.Parsed(0, p)
  {
    Strto.EmptyRun(buf, p, 10);
  }

  /** The index of the first digit, and whether a minus sign stands before it. */
  predicate Minus(c: char, buf: string, p: nat) {
    IsSigned(c) && CharAt(buf, p) == '-'
  }

  function DigitsAt(c: char, buf: string, p: nat): nat {
    if Minus(c, buf, p) then p + 1 else p
  }

  lemma ConvertsInteger(buf: string, i: nat, c: char, length: string) returns (p: nat, e: nat)
    requires i <= |buf| && FormatGrammar.IsIntegerConversion(c) && FormatGrammar.IsLength(length) && length != "t"
    ensures PastSpaces(buf, i, p)
    ensures var d, neg := DigitsAt(c, buf, p), Minus(c, buf, p);
            var r := ConvertInteger(buf, i, FormatGrammar.LengthChar(length), BaseOf(c), IsSigned(c));
            if !Begins(c, CharAt(buf, d)) then r == Mismatch(p)
            else if neg && !KeepsSign(c, length) then r == Converted(Number(8, 0), p)
            else
              var start, base := StartOf(c, buf, d), ReadBase(c, buf, d);
              && AllDigits(buf, start, e, base)
              && var v: int := Digits.Value(buf[start..e], base);
                 r == Converted(Number(IntegerSize(length), Kept(KeepsSign(c, length), length, if neg then -v else v)), e)
  {
    hide Strto.ParseUnsigned, Digits.Value, PastSpaces, SpacesEnd, Begins, Convertible, BaseOf, StoreSize, Modulus, Range,
      IntegerSize, StartOf, ReadBase, AllDigits;
    p, e := SpacesEnd(buf, i), 0;
    SpacesEndAt(buf, i);
    var d := DigitsAt(c, buf, p);
    Begun(c, CharAt(buf, d));
    SizesAgree(length);
    if Begins(c, CharAt(buf, d)) {
      FirstInside(c, buf, d);
      if Minus(c, buf, p) && !KeepsSign(c, length) {
        MinusIsNoDigit(buf, c, p);
        ZeroKept(length);
      } else {
        var v;
        e, v := Parses(buf, c, d);
        KeptOnce(length, v);
      }
    }
  }

  lemma ZeroKept(length: string)
    ensures 0 % Range(length) == 0
    ensures length == "z" || length == "Z" ==> IntegerSize(length) == 8
  {
  }

  lemma FirstInside(c: char, buf: string, d: nat)
    requires Begins(c, CharAt(buf, d))
    ensures d < |buf|
  {
  }

  lemma IntegerScans(buf: string, fmt: string, i: nat, j: nat, width: string, length: string, c: char) returns (p: nat, e: nat)
    requires i < |buf| && FormatGrammar.IsIntegerConversion(c)
    requires IsDirective(width, length, c) && FormatGrammar.At(fmt, j, ShowDirective(width, length, c))
    ensures PastSpaces(buf, i, p)
    ensures var d, neg, t := DigitsAt(c, buf, p), Minus(c, buf, p), TurnAt(buf, fmt, i, j);
            var j' := j + 2 + |width| + |length|;
            if !Begins(c, CharAt(buf, d)) then t == Break(p, j')
            else if neg && !KeepsSign(c, length) then t == Go(p, j', [Number(8, 0)])
            else
              var start, base := StartOf(c, buf, d), ReadBase(c, buf, d);
              && AllDigits(buf, start, e, base)
              && var v: int := Digits.Value(buf[start..e], base);
                 t == Go(e, j', [Number(IntegerSize(length), Kept(KeepsSign(c, length), length, if neg then -v else v))])
  {
    hide TurnAt, ConvertInteger, Digits.Value, PastSpaces, Begins, Kept, IntegerSize, StartOf, ReadBase, AllDigits, DigitsAt, Minus,
      KeepsSign, ShowDirective;
    DirectiveReads(buf, fmt, i, j, width, length, c);
    p, e := ConvertsInteger(buf, i, c, length);
  }
}
