/** The syntax of formats, apart from `%p`, and what a format means by its syntax: an
    account of printf that does not mention the decoder. */
module FormatGrammar {
  import opened CType
  import opened ConversionText
  import opened FormatDecode
  import opened Digits
  import opened PrintfText
  import opened Printf

  // --------------------------------------------------------------------- syntax

  /** A width or precision: left out, written out, or an argument. */
  datatype Field = Absent | Written(digits: string) | Star

  datatype Dot = NoDot | Dot(field: Field)

  /** A conversion: `%`, flags, width, precision, length and conversion character. */
  datatype Conv = Conv(flags: string, width: Field, dot: Dot, length: string, c: char)

  predicate IsNumber(s: string) {
    s != "" && forall i | 0 <= i < |s| :: IsDigit(s[i])
  }

  predicate IsLength(s: string) {
    s == "" || s == "hh" || s == "h" || s == "l" || s == "ll" || s == "L" || s == "z" || s == "Z" || s == "t"
  }

  predicate IsConversion(c: char) {
    c == 'c' || c == 's' || c == 'n' || c == '%' || c == 'o' || c == 'x' || c == 'X' || c == 'd' || c == 'i' || c == 'u'
  }

  /** A width does not start with 0, which would be a flag. */
  predicate Valid(v: Conv) {
    && (forall i | 0 <= i < |v.flags| :: IsFlag(v.flags[i]))
    && (v.width.Written? ==> IsNumber(v.width.digits) && v.width.digits[0] != '0')
    && (v.dot.Dot? && v.dot.field.Written? ==> IsNumber(v.dot.field.digits))
    && IsLength(v.length) && IsConversion(v.c)
  }

  function ShowField(f: Field): string {
    match f
    case Absent => ""
    case Written(s) => s
    case Star => "*"
  }

  function ShowDot(d: Dot): string {
    match d
    case NoDot => ""
    case Dot(f) => "." + ShowField(f)
  }

  /** The length and the conversion character. */
  function ShowEnd(v: Conv): (s: string)
    ensures |s| >= 1
  {
    v.length + [v.c]
  }

  /** From the precision on. */
  function ShowFromDot(v: Conv): (s: string)
    ensures |s| == |ShowDot(v.dot)| + |ShowEnd(v)|
  {
    ShowDot(v.dot) + ShowEnd(v)
  }

  /** From the width on. */
  function ShowFromWidth(v: Conv): (s: string)
    ensures |s| == |ShowField(v.width)| + |ShowFromDot(v)|
  {
    ShowField(v.width) + ShowFromDot(v)
  }

  function Show(v: Conv): (s: string)
    ensures |s| == 1 + |v.flags| + |ShowFromWidth(v)|
  {
    ['%'] + (v.flags + ShowFromWidth(v))
  }

  // -------------------------------------------------------------------- meaning

  /** An int argument, as the 16 bits of a width or precision keep it. */
  function IntArg(args: seq<Arg>, k: nat): s16 {
    ToS16(Slot(args, k) % TWO32)
  }

  function Stars(f: Field): nat {
    if f.Star? then 1 else 0
  }

  function DotStars(d: Dot): nat {
    if d == Dot(Star) then 1 else 0
  }

  /** A star that is negative means its absolute value, on the left. */
  function LeftByStar(f: Field, args: seq<Arg>, k: nat): bool {
    f.Star? && IntArg(args, k) < 0
  }

  /** A number written out. */
  function NumberOf(s: string): nat {
    if IsNumber(s) then Digits.Value(s, 10) else 0
  }

  function WidthOf(f: Field, args: seq<Arg>, k: nat): s16 {
    match f
    case Absent => -1
    case Written(s) => ToS16(NumberOf(s))
    case Star => if IntArg(args, k) < 0 then ToS16(-(IntArg(args, k) as int)) else IntArg(args, k)
  }

  function NotNegative(p: s16): s16 {
    if p < 0 then 0 else p
  }

  function PrecisionOf(d: Dot, args: seq<Arg>, k: nat): s16 {
    match d
    case NoDot => -1
    case Dot(Absent) => -1
    case Dot(Written(s)) => NotNegative(ToS16(NumberOf(s)))
    case Dot(Star) => NotNegative(IntArg(args, k))
  }

  function LengthChar(s: string): char {
    if s == "" then NO_QUALIFIER else if s == "hh" then 'H' else if s == "ll" then 'L' else s[0]
  }

  /** A spec completed by the length and the conversion character. */
  function Finished(spec: Spec, v: Conv): (f: Spec)
    ensures IsBase(f.base) && !Pending(f)
  {
    var sign := spec.flags.sign || v.c == 'd' || v.c == 'i';
    spec.(kind := KindOf(v.c, LengthChar(v.length), sign), base := Radix(v.c), qualifier := LengthChar(v.length),
          flags := spec.flags.(sign := sign, small := spec.flags.small || v.c == 'x'))
  }

  function FlagSet(s: string, left: bool): Flags {
    Flags('0' in s, false, '+' in s, ' ' in s, left || '-' in s, false, '#' in s)
  }

  function SpecOf(v: Conv, args: seq<Arg>, k: nat): (f: Spec)
    ensures IsBase(f.base) && !Pending(f)
  {
    Finished(Spec(None, FlagSet(v.flags, LeftByStar(v.width, args, k)), 0, NUL,
                  WidthOf(v.width, args, k), PrecisionOf(v.dot, args, k + Stars(v.width))), v)
  }

  /** The argument of the conversion itself. */
  function OwnUses(c: char): nat {
    if c == '%' then 0 else 1
  }

  /** The arguments that a conversion uses. */
  function Uses(v: Conv): nat {
    Stars(v.width) + DotStars(v.dot) + OwnUses(v.c)
  }

  function ValueText(spec: Spec, v: Value): string
    requires Fits(spec.kind, v) && (IsInteger(spec.kind) ==> IsBase(spec.base))
  {
    if spec.kind == Char then CharText(v.n as char, spec)
    else if spec.kind == Str then StringText(v.s, spec)
    else if spec.kind == PercentChar then "%"
    else if IsInteger(spec.kind) then NumberText(v.n, spec)
    else ""
  }

  function ArgText(spec: Spec, args: seq<Arg>, k: nat): string
    requires IsBase(spec.base)
  {
    ArgFits(spec.kind, args, k);
    ValueText(spec, ArgValue(spec.kind, args, k))
  }

  /** The text of a conversion, by its conversion character. */
  function ConvText(v: Conv, args: seq<Arg>, k: nat): string {
    var j := k + Stars(v.width) + DotStars(v.dot);
    var left := '-' in v.flags || LeftByStar(v.width, args, k);
    var width, precision := WidthOf(v.width, args, k), PrecisionOf(v.dot, args, k + Stars(v.width));
    if v.c == '%' then "%"
    else if v.c == 'n' then ""
    else if v.c == 'c' then CharIn((Slot(args, j) % 256) as char, left, width)
    else if v.c == 's' then StringIn(TextArg(args, j), left, width, precision)
    else IntegerIn(v.c, v.length, v.flags, left, width, precision, Slot(args, j))
  }

  /** The same by the spec that the decoder collects. */
  function SpecText(v: Conv, args: seq<Arg>, k: nat): string {
    ArgText(SpecOf(v, args, k), args, k + Stars(v.width) + DotStars(v.dot))
  }

  lemma CharMeans(c: char, spec: Spec)
    ensures CharText(c, spec) == CharIn(c, spec.flags.left, spec.width)
  {
    var lead := PadIf(!spec.flags.left, PadAbove(spec.width), spec.width);
    assert CharText(c, spec) == Fill(' ', lead.n) + [c] + Fill(' ', PadAbove(lead.w).n);
    assert Fill(' ', 0) == "";
  }

  lemma StringMeans(s: string, spec: Spec)
    ensures StringText(s, spec) == StringIn(s, spec.flags.left, spec.width, spec.precision)
  {
    var len := StringLength(s, spec.precision);
    var lead := PadIf(!spec.flags.left, PadTo(len, spec.width), spec.width);
    assert StringText(s, spec) == Fill(' ', lead.n) + s[..len] + Fill(' ', PadTo(len, lead.w).n);
    assert Fill(' ', 0) == "" && s[..|s|] == s;
  }

  lemma NoFill()
    ensures Fill(' ', 0) == "" && Fill('0', 0) == ""
  {
  }

  lemma LeftMeans(sign: string, prefix: string, body: string, f: Flags, w: s16)
    requires f.left
    ensures Assemble(sign, prefix, body, f, w) == Padded(sign + prefix, body, true, f.zeropad, w)
  {
    NoFill();
    assert Assemble(sign, prefix, body, f, w) == "" + sign + prefix + "" + body + Fill(' ', PadDown(w).n);
  }

  lemma ZeroMeans(sign: string, prefix: string, body: string, f: Flags, w: s16)
    requires !f.left && f.zeropad
    ensures Assemble(sign, prefix, body, f, w) == Padded(sign + prefix, body, false, true, w)
  {
    NoFill();
    var mid := PadDown(w);
    assert Assemble(sign, prefix, body, f, w)
        == "" + sign + prefix + Fill('0', mid.n) + body + Fill(' ', PadDown(mid.w).n);
  }

  lemma RightMeans(sign: string, prefix: string, body: string, f: Flags, w: s16)
    requires !f.left && !f.zeropad
    ensures Assemble(sign, prefix, body, f, w) == Padded(sign + prefix, body, false, false, w)
  {
    NoFill();
    var lead := PadDown(w);
    var mid := PadDown(lead.w);
    assert Assemble(sign, prefix, body, f, w)
        == Fill(' ', lead.n) + sign + prefix + Fill(' ', mid.n) + body + Fill(' ', PadDown(mid.w).n);
  }

  lemma AssembleMeans(sign: string, prefix: string, body: string, f: Flags, w: s16)
    ensures Assemble(sign, prefix, body, f, w) == Padded(sign + prefix, body, f.left, f.zeropad, w)
  {
    hide Assemble, Padded;
    if f.left {
      LeftMeans(sign, prefix, body, f, w);
    } else if f.zeropad {
      ZeroMeans(sign, prefix, body, f, w);
    } else {
      RightMeans(sign, prefix, body, f, w);
    }
  }

  predicate IsIntegerConversion(c: char) {
    c == 'o' || c == 'x' || c == 'X' || c == 'd' || c == 'i' || c == 'u'
  }

  lemma InRange(c: char, length: string, slot: u64)
    ensures var x := IntegerOf(c, length, slot);
            if IsSigned(c) then -0x8000_0000_0000_0000 <= x < 0x8000_0000_0000_0000 else 0 <= x < TWO64
  {
  }

  /** The kind of a length cuts the slot to the integer of that length. */
  lemma KindCuts(c: char, length: string, slot: u64)
    requires IsLength(length) && IsIntegerConversion(c)
    ensures Cast(IntegerKind(LengthChar(length), IsSigned(c)), slot) == ToU64(IntegerOf(c, length, slot))
  {
  }

  lemma StoredInteger(x: int, flags: Flags)
    requires if flags.sign then -0x8000_0000_0000_0000 <= x < 0x8000_0000_0000_0000 else 0 <= x < TWO64
    ensures Magnitude(ToU64(x), flags) == Absolute(x) && (Negative(ToU64(x), flags) <==> x < 0)
  {
  }

  lemma CastMeans(c: char, length: string, flags: Flags, slot: u64)
    requires IsLength(length) && IsIntegerConversion(c) && flags.sign == IsSigned(c)
    ensures var num, x := Cast(IntegerKind(LengthChar(length), flags.sign), slot), IntegerOf(c, length, slot);
            Magnitude(num, flags) == Absolute(x) && (Negative(num, flags) <==> x < 0)
  {
    hide *;
    InRange(c, length, slot);
    KindCuts(c, length, slot);
    StoredInteger(IntegerOf(c, length, slot), flags);
  }

  lemma SignMeans(c: char, length: string, written: string, flags: Flags, slot: u64)
    requires IsLength(length) && IsIntegerConversion(c) && flags.sign == IsSigned(c)
    requires flags.plus == ('+' in written) && flags.space == (' ' in written)
    ensures SignText(Cast(IntegerKind(LengthChar(length), flags.sign), slot), flags)
         == SignOf(c, written, IntegerOf(c, length, slot))
  {
    hide Cast, IntegerOf, LengthChar, IntegerKind;
    CastMeans(c, length, flags, slot);
    UnsignedValue(c, length, slot);
  }

  lemma UnsignedValue(c: char, length: string, slot: u64)
    ensures !IsSigned(c) ==> IntegerOf(c, length, slot) >= 0
  {
  }

  lemma BodyMeans(c: char, length: string, spec: Spec, slot: u64)
    requires IsLength(length) && IsIntegerConversion(c) && spec.flags.sign == IsSigned(c)
    requires spec.base == Radix(c) && spec.flags.small == (c == 'x')
    ensures Body(Cast(IntegerKind(LengthChar(length), spec.flags.sign), slot), spec)
         == AtLeast(Numeral(Absolute(IntegerOf(c, length, slot)), Radix(c), c == 'x'), spec.precision)
  {
    hide Cast, IntegerOf, LengthChar, IntegerKind, Numeral, Magnitude, Absolute;
    CastMeans(c, length, spec.flags, slot);
    NoFill();
    var digits := Numeral(Absolute(IntegerOf(c, length, slot)), Radix(c), c == 'x');
    assert "" + digits == digits;
  }

  lemma PrefixMeans(c: char, written: string, spec: Spec)
    requires IsIntegerConversion(c) && spec.base == Radix(c)
    requires spec.flags.small == (c == 'x') && spec.flags.special == ('#' in written)
    ensures PrefixText(spec) == PrefixOf(c, written)
  {
  }

  lemma IntegerMeans(c: char, length: string, written: string, spec: Spec, slot: u64)
    requires IsLength(length) && IsIntegerConversion(c)
    requires spec.base == Radix(c) && spec.flags.zeropad == ('0' in written)
    requires spec.flags.small == (c == 'x') && spec.flags.special == ('#' in written) && spec.flags.sign == IsSigned(c)
    requires spec.flags.plus == ('+' in written) && spec.flags.space == (' ' in written)
    ensures NumberText(Cast(IntegerKind(LengthChar(length), spec.flags.sign), slot), spec)
         == IntegerIn(c, length, written, spec.flags.left, spec.width, spec.precision, slot)
  {
    hide Cast, IntegerOf, LengthChar, IntegerKind, Numeral, Absolute, SignText, PrefixText, Body, Assemble, Padded,
      SignOf, PrefixOf, AtLeast, Radix, ToS16, IsLength;
    SignMeans(c, length, written, spec.flags, slot);
    PrefixMeans(c, written, spec);
    BodyMeans(c, length, spec, slot);
    var num := Cast(IntegerKind(LengthChar(length), spec.flags.sign), slot);
    AssembleMeans(SignText(num, spec.flags), PrefixText(spec), Body(num, spec), spec.flags, ToS16(Slack(num, spec)));
  }

  lemma IntegerConvMeans(v: Conv, args: seq<Arg>, k: nat)
    requires Valid(v) && IsIntegerConversion(v.c)
    ensures SpecText(v, args, k) == ConvText(v, args, k)
  {
    hide WidthOf, PrecisionOf, LeftByStar, LengthChar, IntegerKind, IntegerIn, NumberText, StringText, CharText, Radix, Cast;
    var spec, j := SpecOf(v, args, k), k + Stars(v.width) + DotStars(v.dot);
    IntegerMeans(v.c, v.length, v.flags, spec, Slot(args, j));
  }

  /** The decoder's spec prints what the letters mean. */
  lemma ConvMeans(v: Conv, args: seq<Arg>, k: nat)
    requires Valid(v)
    ensures SpecText(v, args, k) == ConvText(v, args, k)
  {
    hide *;
    if IsIntegerConversion(v.c) {
      IntegerConvMeans(v, args, k);
    } else {
      OtherConvMeans(v, args, k);
    }
  }

  lemma OtherConvMeans(v: Conv, args: seq<Arg>, k: nat)
    requires Valid(v) && !IsIntegerConversion(v.c)
    ensures SpecText(v, args, k) == ConvText(v, args, k)
  {
    hide WidthOf, PrecisionOf, LeftByStar, LengthChar, IntegerKind, IntegerIn, NumberText, StringText, CharText, Radix;
    var spec, j := SpecOf(v, args, k), k + Stars(v.width) + DotStars(v.dot);
    if v.c == 'c' {
      CharMeans((Slot(args, j) % 256) as char, spec);
    } else if v.c == 's' {
      StringMeans(TextArg(args, j), spec);
    }
  }

  // ------------------------------------------------------------ finding the parts

  predicate At(fmt: string, pos: nat, t: string) {
    pos + |t| <= |fmt| && fmt[pos..pos + |t|] == t
  }

  lemma AtParts(fmt: string, pos: nat, a: string, b: string)
    requires At(fmt, pos, a + b)
    ensures At(fmt, pos, a) && At(fmt, pos + |a|, b)
  {
    var w := fmt[pos..pos + |a + b|];
    assert w[..|a|] == a && w[|a|..] == b;
  }

  lemma AtChar(fmt: string, pos: nat, t: string, i: nat)
    requires At(fmt, pos, t) && i < |t|
    ensures CharAt(fmt, pos + i) == t[i]
  {
    assert fmt[pos..pos + |t|][i] == fmt[pos + i];
  }

  lemma {:induction false} FlagsEndAt(fmt: string, pos: nat, s: string)
    requires At(fmt, pos, s) && (forall i | 0 <= i < |s| :: IsFlag(s[i])) && !IsFlag(CharAt(fmt, pos + |s|))
    ensures FlagsEnd(fmt, pos) == pos + |s|
    decreases |s|
  {
    if s != "" {
      AtChar(fmt, pos, s, 0);
      assert s == s[..1] + s[1..];
      AtParts(fmt, pos, s[..1], s[1..]);
      FlagsEndAt(fmt, pos + 1, s[1..]);
    }
  }

  lemma InSnoc(t: string, c: char, x: char)
    ensures x in t + [c] <==> x in t || x == c
  {
  }

  lemma FlagSetSnoc(t: string, c: char)
    ensures FlagSet(t + [c], false) == AddFlag(FlagSet(t, false), c)
  {
    InSnoc(t, c, '0');
    InSnoc(t, c, '+');
    InSnoc(t, c, ' ');
    InSnoc(t, c, '-');
    InSnoc(t, c, '#');
  }

  lemma {:induction false} FlagsMean(s: string)
    ensures FlagsOf(s) == FlagSet(s, false)
  {
    hide FlagSet, AddFlag;
    if s == "" {
      NoFlags();
    } else {
      FlagsMean(s[..|s| - 1]);
      FlagSetSnoc(s[..|s| - 1], s[|s| - 1]);
      assert s == s[..|s| - 1] + [s[|s| - 1]];
    }
  }

  lemma NoFlags()
    ensures FlagSet("", false) == NO_FLAGS
  {
  }

  lemma {:induction false} DigitsEndAt(fmt: string, pos: nat, s: string)
    requires At(fmt, pos, s) && (forall i | 0 <= i < |s| :: IsDigit(s[i])) && !IsDigit(CharAt(fmt, pos + |s|))
    ensures DigitsEnd(fmt, pos) == pos + |s|
    decreases |s|
  {
    if s != "" {
      AtChar(fmt, pos, s, 0);
      assert s == s[..1] + s[1..];
      AtParts(fmt, pos, s[..1], s[1..]);
      DigitsEndAt(fmt, pos + 1, s[1..]);
    }
  }

  /** A character that ends flags and numbers, and is no star and no dot. */
  predicate Ends(c: char) {
    !IsFlag(c) && !IsDigit(c) && c != '*' && c != '.'
  }

  lemma EndReads(fmt: string, pos: nat, v: Conv)
    requires Valid(v) && At(fmt, pos, ShowEnd(v))
    ensures QualifierAt(fmt, pos) == (LengthChar(v.length), pos + |v.length|)
    ensures CharAt(fmt, pos + |v.length|) == v.c && Ends(CharAt(fmt, pos))
  {
    var t := ShowEnd(v);
    AtChar(fmt, pos, t, 0);
    AtChar(fmt, pos, t, |v.length|);
    if |v.length| >= 1 {
      AtChar(fmt, pos, t, 1);
    }
  }

  lemma EndDecodes(fmt: string, pos: nat, spec: Spec, v: Conv)
    requires Valid(v) && At(fmt, pos, ShowEnd(v))
    ensures Qualifier(fmt, pos, spec) == Decoded(pos + |ShowEnd(v)|, Finished(spec, v))
  {
    EndReads(fmt, pos, v);
    hide QualifierAt, IntegerKind;
  }

  /** What stands where the precision may begin. */
  lemma DotReads(fmt: string, pos: nat, v: Conv)
    requires Valid(v) && At(fmt, pos, ShowFromDot(v))
    ensures At(fmt, pos, ShowDot(v.dot)) && At(fmt, pos + |ShowDot(v.dot)|, ShowEnd(v))
    ensures !IsFlag(CharAt(fmt, pos)) && !IsDigit(CharAt(fmt, pos)) && CharAt(fmt, pos) != '*'
    ensures CharAt(fmt, pos) == '.' <==> v.dot.Dot?
  {
    hide At, ShowEnd, QualifierAt, LengthChar;
    AtParts(fmt, pos, ShowDot(v.dot), ShowEnd(v));
    EndReads(fmt, pos + |ShowDot(v.dot)|, v);
    if v.dot.Dot? {
      AtChar(fmt, pos, ShowDot(v.dot), 0);
    }
  }

  /** A number written out is read up to its end. */
  lemma NumberReads(fmt: string, pos: nat, s: string)
    requires IsNumber(s) && At(fmt, pos, s) && !IsDigit(CharAt(fmt, pos + |s|))
    ensures IsDigit(CharAt(fmt, pos)) && DigitsEnd(fmt, pos) == pos + |s| && fmt[pos..pos + |s|] == s
  {
    hide Digits.Value, DigitsEnd;
    AtChar(fmt, pos, s, 0);
    DigitsEndAt(fmt, pos, s);
  }

  lemma NoDotSkips(fmt: string, pos: nat, spec: Spec, v: Conv)
    requires Valid(v) && spec.kind == None && v.dot.NoDot? && At(fmt, pos, ShowFromDot(v))
    ensures AfterWidth(fmt, pos, spec) == Qualifier(fmt, pos, spec.(precision := -1))
  {
    hide Qualifier, At, ShowEnd, ShowFromDot, Valid;
    DotReads(fmt, pos, v);
  }

  lemma BareDotSkips(fmt: string, pos: nat, spec: Spec, v: Conv)
    requires Valid(v) && spec.kind == None && v.dot == Dot(Absent) && At(fmt, pos, ShowFromDot(v))
    ensures AfterWidth(fmt, pos, spec) == Qualifier(fmt, pos + 1, spec.(precision := -1))
  {
    hide Qualifier, At, ShowEnd, ShowFromDot, Valid, QualifierAt, LengthChar;
    DotReads(fmt, pos, v);
    EndReads(fmt, pos + 1, v);
  }

  lemma WrittenDotSkips(fmt: string, pos: nat, spec: Spec, v: Conv)
    requires Valid(v) && spec.kind == None && v.dot.Dot? && v.dot.field.Written? && At(fmt, pos, ShowFromDot(v))
    ensures AfterWidth(fmt, pos, spec)
         == Qualifier(fmt, pos + 1 + |v.dot.field.digits|, spec.(precision := NotNegative(ToS16(NumberOf(v.dot.field.digits)))))
  {
    hide *;
    var s := v.dot.field.digits;
    ShowsPrecision(v);
    DotReads(fmt, pos, v);
    EndReads(fmt, pos + 1 + |s|, v);
    AtParts(fmt, pos, ".", s);
    EndsNumber(CharAt(fmt, pos + 1 + |s|));
    NumberReads(fmt, pos + 1, s);
    PrecisionDecodes(fmt, pos, spec, s);
  }

  lemma EndsNumber(c: char)
    requires Ends(c)
    ensures !IsDigit(c)
  {
  }

  lemma ShowsPrecision(v: Conv)
    requires Valid(v) && v.dot.Dot? && v.dot.field.Written?
    ensures ShowDot(v.dot) == "." + v.dot.field.digits && IsNumber(v.dot.field.digits)
  {
  }

  lemma PrecisionDecodes(fmt: string, pos: nat, spec: Spec, s: string)
    requires spec.kind == None && IsNumber(s) && pos + 1 + |s| <= |fmt| && fmt[pos + 1..pos + 1 + |s|] == s
    requires CharAt(fmt, pos) == '.' && IsDigit(CharAt(fmt, pos + 1)) && DigitsEnd(fmt, pos + 1) == pos + 1 + |s|
    ensures AfterWidth(fmt, pos, spec)
         == Qualifier(fmt, pos + 1 + |s|, spec.(precision := NotNegative(ToS16(NumberOf(s)))))
  {
    hide Qualifier, Digits.Value, DigitsEnd, ToS16;
  }

  /** A precision that is not a star is read on the way to the length. */
  lemma DotSkips(fmt: string, pos: nat, spec: Spec, v: Conv, args: seq<Arg>, k: nat)
    requires Valid(v) && spec.kind == None && v.dot != Dot(Star) && At(fmt, pos, ShowFromDot(v))
    ensures pos + |ShowDot(v.dot)| <= |fmt|
    ensures AfterWidth(fmt, pos, spec)
         == Qualifier(fmt, pos + |ShowDot(v.dot)|, spec.(precision := PrecisionOf(v.dot, args, k)))
  {
    hide Qualifier, AfterWidth, ShowEnd, NumberOf, Valid, NotNegative, ToS16;
    if v.dot.NoDot? {
      NoDotSkips(fmt, pos, spec, v);
    } else if v.dot.field.Absent? {
      BareDotSkips(fmt, pos, spec, v);
    } else {
      WrittenDotSkips(fmt, pos, spec, v);
    }
  }

  lemma DotDecodes(fmt: string, pos: nat, spec: Spec, v: Conv, args: seq<Arg>, k: nat)
    requires Valid(v) && spec.kind == None && v.dot != Dot(Star) && At(fmt, pos, ShowFromDot(v))
    ensures AfterWidth(fmt, pos, spec)
         == Decoded(pos + |ShowFromDot(v)|, Finished(spec.(precision := PrecisionOf(v.dot, args, k)), v))
  {
    hide *;
    DotSkips(fmt, pos, spec, v, args, k);
    DotReads(fmt, pos, v);
    EndDecodes(fmt, pos + |ShowDot(v.dot)|, spec.(precision := PrecisionOf(v.dot, args, k)), v);
  }

  lemma DotStarDecodes(fmt: string, pos: nat, spec: Spec, v: Conv)
    requires Valid(v) && spec.kind == None && v.dot == Dot(Star) && At(fmt, pos, ShowFromDot(v))
    ensures |ShowDot(v.dot)| == 2 && At(fmt, pos + 2, ShowEnd(v)) && pos + 2 < |fmt|
    ensures AfterWidth(fmt, pos, spec) == Decoded(pos + 2, spec.(precision := -1, kind := Precision))
  {
    hide Qualifier, ShowEnd, Valid;
    DotReads(fmt, pos, v);
    AtChar(fmt, pos, ".*", 1);
  }

  // ------------------------------------------------------------- from the width on

  /** What stands where the width may begin. */
  lemma WidthReads(fmt: string, pos: nat, v: Conv)
    requires Valid(v) && At(fmt, pos, ShowFromWidth(v))
    ensures At(fmt, pos, ShowField(v.width)) && At(fmt, pos + |ShowField(v.width)|, ShowFromDot(v))
    ensures !IsFlag(CharAt(fmt, pos))
    ensures (IsDigit(CharAt(fmt, pos)) <==> v.width.Written?) && (CharAt(fmt, pos) == '*' <==> v.width.Star?)
  {
    hide At, ShowFromDot, ShowDot, ShowEnd, IsLength, IsConversion;
    AtParts(fmt, pos, ShowField(v.width), ShowFromDot(v));
    DotReads(fmt, pos + |ShowField(v.width)|, v);
    if !v.width.Absent? {
      AtChar(fmt, pos, ShowField(v.width), 0);
    }
  }

  lemma WidthDecodes(fmt: string, pos: nat, spec: Spec, v: Conv, args: seq<Arg>, k: nat)
    requires Valid(v) && spec.kind == None && !v.width.Star? && At(fmt, pos, ShowFromWidth(v))
    ensures At(fmt, pos + |ShowField(v.width)|, ShowFromDot(v)) && pos + |ShowField(v.width)| <= |fmt|
    ensures AfterFlags(fmt, pos, spec)
         == AfterWidth(fmt, pos + |ShowField(v.width)|, spec.(width := WidthOf(v.width, args, k)))
  {
    hide AfterWidth, AfterFlags, NumberOf, ShowFromDot, ShowFromWidth, At;
    if v.width.Written? {
      WrittenDecodes(fmt, pos, spec, v);
    } else {
      AbsentDecodes(fmt, pos, spec, v);
    }
  }

  lemma AbsentDecodes(fmt: string, pos: nat, spec: Spec, v: Conv)
    requires Valid(v) && spec.kind == None && v.width.Absent? && At(fmt, pos, ShowFromWidth(v))
    ensures At(fmt, pos, ShowFromDot(v)) && pos <= |fmt|
    ensures AfterFlags(fmt, pos, spec) == AfterWidth(fmt, pos, spec.(width := -1))
  {
    hide AfterWidth, ShowFromDot, ShowFromWidth, Valid;
    WidthReads(fmt, pos, v);
  }

  lemma WrittenDecodes(fmt: string, pos: nat, spec: Spec, v: Conv)
    requires Valid(v) && spec.kind == None && v.width.Written? && At(fmt, pos, ShowFromWidth(v))
    ensures At(fmt, pos + |v.width.digits|, ShowFromDot(v)) && pos + |v.width.digits| <= |fmt|
    ensures AfterFlags(fmt, pos, spec)
         == AfterWidth(fmt, pos + |v.width.digits|, spec.(width := ToS16(NumberOf(v.width.digits))))
  {
    hide *;
    var s := v.width.digits;
    ShowsDigits(v);
    WidthReads(fmt, pos, v);
    DotReads(fmt, pos + |s|, v);
    NumberReads(fmt, pos, s);
    DigitsDecode(fmt, pos, spec, s);
  }

  lemma ShowsDigits(v: Conv)
    requires Valid(v) && v.width.Written?
    ensures ShowField(v.width) == v.width.digits && IsNumber(v.width.digits)
  {
  }

  lemma DigitsDecode(fmt: string, pos: nat, spec: Spec, s: string)
    requires spec.kind == None && IsNumber(s) && pos + |s| <= |fmt| && fmt[pos..pos + |s|] == s
    requires IsDigit(CharAt(fmt, pos)) && DigitsEnd(fmt, pos) == pos + |s|
    ensures AfterFlags(fmt, pos, spec) == AfterWidth(fmt, pos + |s|, spec.(width := ToS16(NumberOf(s))))
  {
    hide AfterWidth, Digits.Value, DigitsEnd, ToS16;
  }

  lemma WidthStarDecodes(fmt: string, pos: nat, spec: Spec, v: Conv)
    requires Valid(v) && spec.kind == None && v.width.Star? && At(fmt, pos, ShowFromWidth(v))
    ensures |ShowField(v.width)| == 1 && At(fmt, pos + 1, ShowFromDot(v)) && pos + 1 < |fmt|
    ensures AfterFlags(fmt, pos, spec) == Decoded(pos + 1, spec.(width := -1, kind := Width))
  {
    hide AfterWidth, ShowDot, ShowEnd, Valid;
    WidthReads(fmt, pos, v);
  }

  /** A spec whose flags have been read. */
  function Flagged(spec: Spec, v: Conv): (s: Spec)
    ensures s.kind == None
  {
    spec.(kind := None, flags := FlagSet(v.flags, false))
  }

  /** The flags are read up to where the width may begin. */
  lemma FlagsDecode(fmt: string, pos: nat, spec: Spec, v: Conv)
    requires Valid(v) && !Pending(spec) && At(fmt, pos, Show(v))
    ensures pos + |Show(v)| <= |fmt| && At(fmt, pos + 1 + |v.flags|, ShowFromWidth(v))
    ensures Decode(fmt, pos, spec) == AfterFlags(fmt, pos + 1 + |v.flags|, Flagged(spec, v))
  {
    hide *;
    var p := pos + 1 + |v.flags|;
    StartsConv(fmt, pos, v);
    ShowHead(v);
    AtParts(fmt, pos, ['%'], v.flags + ShowFromWidth(v));
    AtParts(fmt, pos + 1, v.flags, ShowFromWidth(v));
    AtSlice(fmt, pos, Show(v));
    AtSlice(fmt, pos + 1, v.flags);
    WidthReads(fmt, p, v);
    FlagsEndAt(fmt, pos + 1, v.flags);
    FlagsMean(v.flags);
    PercentDecodes(fmt, pos, spec);
    FlaggedIs(spec, v);
  }

  lemma AtSlice(fmt: string, pos: nat, t: string)
    requires At(fmt, pos, t)
    ensures pos + |t| <= |fmt| && fmt[pos..pos + |t|] == t
  {
  }

  lemma ShowHead(v: Conv)
    ensures Show(v) == ['%'] + (v.flags + ShowFromWidth(v))
    ensures Valid(v) ==> forall i | 0 <= i < |v.flags| :: IsFlag(v.flags[i])
  {
  }

  lemma FlaggedIs(spec: Spec, v: Conv)
    ensures Flagged(spec, v) == spec.(kind := None, flags := FlagSet(v.flags, false))
  {
  }

  /** A fresh `%` and its flags. */
  lemma PercentDecodes(fmt: string, pos: nat, spec: Spec)
    requires pos < |fmt| && fmt[pos] == '%' && !Pending(spec)
    ensures var f := FlagsEnd(fmt, pos + 1);
            Decode(fmt, pos, spec) == AfterFlags(fmt, f, spec.(kind := None, flags := FlagsOf(fmt[pos + 1..f])))
  {
    hide AfterFlags, FlagsOf, FlagsEnd;
    assert TextEnd(fmt, pos) == pos;
  }

  // ------------------------------------------------------------------- rendering

  /** A token that is a conversion prints its value. */
  lemma LastStep(fmt: string, pos: nat, spec: Spec, args: seq<Arg>, k: nat, ext: Ext, end: nat, s: Spec, v: Conv)
    requires pos < |fmt| && Valid(v) && Decode(fmt, pos, spec) == Decoded(end, Finished(s, v)) && end <= |fmt|
    ensures Render(fmt, pos, spec, args, k, ext)
         == ArgText(Finished(s, v), args, k) + Render(fmt, end, Finished(s, v), args, k + OwnUses(v.c), ext)
  {
    hide Decode, Render, NumberText, StringText, CharText, ArgValue, PointerText;
    RenderStep(fmt, pos, spec, args, k, ext);
  }

  /** A spec that a star has set. */
  function Starred(s: Spec, args: seq<Arg>, k: nat): Spec {
    if s.kind == Width then s.(width := IntArg(args, k)) else s.(precision := IntArg(args, k))
  }

  /** A star takes an argument and prints nothing. */
  lemma StarStep(fmt: string, pos: nat, spec: Spec, args: seq<Arg>, k: nat, ext: Ext, next: nat, s: Spec)
    requires pos < |fmt| && next <= |fmt| && Decode(fmt, pos, spec) == Decoded(next, s) && Pending(s)
    ensures Render(fmt, pos, spec, args, k, ext) == Render(fmt, next, Starred(s, args, k), args, k + 1, ext)
  {
    hide *;
    RenderStep(fmt, pos, spec, args, k, ext);
    StarToken(fmt, pos, Decoded(next, s), args, k, ext);
  }

  lemma StarToken(fmt: string, pos: nat, d: Decoded, args: seq<Arg>, k: nat, ext: Ext)
    requires pos <= d.next <= |fmt| && Pending(d.spec)
    ensures var v := ArgValue(d.spec.kind, args, k);
            && Fits(d.spec.kind, v) && TokenText(fmt, pos, d, v, ext) == "" && Absorb(d.spec, v) == Starred(d.spec, args, k)
    ensures Resume(fmt, d) == d.next && Taken(d.spec.kind) == 1
  {
    hide ToS16;
  }

  /** The rest of the format printed after a value. */
  function Onwards(fmt: string, end: nat, f: Spec, args: seq<Arg>, k: nat, ext: Ext, v: Conv): string
    requires end <= |fmt| && IsBase(f.base)
  {
    ArgText(f, args, k) + Render(fmt, end, f, args, k + OwnUses(v.c), ext)
  }

  /** From the precision on. */
  lemma DotRenders(fmt: string, pos: nat, spec: Spec, args: seq<Arg>, k: nat, ext: Ext, p: nat, s: Spec, v: Conv)
    requires Valid(v) && pos < |fmt| && s.kind == None && p + |ShowFromDot(v)| <= |fmt| && At(fmt, p, ShowFromDot(v))
    requires Decode(fmt, pos, spec) == AfterWidth(fmt, p, s)
    ensures Render(fmt, pos, spec, args, k, ext)
         == Onwards(fmt, p + |ShowFromDot(v)|, Finished(s.(precision := PrecisionOf(v.dot, args, k)), v), args, k + DotStars(v.dot), ext, v)
  {
    hide Render, Decode, AfterWidth, Finished, ArgText, PrecisionOf, ShowFromDot, At, Valid, Onwards;
    if v.dot == Dot(Star) {
      DotStarRenders(fmt, pos, spec, args, k, ext, p, s, v);
    } else {
      DotWrittenRenders(fmt, pos, spec, args, k, ext, p, s, v);
    }
  }

  lemma OnwardsIs(fmt: string, end: nat, f: Spec, args: seq<Arg>, k: nat, ext: Ext, v: Conv)
    requires end <= |fmt| && IsBase(f.base)
    ensures Onwards(fmt, end, f, args, k, ext, v) == ArgText(f, args, k) + Render(fmt, end, f, args, k + OwnUses(v.c), ext)
  {
  }

  lemma DotWrittenRenders(fmt: string, pos: nat, spec: Spec, args: seq<Arg>, k: nat, ext: Ext, p: nat, s: Spec, v: Conv)
    requires Valid(v) && pos < |fmt| && s.kind == None && p + |ShowFromDot(v)| <= |fmt| && At(fmt, p, ShowFromDot(v))
    requires Decode(fmt, pos, spec) == AfterWidth(fmt, p, s) && v.dot != Dot(Star)
    ensures Render(fmt, pos, spec, args, k, ext)
         == Onwards(fmt, p + |ShowFromDot(v)|, Finished(s.(precision := PrecisionOf(v.dot, args, k)), v), args, k, ext, v)
  {
    hide *;
    var s', end := s.(precision := PrecisionOf(v.dot, args, k)), p + |ShowFromDot(v)|;
    DotDecodes(fmt, p, s, v, args, k);
    LastStep(fmt, pos, spec, args, k, ext, end, s', v);
    OnwardsIs(fmt, end, Finished(s', v), args, k, ext, v);
  }

  lemma StarredPrecision(s: Spec, v: Conv, args: seq<Arg>, k: nat)
    requires v.dot == Dot(Star)
    ensures var t := s.(precision := -1, kind := Precision);
            && Pending(t) && Starred(t, args, k).kind == Precision
            && Starred(t, args, k).(kind := None, precision := NotNegative(Starred(t, args, k).precision))
               == s.(kind := None, precision := PrecisionOf(v.dot, args, k))
  {
    hide IntArg;
  }

  lemma DotStarRenders(fmt: string, pos: nat, spec: Spec, args: seq<Arg>, k: nat, ext: Ext, p: nat, s: Spec, v: Conv)
    requires Valid(v) && pos < |fmt| && s.kind == None && p + |ShowFromDot(v)| <= |fmt| && At(fmt, p, ShowFromDot(v))
    requires Decode(fmt, pos, spec) == AfterWidth(fmt, p, s) && v.dot == Dot(Star)
    ensures Render(fmt, pos, spec, args, k, ext)
         == Onwards(fmt, p + |ShowFromDot(v)|, Finished(s.(precision := PrecisionOf(v.dot, args, k)), v), args, k + 1, ext, v)
  {
    hide *;
    var s', end := s.(precision := PrecisionOf(v.dot, args, k)), p + |ShowFromDot(v)|;
    var t := s.(precision := -1, kind := Precision);
    StarredPrecision(s, v, args, k);
    DotStarDecodes(fmt, p, s, v);
    StarStep(fmt, pos, spec, args, k, ext, p + 2, t);
    EndDecodes(fmt, p + 2, s', v);
    ResumesAtLength(fmt, p + 2, Starred(t, args, k));
    LastStep(fmt, p + 2, Starred(t, args, k), args, k + 1, ext, end, s', v);
    OnwardsIs(fmt, end, Finished(s', v), args, k + 1, ext, v);
  }

  lemma ResumesAtLength(fmt: string, pos: nat, spec: Spec)
    requires pos < |fmt| && spec.kind == Precision
    ensures Decode(fmt, pos, spec) == Qualifier(fmt, pos, spec.(kind := None, precision := NotNegative(spec.precision)))
  {
    hide Qualifier;
  }

  lemma ResumesAtDot(fmt: string, pos: nat, spec: Spec)
    requires pos < |fmt| && spec.kind == Width
    ensures Decode(fmt, pos, spec) == AfterWidth(fmt, pos, Widened(spec)) && Widened(spec).kind == None
  {
    hide AfterWidth;
  }

  /** The spec that was collected is the one the syntax means. */
  lemma Collected(spec: Spec, v: Conv, args: seq<Arg>, k: nat)
    ensures !v.width.Star? ==>
              Finished(Flagged(spec, v).(width := WidthOf(v.width, args, k), precision := PrecisionOf(v.dot, args, k)), v)
              == SpecOf(v, args, k)
    ensures v.width.Star? ==>
              Finished(Widened(Starred(Flagged(spec, v).(width := -1, kind := Width), args, k))
                       .(precision := PrecisionOf(v.dot, args, k + 1)), v)
              == SpecOf(v, args, k)
  {
    hide IntArg, KindOf, PrecisionOf, NumberOf, LengthChar, Radix, ToS16;
  }

  /** The text of a conversion and the rest of the format. */
  function Continued(fmt: string, pos: nat, args: seq<Arg>, k: nat, ext: Ext, v: Conv): string
    requires pos + |Show(v)| <= |fmt|
  {
    ConvText(v, args, k) + Render(fmt, pos + |Show(v)|, SpecOf(v, args, k), args, k + Uses(v), ext)
  }

  lemma ContinuedIs(fmt: string, pos: nat, args: seq<Arg>, k: nat, ext: Ext, v: Conv)
    requires Valid(v) && pos + |Show(v)| <= |fmt|
    ensures Continued(fmt, pos, args, k, ext, v)
         == Onwards(fmt, pos + |Show(v)|, SpecOf(v, args, k), args, k + Stars(v.width) + DotStars(v.dot), ext, v)
  {
    hide Render, SpecOf, ArgText, Show, ConvText;
    ConvMeans(v, args, k);
  }

  lemma StarsCount(f: Field)
    ensures Stars(f) == if f.Star? then 1 else 0
  {
  }

  lemma StarredWidth(s: Spec, args: seq<Arg>, k: nat)
    requires s.kind == Width
    ensures Pending(s) && Starred(s, args, k).kind == Width
  {
  }

  lemma WidthRenders(fmt: string, pos: nat, spec: Spec, args: seq<Arg>, k: nat, ext: Ext, v: Conv)
    requires Valid(v) && !Pending(spec) && At(fmt, pos, Show(v)) && pos + |Show(v)| <= |fmt| && !v.width.Star?
    ensures Render(fmt, pos, spec, args, k, ext) == Continued(fmt, pos, args, k, ext, v)
  {
    hide *;
    StarsCount(v.width);
    var p := pos + 1 + |v.flags|;
    FlagsDecode(fmt, pos, spec, v);
    var s0 := Flagged(spec, v);
    WidthDecodes(fmt, p, s0, v, args, k);
    DotRenders(fmt, pos, spec, args, k, ext, p + |ShowField(v.width)|, s0.(width := WidthOf(v.width, args, k)), v);
    Collected(spec, v, args, k);
    ContinuedIs(fmt, pos, args, k, ext, v);
  }

  lemma StarRenders(fmt: string, pos: nat, spec: Spec, args: seq<Arg>, k: nat, ext: Ext, v: Conv)
    requires Valid(v) && !Pending(spec) && At(fmt, pos, Show(v)) && pos + |Show(v)| <= |fmt| && v.width.Star?
    ensures Render(fmt, pos, spec, args, k, ext) == Continued(fmt, pos, args, k, ext, v)
  {
    hide *;
    StarsCount(v.width);
    var p, t := pos + 1 + |v.flags|, Flagged(spec, v).(width := -1, kind := Width);
    var t' := Starred(t, args, k);
    StarredWidth(t, args, k);
    FlagsDecode(fmt, pos, spec, v);
    WidthStarDecodes(fmt, p, Flagged(spec, v), v);
    StarStep(fmt, pos, spec, args, k, ext, p + 1, t);
    ResumesAtDot(fmt, p + 1, t');
    DotRenders(fmt, p + 1, t', args, k + 1, ext, p + 1, Widened(t'), v);
    Collected(spec, v, args, k);
    ContinuedIs(fmt, pos, args, k, ext, v);
  }

  /** A conversion prints what its syntax means, and uses as many arguments. */
  lemma ConvRenders(fmt: string, pos: nat, spec: Spec, args: seq<Arg>, k: nat, ext: Ext, v: Conv)
    requires Valid(v) && !Pending(spec) && At(fmt, pos, Show(v))
    ensures pos + |Show(v)| <= |fmt|
    ensures Render(fmt, pos, spec, args, k, ext)
         == ConvText(v, args, k) + Render(fmt, pos + |Show(v)|, SpecOf(v, args, k), args, k + Uses(v), ext)
  {
    hide Render, ConvText, Show, SpecOf, Valid, Uses;
    if v.width.Star? {
      StarRenders(fmt, pos, spec, args, k, ext, v);
    } else {
      WidthRenders(fmt, pos, spec, args, k, ext, v);
    }
  }

  // --------------------------------------------------------------- whole formats

  /** Text without `%`, then a conversion. */
  datatype Part = Part(text: string, conv: Conv)

  predicate IsText(s: string) {
    forall i | 0 <= i < |s| :: s[i] != '%'
  }

  predicate AllValid(parts: seq<Part>) {
    forall i | 0 <= i < |parts| :: IsText(parts[i].text) && Valid(parts[i].conv)
  }

  function ShowParts(parts: seq<Part>, tail: string): string {
    if parts == [] then tail
    else parts[0].text + (Show(parts[0].conv) + ShowParts(parts[1..], tail))
  }

  /** Texts and conversions in order, the arguments used from left to right. */
  function Meaning(parts: seq<Part>, tail: string, args: seq<Arg>, k: nat): string {
    if parts == [] then tail
    else
      var v := parts[0].conv;
      parts[0].text + (ConvText(v, args, k) + Meaning(parts[1..], tail, args, k + Uses(v)))
  }

  lemma {:induction false} TextEndAt(fmt: string, pos: nat, s: string)
    requires At(fmt, pos, s) && IsText(s) && (pos + |s| < |fmt| ==> fmt[pos + |s|] == '%')
    ensures TextEnd(fmt, pos) == pos + |s|
    decreases |s|
  {
    if s != "" {
      AtChar(fmt, pos, s, 0);
      assert s == s[..1] + s[1..];
      AtParts(fmt, pos, s[..1], s[1..]);
      TextEndAt(fmt, pos + 1, s[1..]);
    }
  }

  lemma TextDecodes(fmt: string, pos: nat, spec: Spec, s: string)
    requires At(fmt, pos, s) && s != "" && IsText(s) && (pos + |s| < |fmt| ==> fmt[pos + |s|] == '%') && !Pending(spec)
    ensures Decode(fmt, pos, spec) == Decoded(pos + |s|, spec.(kind := None))
  {
    hide TextEnd;
    TextEndAt(fmt, pos, s);
  }

  lemma TextToken(fmt: string, pos: nat, spec: Spec, args: seq<Arg>, k: nat, ext: Ext, s: string)
    requires At(fmt, pos, s) && spec.kind == None
    ensures var d, v := Decoded(pos + |s|, spec), ArgValue(None, args, k);
            && Fits(None, v) && TokenText(fmt, pos, d, v, ext) == s && Absorb(spec, v) == spec
            && Resume(fmt, d) == d.next && Taken(None) == 0
  {
  }

  lemma NotPending(spec: Spec)
    requires spec.kind == None
    ensures !Pending(spec)
  {
  }

  /** Text prints as itself. */
  lemma TextRenders(fmt: string, pos: nat, spec: Spec, args: seq<Arg>, k: nat, ext: Ext, s: string) returns (spec': Spec)
    requires At(fmt, pos, s) && IsText(s) && (pos + |s| < |fmt| ==> fmt[pos + |s|] == '%') && !Pending(spec) && pos + |s| <= |fmt|
    ensures !Pending(spec') && Render(fmt, pos, spec, args, k, ext) == s + Render(fmt, pos + |s|, spec', args, k, ext)
  {
    hide *;
    if s == "" {
      spec' := spec;
      assert "" + Render(fmt, pos, spec, args, k, ext) == Render(fmt, pos, spec, args, k, ext);
    } else {
      spec' := spec.(kind := None);
      TextDecodes(fmt, pos, spec, s);
      TextToken(fmt, pos, spec', args, k, ext, s);
      NotPending(spec');
      RenderStep(fmt, pos, spec, args, k, ext);
    }
  }

  /** printf prints what the syntax of its format means. */
  lemma {:induction false} PartsRender(fmt: string, pos: nat, spec: Spec, args: seq<Arg>, k: nat, ext: Ext, parts: seq<Part>, tail: string)
    requires AllValid(parts) && IsText(tail) && !Pending(spec)
    requires At(fmt, pos, ShowParts(parts, tail)) && pos + |ShowParts(parts, tail)| == |fmt|
    ensures Render(fmt, pos, spec, args, k, ext) == Meaning(parts, tail, args, k)
    decreases |parts|
  {
    hide *;
    if parts == [] {
      NoParts(tail, args, k);
      EndRenders(fmt, pos, spec, args, k, ext, tail);
    } else {
      var text, v, rest := parts[0].text, parts[0].conv, parts[1..];
      FirstPart(parts, tail, args, k);
      var p := pos + |text|;
      AtParts(fmt, pos, text, Show(v) + ShowParts(rest, tail));
      AtParts(fmt, p, Show(v), ShowParts(rest, tail));
      StartsConv(fmt, p, v);
      var s := TextRenders(fmt, pos, spec, args, k, ext, text);
      ConvRenders(fmt, p, s, args, k, ext, v);
      PartsRender(fmt, p + |Show(v)|, SpecOf(v, args, k), args, k + Uses(v), ext, rest, tail);
    }
  }

  lemma NoParts(tail: string, args: seq<Arg>, k: nat)
    ensures ShowParts([], tail) == tail && Meaning([], tail, args, k) == tail
  {
  }

  lemma FirstPart(parts: seq<Part>, tail: string, args: seq<Arg>, k: nat)
    requires parts != [] && AllValid(parts)
    ensures var text, v, rest := parts[0].text, parts[0].conv, parts[1..];
            && AllValid(rest) && IsText(text) && Valid(v)
            && ShowParts(parts, tail) == text + (Show(v) + ShowParts(rest, tail))
            && Meaning(parts, tail, args, k) == text + (ConvText(v, args, k) + Meaning(rest, tail, args, k + Uses(v)))
  {
    hide Show, ConvText, Uses, IsText, Valid;
  }

  lemma EndRenders(fmt: string, pos: nat, spec: Spec, args: seq<Arg>, k: nat, ext: Ext, tail: string)
    requires At(fmt, pos, tail) && IsText(tail) && pos + |tail| == |fmt| && !Pending(spec)
    ensures Render(fmt, pos, spec, args, k, ext) == tail
  {
    hide *;
    var s := TextRenders(fmt, pos, spec, args, k, ext, tail);
    RenderEnd(fmt, s, args, k, ext);
    assert tail + "" == tail;
  }

  lemma StartsConv(fmt: string, pos: nat, v: Conv)
    requires At(fmt, pos, Show(v))
    ensures pos < |fmt| && fmt[pos] == '%'
  {
    AtChar(fmt, pos, Show(v), 0);
  }

  lemma FormatMeans(parts: seq<Part>, tail: string, args: seq<Arg>, ext: Ext)
    requires AllValid(parts) && IsText(tail)
    ensures Formatted(ShowParts(parts, tail), args, ext) == Meaning(parts, tail, args, 0)
  {
    hide Render, Meaning, ShowParts, AllValid, IsText;
    var fmt := ShowParts(parts, tail);
    assert At(fmt, 0, fmt) by {
      assert fmt[0..0 + |fmt|] == fmt;
    }
    PartsRender(fmt, 0, ZERO_SPEC, args, 0, ext, parts, tail);
  }
}
