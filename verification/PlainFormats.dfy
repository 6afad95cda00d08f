/** The formats met most often, printed for every argument. */
module PlainFormats {
  import opened CType
  import opened ConversionText
  import opened FormatDecode
  import opened Digits
  import opened PrintfText
  import opened Printf
  import opened FormatGrammar

  lemma OneConv(v: Conv, args: seq<Arg>, ext: Ext)
    requires Valid(v)
    ensures Formatted(Show(v), args, ext) == ConvText(v, args, 0)
  {
    hide Formatted, Show, ConvText, Valid;
    var parts := [Part("", v)];
    assert parts[1..] == [];
    assert ShowParts(parts, "") == "" + (Show(v) + "") == Show(v);
    assert Meaning(parts, "", args, 0) == "" + (ConvText(v, args, 0) + "") == ConvText(v, args, 0);
    FormatMeans(parts, "", args, ext);
  }

  /** Decimal digits are short. */
  lemma ShortDecimal(slot: u64)
    ensures |Numeral(Absolute(IntegerOf('d', "", slot)), 10, false)| <= 100
  {
    hide Numeral;
    Numeral64(Absolute(IntegerOf('d', "", slot)), 10, false);
  }

  lemma Unpadded(before: string, body: string, w: s16)
    requires w <= 0
    ensures Padded(before, body, false, false, w) == before + body <==> w >= -0x7ffd
    ensures w < -0x7ffd ==> |Padded(before, body, false, false, w)| == |before| + |body| + 0x8000
  {
    assert Fill(' ', 0) == "";
  }

  /** A precision that is written out, and the two conversions it is used with here. */
  function Precise(p: nat, c: char): Conv {
    Conv("", Absent, Dot(Written(Numeral(p, 10, false))), "", c)
  }

  lemma IntegerText(v: Conv, slot: u64)
    requires v.width.Absent? && v.c == 'd' && '-' !in v.flags && v.dot != Dot(Star)
    ensures ConvText(v, [Word(slot)], 0) == IntegerIn('d', v.length, v.flags, false, -1, PrecisionOf(v.dot, [Word(slot)], 0), slot)
  {
    hide IntegerIn, PrecisionOf;
  }

  /** A signed decimal without a width: sign, zeros, digits, exactly when they fit in 16 bits. */
  lemma DecimalIn(flags: string, precision: s16, slot: u64)
    requires '0' !in flags && '#' !in flags
    ensures var x := IntegerOf('d', "", slot);
            var sign, body := SignOf('d', flags, x), AtLeast(Numeral(Absolute(x), 10, false), precision);
            IntegerIn('d', "", flags, false, -1, precision, slot) == sign + body <==> |sign| + |body| <= 0x7ffc
  {
    hide Numeral, IntegerOf, Padded, SignOf, AtLeast, Absolute;
    var x := IntegerOf('d', "", slot);
    var sign, body := SignOf('d', flags, x), AtLeast(Numeral(Absolute(x), 10, false), precision);
    ShortDecimal(slot);
    SmallText(flags, x, Numeral(Absolute(x), 10, false), precision);
    assert sign + "" == sign;
    var w := ToS16(-1 - |sign| - |body|);
    if w <= 0 {
      Unpadded(sign, body, w);
    } else {
      assert |Padded(sign, body, false, false, w)| == |sign| + |body| + w by {
        Wrapped(sign, body, w);
      }
    }
  }

  lemma SmallText(flags: string, x: int, digits: string, precision: s16)
    requires |digits| <= 100
    ensures |SignOf('d', flags, x)| <= 1 && |AtLeast(digits, precision)| <= 0x7fff
  {
  }

  lemma Wrapped(before: string, body: string, w: s16)
    requires w > 0
    ensures |Padded(before, body, false, false, w)| == |before| + |body| + w
  {
  }

  /** A sign that is asked for, and the decimal numeral of the absolute value. */
  lemma DecimalPrints(flags: string, slot: u64, ext: Ext)
    requires flags == "" || flags == "+" || flags == " "
    ensures var x := IntegerOf('d', "", slot);
            Formatted("%" + flags + "d", [Word(slot)], ext)
            == (if x < 0 then "-" else flags) + Numeral(Absolute(x), 10, false)
  {
    hide *;
    var v := Conv(flags, Absent, NoDot, "", 'd');
    DecimalShape(flags);
    OneConv(v, [Word(slot)], ext);
    IntegerText(v, slot);
    NoPrecision([Word(slot)]);
    DecimalIn(flags, -1, slot);
    PlainDecimal(flags, slot);
  }

  lemma DecimalShape(flags: string)
    requires flags == "" || flags == "+" || flags == " "
    ensures var v := Conv(flags, Absent, NoDot, "", 'd');
            Valid(v) && Show(v) == "%" + flags + "d" && '-' !in flags && '0' !in flags && '#' !in flags
  {
  }

  lemma NoPrecision(args: seq<Arg>)
    ensures PrecisionOf(NoDot, args, 0) == -1
  {
  }

  lemma PlainDecimal(flags: string, slot: u64)
    requires flags == "" || flags == "+" || flags == " "
    ensures var x := IntegerOf('d', "", slot);
            var digits := Numeral(Absolute(x), 10, false);
            && SignOf('d', flags, x) == (if x < 0 then "-" else flags)
            && AtLeast(digits, -1) == digits && |SignOf('d', flags, x)| + |digits| <= 0x7ffc
  {
    hide Numeral, IntegerOf;
    ShortDecimal(slot);
  }

  lemma PreciseShape(p: nat, c: char)
    requires p < 0x8000 && (c == 'd' || c == 's')
    ensures var v := Precise(p, c);
            && Valid(v) && Show(v) == "%." + Numeral(p, 10, false) + [c]
            && forall args: seq<Arg>, k: nat :: PrecisionOf(v.dot, args, k) == p
  {
    hide Numeral, Digits.Value;
    var digits := Numeral(p, 10, false);
    NumeralValue(p, 10, false);
    forall i | 0 <= i < |digits| ensures IsDigit(digits[i]) {
      assert IsXDigit(digits[i]) && DigitValue(digits[i]) < 10;
    }
    assert ToS16(p) == p;
    assert Show(Precise(p, c)) == "%." + digits + [c];
  }

  /** `%.Nd`: zeros up to N digits, as long as sign and digits together stay below 32765. */
  lemma PrecisionPrints(p: nat, slot: u64, ext: Ext)
    requires p < 0x8000
    ensures var x := IntegerOf('d', "", slot);
            var sign, body := if x < 0 then "-" else "", AtLeast(Numeral(Absolute(x), 10, false), p);
            Formatted("%." + Numeral(p, 10, false) + "d", [Word(slot)], ext) == sign + body <==> |sign| + |body| <= 0x7ffc
  {
    hide *;
    var v := Precise(p, 'd');
    PreciseShape(p, 'd');
    PreciseIs(p, 'd');
    OneConv(v, [Word(slot)], ext);
    IntegerText(v, slot);
    DecimalIn("", p, slot);
    PlainDecimal("", slot);
  }

  lemma PreciseIs(p: nat, c: char)
    ensures Precise(p, c) == Conv("", Absent, Dot(Written(Numeral(p, 10, false))), "", c)
  {
  }

  /** `%.Ns`: at most N characters. */
  lemma CutPrints(p: nat, bits: u64, text: cstring, ext: Ext)
    requires p < 0x8000
    ensures Formatted("%." + Numeral(p, 10, false) + "s", [Pointer(bits, text)], ext) == if p < |text| then text[..p] else text
  {
    hide Formatted, Show, Valid, Numeral, PrecisionOf;
    PreciseShape(p, 's');
    OneConv(Precise(p, 's'), [Pointer(bits, text)], ext);
    assert Fill(' ', 0) == "";
  }

  /** An argument that points to no string prints as a null pointer does. */
  lemma NullPrints(bits: u64, ext: Ext)
    ensures Formatted("%s", [Word(bits)], ext) == "(null)"
  {
    hide Formatted, Valid;
    var v := Conv("", Absent, NoDot, "", 's');
    StringShape();
    assert Show(v) == "%s";
    OneConv(v, [Word(bits)], ext);
    assert Fill(' ', 0) == "";
  }

  lemma StringShape()
    ensures Valid(Conv("", Absent, NoDot, "", 's'))
  {
  }

  // ------------------------------------------------------------------- pointers

  /** A pointer that is not null, without an extension: lower-case hexadecimal, zeros up to
      16 digits unless a width is given. */
  lemma PointerMeans(suffix: string, ptr: u64, spec: Spec, ext: Ext)
    requires ptr != 0 && !IsExtension(suffix) && !spec.flags.sign
    ensures var before := if spec.flags.special then "0x" else "";
            var body := AtLeast(Numeral(ptr, 16, true), spec.precision);
            var zero, width := spec.flags.zeropad || spec.width == -1, if spec.width == -1 then 16 else spec.width;
            PointerText(suffix, ptr, spec, ext)
            == Padded(before, body, spec.flags.left, zero, ToS16(width - |before| - |body|))
  {
    hide Numeral, Padded, Assemble, ToS16, IsExtension;
    var s := PointerSpec(spec);
    var body := AtLeast(Numeral(ptr, 16, true), spec.precision);
    NoFill();
    assert "" + Numeral(ptr, 16, true) == Numeral(ptr, 16, true);
    assert Body(ptr, s) == body;
    AssembleMeans(SignText(ptr, s.flags), PrefixText(s), Body(ptr, s), s.flags, ToS16(Slack(ptr, s)));
    assert SignText(ptr, s.flags) + PrefixText(s) == PrefixText(s);
  }

  const PTR_SPEC := Spec(Ptr, NO_FLAGS, 10, NO_QUALIFIER, -1, -1)

  /** The letters that ask for something other than a number, and IP addresses. */
  predicate Extends(rest: string) {
    var c, d := CharAt(rest, 0), CharAt(rest, 1);
    c in "FfSsRrMmU" || (c in "Ii" && d in "46")
  }

  /** `%p`: `(null)`, what the extension prints, or 16 lower-case hexadecimal digits. */
  lemma PointerCases(rest: string, ptr: u64, ext: Ext)
    ensures PointerText(rest, ptr, PTR_SPEC, ext)
         == if ptr == 0 then "(null)"
            else if Extends(rest) then ext(rest, ptr, PTR_SPEC)
            else AtLeast(Numeral(ptr, 16, true), 16)
  {
    hide Numeral, NumberText;
    NoFill();
    if ptr == 0 {
      StringMeans("(null)", PTR_SPEC);
    } else if !Extends(rest) {
      Numeral64(ptr, 16, true);
      PointerMeans(rest, ptr, PTR_SPEC, ext);
    }
  }

  lemma PointerDecodes(fmt: string)
    requires |fmt| >= 2 && fmt[0] == '%' && fmt[1] == 'p'
    ensures Decode(fmt, 0, ZERO_SPEC) == Decoded(1, PTR_SPEC)
  {
    assert TextEnd(fmt, 0) == 0 && FlagsEnd(fmt, 1) == 1;
    assert fmt[1..1] == [];
  }

  lemma {:induction false} AlnumEndAt(fmt: string, pos: nat, s: string)
    requires At(fmt, pos, s) && (forall i | 0 <= i < |s| :: IsAlnum(s[i])) && !IsAlnum(CharAt(fmt, pos + |s|))
    ensures AlnumEnd(fmt, pos) == pos + |s|
    decreases |s|
  {
    if s != "" {
      AtChar(fmt, pos, s, 0);
      assert s == s[..1] + s[1..];
      AtParts(fmt, pos, s[..1], s[1..]);
      AlnumEndAt(fmt, pos + 1, s[1..]);
    }
  }

  lemma PointerToken(fmt: string, ptr: u64, ext: Ext)
    requires |fmt| >= 2
    ensures var d, v := Decoded(1, PTR_SPEC), ArgValue(Ptr, [Word(ptr)], 0);
            && Fits(Ptr, v) && TokenText(fmt, 0, d, v, ext) == PointerText(fmt[2..], ptr, PTR_SPEC, ext)
            && Resume(fmt, d) == AlnumEnd(fmt, 1) && Absorb(PTR_SPEC, v) == PTR_SPEC && Taken(Ptr) == 1
  {
    hide PointerText, AlnumEnd;
  }

  /** `%p` takes the letters and digits after it with it; what follows them is text again. */
  lemma PointerPrints(suffix: string, tail: string, ptr: u64, ext: Ext)
    requires (forall i | 0 <= i < |suffix| :: IsAlnum(suffix[i])) && IsText(tail) && !IsAlnum(CharAt(tail, 0))
    ensures Formatted("%p" + suffix + tail, [Word(ptr)], ext) == PointerText(suffix + tail, ptr, PTR_SPEC, ext) + tail
  {
    hide *;
    var fmt, args := "%p" + suffix + tail, [Word(ptr)];
    PointerShape(suffix, tail);
    PointerDecodes(fmt);
    PointerToken(fmt, ptr, ext);
    AlnumEndAt(fmt, 1, "p" + suffix);
    FormattedIs(fmt, args, ext);
    RenderStep(fmt, 0, ZERO_SPEC, args, 0, ext);
    EndRenders(fmt, 2 + |suffix|, PTR_SPEC, args, 1, ext, tail);
  }

  lemma PointerShape(suffix: string, tail: string)
    requires (forall i | 0 <= i < |suffix| :: IsAlnum(suffix[i])) && !IsAlnum(CharAt(tail, 0))
    ensures var fmt, s := "%p" + suffix + tail, "p" + suffix;
            && fmt[0] == '%' && fmt[1] == 'p' && fmt[2..] == suffix + tail
            && At(fmt, 1, s) && At(fmt, 1 + |s|, tail) && 1 + |s| + |tail| == |fmt| && !IsAlnum(CharAt(fmt, 1 + |s|))
            && (forall i | 0 <= i < |s| :: IsAlnum(s[i])) && !Pending(PTR_SPEC) && PTR_SPEC.kind == Ptr
  {
    var fmt, s := "%p" + suffix + tail, "p" + suffix;
    assert fmt[1..1 + |s|] == s && fmt[1 + |s|..] == tail;
  }

  lemma FormattedIs(fmt: string, args: seq<Arg>, ext: Ext)
    ensures Formatted(fmt, args, ext) == Render(fmt, 0, ZERO_SPEC, args, 0, ext)
  {
    hide Render;
  }

  // -------------------------------------------------------- what is no conversion

  /** Nothing that may follow `%`. */
  predicate Unknown(c: char) {
    c !in "-+ #0123456789.*hlLzZtcsnpoxXdiu%"
  }

  /** No flag, digit, star, dot, length or conversion character. */
  predicate Foreign(c: char) {
    && !IsFlag(c) && !IsDigit(c) && c != '*' && c != '.'
    && c != 'h' && !EitherCase(c, 'l') && !EitherCase(c, 'z') && c != 't'
    && KindOf(c, NO_QUALIFIER, false) == Invalid && c != 'd' && c != 'i'
  }

  lemma UnknownForeign(c: char)
    requires Unknown(c) || c == NUL
    ensures Foreign(c)
  {
  }

  lemma ForeignDecodes(fmt: string, spec: Spec)
    requires |fmt| >= 1 && Foreign(CharAt(fmt, 1)) && spec.kind == None && !spec.flags.sign
    ensures var d := AfterFlags(fmt, 1, spec); d.next == 1 && d.spec.kind == Invalid
  {
    assert QualifierAt(fmt, 1) == (NO_QUALIFIER, 1);
  }

  lemma UnknownDecodes(fmt: string)
    requires |fmt| >= 1 && fmt[0] == '%' && (|fmt| > 1 ==> Unknown(fmt[1]))
    ensures var d := Decode(fmt, 0, ZERO_SPEC); d.next == 1 && d.spec.kind == Invalid
  {
    hide AfterFlags, Unknown, KindOf;
    UnknownForeign(CharAt(fmt, 1));
    assert TextEnd(fmt, 0) == 0 && FlagsEnd(fmt, 1) == 1;
    assert fmt[1..1] == [];
    ForeignDecodes(fmt, ZERO_SPEC);
  }

  lemma InvalidToken(fmt: string, d: Decoded, args: seq<Arg>, ext: Ext)
    requires |fmt| >= 1 && d.next == 1 && d.spec.kind == Invalid
    ensures var v := ArgValue(Invalid, args, 0);
            && Fits(Invalid, v) && TokenText(fmt, 0, d, v, ext) == "%" && Resume(fmt, d) == 1
            && Absorb(d.spec, v) == d.spec && Taken(Invalid) == 0 && !Pending(d.spec)
  {
  }

  /** A `%` that begins no conversion prints as itself, and so does what follows it. */
  lemma UnknownPrints(rest: string, args: seq<Arg>, ext: Ext)
    requires IsText(rest) && (rest == "" || Unknown(rest[0]))
    ensures Formatted("%" + rest, args, ext) == "%" + rest
  {
    hide *;
    var fmt := "%" + rest;
    var d := Decode(fmt, 0, ZERO_SPEC);
    UnknownDecodes(fmt);
    InvalidToken(fmt, d, args, ext);
    FormattedIs(fmt, args, ext);
    RenderStep(fmt, 0, ZERO_SPEC, args, 0, ext);
    Second(fmt, rest);
    EndRenders(fmt, 1, d.spec, args, 0, ext, rest);
  }

  lemma Second(fmt: string, rest: string)
    requires fmt == "%" + rest
    ensures At(fmt, 1, rest)
  {
    assert fmt[1..1 + |rest|] == rest;
  }
}
