/** The resumable printf format decoder. */
module FormatDecode {
  import opened CType
  import opened Digits

  datatype Kind =
    | None | Width | Precision | Char | Str | Ptr | PercentChar | Invalid
    | LongLong | ULong | Long | UByte | Byte | UShort | Short | UInt | Int
    | NrChars | SizeT | PtrDiff

  datatype Flags = Flags(zeropad: bool, sign: bool, plus: bool, space: bool, left: bool, small: bool, special: bool)

  const NO_FLAGS := Flags(false, false, false, false, false, false, false)
  const NO_QUALIFIER: char := 255 as char

  datatype Spec = Spec(kind: Kind, flags: Flags, base: nat, qualifier: char, width: s16, precision: s16)

  /** `struct printf_spec spec = {0}`. */
  const ZERO_SPEC := Spec(None, NO_FLAGS, 0, NUL, 0, 0)

  /** Where the decoder stopped, and the token it found. */
  datatype Decoded = Decoded(next: nat, spec: Spec)

  /** The decoder returned early for a `*` and is to be resumed. */
  predicate Pending(spec: Spec) {
    spec.kind == Width || spec.kind == Precision
  }

  function TextEnd(fmt: string, pos: nat): (e: nat)
    requires pos <= |fmt|
    ensures pos <= e <= |fmt| && (e < |fmt| ==> fmt[e] == '%')
    ensures forall i | pos <= i < e :: fmt[i] != '%'
    decreases |fmt| - pos
  {
    if pos < |fmt| && fmt[pos] != '%' then TextEnd(fmt, pos + 1) else pos
  }

  predicate IsFlag(c: char) {
    c == '-' || c == '+' || c == ' ' || c == '#' || c == '0'
  }

  function AddFlag(f: Flags, c: char): Flags {
    if c == '-' then f.(left := true)
    else if c == '+' then f.(plus := true)
    else if c == ' ' then f.(space := true)
    else if c == '#' then f.(special := true)
    else if c == '0' then f.(zeropad := true)
    else f
  }

  function FlagsEnd(fmt: string, pos: nat): (e: nat)
    requires pos <= |fmt|
    ensures pos <= e <= |fmt|
    decreases |fmt| - pos
  {
    if IsFlag(CharAt(fmt, pos)) then FlagsEnd(fmt, pos + 1) else pos
  }

  function FlagsOf(s: string): Flags {
    if s == [] then NO_FLAGS else AddFlag(FlagsOf(s[..|s| - 1]), s[|s| - 1])
  }

  function DigitsEnd(fmt: string, pos: nat): (e: nat)
    requires pos <= |fmt|
    ensures pos <= e <= |fmt|
    ensures IsDigit(CharAt(fmt, pos)) ==> e > pos
    ensures !IsDigit(CharAt(fmt, e)) && forall i | pos <= i < e :: IsDigit(fmt[i])
    decreases |fmt| - pos
  {
    if IsDigit(CharAt(fmt, pos)) then DigitsEnd(fmt, pos + 1) else pos
  }

  predicate IsInteger(k: Kind) {
    k == LongLong || k == ULong || k == Long || k == UByte || k == Byte || k == UShort || k == Short
    || k == UInt || k == Int || k == SizeT || k == PtrDiff
  }

  /** The integer kind for a qualifier. */
  function IntegerKind(q: char, sign: bool): (k: Kind)
    ensures IsInteger(k)
  {
    if q == 'L' then LongLong
    else if q == 'l' then if sign then Long else ULong
    else if EitherCase(q, 'z') then SizeT
    else if q == 't' then PtrDiff
    else if q == 'H' then if sign then Byte else UByte
    else if q == 'h' then if sign then Short else UShort
    else if sign then Int else UInt
  }

  /** The kind for a conversion character. */
  function KindOf(c: char, q: char, sign: bool): (k: Kind)
    ensures k != None && k != Width && k != Precision
    ensures k == Ptr <==> c == 'p'
  {
    if c == 'c' then Char
    else if c == 's' then Str
    else if c == 'p' then Ptr
    else if c == 'n' then NrChars
    else if c == '%' then PercentChar
    else if c == 'o' || c == 'x' || c == 'X' || c == 'd' || c == 'i' || c == 'u' then IntegerKind(q, sign)
    else Invalid
  }

  /** From the conversion character on.  A `p` is left for the driver, which skips it with
      the letters and digits after it; an invalid character is left as text. */
  function Conversion(fmt: string, pos: nat, spec: Spec): (d: Decoded)
    requires pos <= |fmt|
    ensures pos <= d.next <= |fmt|
    ensures d.spec.kind == KindOf(CharAt(fmt, pos), spec.qualifier, d.spec.flags.sign)
    ensures d.next == pos <==> d.spec.kind == Ptr || d.spec.kind == Invalid
    ensures d.spec.base == 8 || d.spec.base == 10 || d.spec.base == 16
  {
    var c := CharAt(fmt, pos);
    var flags := spec.flags.(sign := spec.flags.sign || c == 'd' || c == 'i', small := spec.flags.small || c == 'x');
    var kind := KindOf(c, spec.qualifier, flags.sign);
    Decoded(if kind == Ptr || kind == Invalid then pos else pos + 1,
            spec.(kind := kind, flags := flags,
                  base := if c == 'o' then 8 else if c == 'x' || c == 'X' then 16 else 10))
  }

  /** The qualifier at pos, `ll` and `hh` being read as 'L' and 'H', and where it ends. */
  function QualifierAt(fmt: string, pos: nat): (r: (char, nat))
    requires pos <= |fmt|
    ensures pos <= r.1 <= |fmt|
  {
    var q := CharAt(fmt, pos);
    if q == 'h' || EitherCase(q, 'l') || EitherCase(q, 'z') || q == 't' then
      if q == CharAt(fmt, pos + 1) && q == 'l' then ('L', pos + 2)
      else if q == CharAt(fmt, pos + 1) && q == 'h' then ('H', pos + 2)
      else (q, pos + 1)
    else (NO_QUALIFIER, pos)
  }

  /** From the qualifier on. */
  function Qualifier(fmt: string, pos: nat, spec: Spec): (d: Decoded)
    requires pos <= |fmt|
    ensures pos <= d.next <= |fmt|
    ensures !Pending(d.spec) && d.spec.kind != None
    ensures d.spec.kind == Ptr ==> d.next < |fmt| && fmt[d.next] == 'p'
    ensures d.next == pos ==> d.spec.kind == Ptr || d.spec.kind == Invalid
    ensures d.spec.base == 8 || d.spec.base == 10 || d.spec.base == 16
  {
    var (q, p) := QualifierAt(fmt, pos);
    Conversion(fmt, p, spec.(qualifier := q))
  }

  /** From the precision on. */
  function AfterWidth(fmt: string, pos: nat, spec0: Spec): (d: Decoded)
    requires pos <= |fmt| && spec0.kind == None
    ensures pos <= d.next <= |fmt|
    ensures d.spec.kind != None && d.spec.kind != Width
    ensures d.spec.kind == Ptr ==> d.next < |fmt| && fmt[d.next] == 'p'
    ensures d.next == pos ==> d.spec.kind == Ptr || d.spec.kind == Invalid
    ensures IsInteger(d.spec.kind) ==> d.spec.base == 8 || d.spec.base == 10 || d.spec.base == 16
  {
    var spec := spec0.(precision := -1);
    if CharAt(fmt, pos) != '.' then Qualifier(fmt, pos, spec)
    else if IsDigit(CharAt(fmt, pos + 1)) then
      var e := DigitsEnd(fmt, pos + 1);
      var p := ToS16(Value(fmt[pos + 1..e], 10));
      Qualifier(fmt, e, spec.(precision := if p < 0 then 0 else p))
    else if CharAt(fmt, pos + 1) == '*' then Decoded(pos + 2, spec.(kind := Precision))
    else Qualifier(fmt, pos + 1, spec)
  }

  /** From the width on, after `%` and its flags. */
  function AfterFlags(fmt: string, pos: nat, spec0: Spec): (d: Decoded)
    requires pos <= |fmt| && spec0.kind == None
    ensures pos <= d.next <= |fmt|
    ensures d.spec.kind != None
    ensures d.spec.kind == Ptr ==> d.next < |fmt| && fmt[d.next] == 'p'
    ensures IsInteger(d.spec.kind) ==> d.spec.base == 8 || d.spec.base == 10 || d.spec.base == 16
  {
    var spec := spec0.(width := -1);
    if IsDigit(CharAt(fmt, pos)) then
      var e := DigitsEnd(fmt, pos);
      AfterWidth(fmt, e, spec.(width := ToS16(Value(fmt[pos..e], 10))))
    else if CharAt(fmt, pos) == '*' then Decoded(pos + 1, spec.(kind := Width))
    else AfterWidth(fmt, pos, spec)
  }

  /** The spec with which decoding resumes after a `*` width. */
  function Widened(spec: Spec): Spec {
    var w: int := spec.width;
    var s := spec.(kind := None);
    if w < 0 then s.(width := ToS16(-w), flags := s.flags.(left := true)) else s
  }

  /** The spec with which decoding resumes after a `*` precision. */
  function Clamped(spec: Spec): Spec {
    spec.(kind := None, precision := if spec.precision < 0 then 0 else spec.precision)
  }

  /** One call of format_decode at `pos`, which is not the end of the format. */
  function Decode(fmt: string, pos: nat, spec: Spec): (d: Decoded)
    requires pos < |fmt|
    ensures pos <= d.next <= |fmt|
    ensures d.spec.kind == Ptr ==> d.next < |fmt| && fmt[d.next] == 'p'
    ensures d.next == pos ==> Pending(spec) && (d.spec.kind == Ptr || d.spec.kind == Invalid)
    ensures IsInteger(d.spec.kind) ==> d.spec.base == 8 || d.spec.base == 10 || d.spec.base == 16
  {
    if spec.kind == Width then AfterWidth(fmt, pos, Widened(spec))
    else if spec.kind == Precision then Qualifier(fmt, pos, Clamped(spec))
    else
      var s := spec.(kind := None);
      var e := TextEnd(fmt, pos);
      if e != pos then Decoded(e, s)
      else
        var f := FlagsEnd(fmt, pos + 1);
        AfterFlags(fmt, f, s.(flags := FlagsOf(fmt[pos + 1..f])))
  }

  // ------------------------------------------------------- the decoder itself

  method SkipAtoi(fmt: string, pos: nat) returns (v: nat, e: nat)
    requires pos <= |fmt|
    ensures e == DigitsEnd(fmt, pos) && v == Value(fmt[pos..e], 10)
  {
    v, e := 0, pos;
    while IsDigit(CharAt(fmt, e))
      invariant pos <= e <= |fmt| && DigitsEnd(fmt, e) == DigitsEnd(fmt, pos)
      invariant (forall i | 0 <= i < e - pos :: IsDigit(fmt[pos..e][i])) && v == Value(fmt[pos..e], 10)
      decreases |fmt| - e
    {
      assert fmt[pos..e + 1][..e - pos] == fmt[pos..e];
      v, e := v * 10 + (fmt[e] as int - '0' as int), e + 1;
    }
  }

  method DecodeAfterWidth(fmt: string, pos: nat, spec0: Spec) returns (d: Decoded)
    requires pos <= |fmt| && spec0.kind == None
    ensures d == AfterWidth(fmt, pos, spec0)
  {
    var spec, p := spec0.(precision := -1), pos;
    if CharAt(fmt, p) == '.' {
      p := p + 1;
      if IsDigit(CharAt(fmt, p)) {
        var v;
        v, p := SkipAtoi(fmt, p);
        spec := spec.(precision := ToS16(v));
        if spec.precision < 0 {
          spec := spec.(precision := 0);
        }
      } else if CharAt(fmt, p) == '*' {
        return Decoded(p + 1, spec.(kind := Precision));
      }
    }
    d := Qualifier(fmt, p, spec);
  }

  method SkipText(fmt: string, pos: nat) returns (e: nat)
    requires pos <= |fmt|
    ensures e == TextEnd(fmt, pos)
  {
    e := pos;
    while e < |fmt| && fmt[e] != '%'
      invariant pos <= e <= |fmt| && TextEnd(fmt, e) == TextEnd(fmt, pos)
    {
      e := e + 1;
    }
  }

  /** Resumed after a `*` width. */
  method ResumeAtPrecision(fmt: string, pos: nat, spec0: Spec) returns (d: Decoded)
    requires pos <= |fmt|
    ensures d == AfterWidth(fmt, pos, Widened(spec0))
  {
    hide AfterWidth, ToS16;
    var spec := spec0;
    var w: int := spec.width;
    if w < 0 {
      spec := spec.(width := ToS16(-w), flags := spec.flags.(left := true));
    }
    d := DecodeAfterWidth(fmt, pos, spec.(kind := None));
  }

  /** format_decode. */
  method DecodeFormat(fmt: string, pos: nat, spec0: Spec) returns (d: Decoded)
    requires pos < |fmt|
    ensures d == Decode(fmt, pos, spec0)
  {
    hide AfterFlags, AfterWidth, Qualifier, TextEnd, FlagsEnd, FlagsOf, Widened;
    var spec := spec0;
    if spec.kind == Width {
      d := ResumeAtPrecision(fmt, pos, spec);
    } else if spec.kind == Precision {
      if spec.precision < 0 {
        spec := spec.(precision := 0);
      }
      d := Qualifier(fmt, pos, spec.(kind := None));
    } else {
      spec := spec.(kind := None);
      var p := SkipText(fmt, pos);
      if p != pos {
        d := Decoded(p, spec);
      } else {
        var f;
        spec, f := DecodeFlags(fmt, pos + 1, spec);
        d := DecodeAfterFlags(fmt, f, spec);
      }
    }
  }

  method DecodeAfterFlags(fmt: string, pos: nat, spec0: Spec) returns (d: Decoded)
    requires pos <= |fmt| && spec0.kind == None
    ensures d == AfterFlags(fmt, pos, spec0)
  {
    var spec, p := spec0.(width := -1), pos;
    if IsDigit(CharAt(fmt, p)) {
      var v;
      v, p := SkipAtoi(fmt, p);
      spec := spec.(width := ToS16(v));
    } else if CharAt(fmt, p) == '*' {
      return Decoded(p + 1, spec.(kind := Width));
    }
    d := DecodeAfterWidth(fmt, p, spec);
  }

  method DecodeFlags(fmt: string, pos: nat, spec0: Spec) returns (spec: Spec, f: nat)
    requires pos <= |fmt|
    ensures f == FlagsEnd(fmt, pos) && spec == spec0.(flags := FlagsOf(fmt[pos..f]))
  {
    spec, f := spec0.(flags := NO_FLAGS), pos;
    while IsFlag(CharAt(fmt, f))
      invariant pos <= f <= |fmt| && FlagsEnd(fmt, f) == FlagsEnd(fmt, pos)
      invariant spec == spec0.(flags := FlagsOf(fmt[pos..f]))
      decreases |fmt| - f
    {
      assert fmt[pos..f + 1][..f - pos] == fmt[pos..f];
      spec, f := spec.(flags := AddFlag(spec.flags, fmt[f])), f + 1;
    }
  }

  // ---------------------------------------------- what the decoder depends on

  /** Two specs the decoder cannot tell apart in kind: widths and precisions may differ. */
  predicate Kin(a: Spec, b: Spec) {
    a.kind == b.kind && a.flags.sign == b.flags.sign
  }

  predicate SameToken(a: Decoded, b: Decoded) {
    a.next == b.next && Kin(a.spec, b.spec)
  }

  lemma ConversionKin(fmt: string, pos: nat, a: Spec, b: Spec)
    requires pos <= |fmt| && Kin(a, b) && a.qualifier == b.qualifier
    ensures SameToken(Conversion(fmt, pos, a), Conversion(fmt, pos, b))
  {
  }

  lemma QualifierKin(fmt: string, pos: nat, a: Spec, b: Spec)
    requires pos <= |fmt| && Kin(a, b)
    ensures SameToken(Qualifier(fmt, pos, a), Qualifier(fmt, pos, b))
  {
    var (q, p) := QualifierAt(fmt, pos);
    ConversionKin(fmt, p, a.(qualifier := q), b.(qualifier := q));
  }

  lemma AfterWidthKin(fmt: string, pos: nat, a: Spec, b: Spec)
    requires pos <= |fmt| && Kin(a, b) && a.kind == None
    ensures SameToken(AfterWidth(fmt, pos, a), AfterWidth(fmt, pos, b))
  {
    var a', b' := a.(precision := -1), b.(precision := -1);
    if CharAt(fmt, pos) != '.' {
      QualifierKin(fmt, pos, a', b');
    } else if IsDigit(CharAt(fmt, pos + 1)) {
      var e := DigitsEnd(fmt, pos + 1);
      var p := ToS16(Value(fmt[pos + 1..e], 10));
      var v := if p < 0 then 0 else p;
      QualifierKin(fmt, e, a.(precision := v), b.(precision := v));
    } else {
      QualifierKin(fmt, pos + 1, a', b');
    }
  }

  lemma AfterFlagsKin(fmt: string, pos: nat, a: Spec, b: Spec)
    requires pos <= |fmt| && Kin(a, b) && a.kind == None
    ensures SameToken(AfterFlags(fmt, pos, a), AfterFlags(fmt, pos, b))
  {
    if IsDigit(CharAt(fmt, pos)) {
      var e := DigitsEnd(fmt, pos);
      var w := ToS16(Value(fmt[pos..e], 10));
      AfterWidthKin(fmt, e, a.(width := w), b.(width := w));
    } else {
      AfterWidthKin(fmt, pos, a.(width := -1), b.(width := -1));
    }
  }

  /** The kind of a token and the characters it takes do not depend on the values that
      `*` widths and precisions were given. */
  lemma DecodeKin(fmt: string, pos: nat, a: Spec, b: Spec)
    requires pos < |fmt| && Kin(a, b)
    ensures SameToken(Decode(fmt, pos, a), Decode(fmt, pos, b))
  {
    if a.kind == Precision {
      QualifierKin(fmt, pos, Clamped(a), Clamped(b));
    } else if a.kind == Width {
      AfterWidthKin(fmt, pos, Widened(a), Widened(b));
    } else if TextEnd(fmt, pos) == pos {
      var f := FlagsEnd(fmt, pos + 1);
      var flags := FlagsOf(fmt[pos + 1..f]);
      AfterFlagsKin(fmt, f, a.(kind := None, flags := flags), b.(kind := None, flags := flags));
    }
  }
}
