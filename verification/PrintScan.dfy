/** Scanning what was printed: for integer conversions separated by spaces, vsscanf undoes vsnprintf. */
module PrintScan {
  import opened CType
  import opened FormatDecode
  import opened Digits
  import opened PrintfText
  import opened Printf
  import opened Strto
  import Scanf

  /** An integer conversion with one of the lengths "", hh, h, l, ll. */
  datatype Dir = Dir(length: nat, c: char)

  predicate Valid(d: Dir) {
    d.length <= 4 && Scanf.IsIntegerChar(d.c)
  }

  function LengthText(n: nat): string {
    if n == 1 then "hh" else if n == 2 then "h" else if n == 3 then "l" else if n == 4 then "ll" else ""
  }

  function LengthChar(n: nat): char {
    if n == 1 then 'H' else if n == 2 then 'h' else if n == 3 then 'l' else if n == 4 then 'L' else NO_QUALIFIER
  }

  function DirText(d: Dir): string {
    ['%'] + LengthText(d.length) + [d.c]
  }

  predicate IsSigned(d: Dir) {
    d.c == 'd' || d.c == 'i'
  }

  /** The C integer that a slot holds for a conversion. */
  function Meant(d: Dir, bits: u64): int {
    var m := Scanf.Modulus(Scanf.StoreSize(LengthChar(d.length)));
    if IsSigned(d) then Signed(bits, m) else bits % m
  }

  function PrintBase(d: Dir): (b: nat)
    ensures IsBase(b)
  {
    if d.c == 'o' then 8 else if d.c == 'x' || d.c == 'X' then 16 else 10
  }

  function Abs(v: int): nat {
    if v < 0 then -v else v
  }

  /** A sign and a numeral. */
  function IntText(v: int, base: nat, small: bool): (s: string)
    requires IsBase(base)
    ensures |s| >= 1
  {
    (if v < 0 then "-" else "") + Numeral(Abs(v), base, small)
  }

  function Printed(d: Dir, bits: u64): (s: string)
    ensures |s| >= 1
  {
    IntText(Meant(d, bits), PrintBase(d), d.c == 'x')
  }

  function DirSpec(d: Dir): Spec {
    Spec(IntegerKind(LengthChar(d.length), IsSigned(d)),
         NO_FLAGS.(sign := IsSigned(d), small := d.c == 'x'), PrintBase(d), LengthChar(d.length), -1, -1)
  }

  // ------------------------------------------------------- one directive, printed

  lemma QualifierReads(fmt: string, pos: nat, d: Dir)
    requires Valid(d) && pos <= |fmt| && LengthText(d.length) + [d.c] <= fmt[pos..]
    ensures QualifierAt(fmt, pos) == (LengthChar(d.length), pos + |LengthText(d.length)|)
    ensures CharAt(fmt, pos + |LengthText(d.length)|) == d.c
    ensures !IsFlag(CharAt(fmt, pos)) && !IsDigit(CharAt(fmt, pos)) && CharAt(fmt, pos) != '*' && CharAt(fmt, pos) != '.'
  {
    var t := LengthText(d.length) + [d.c];
    assert forall i | 0 <= i < |t| :: fmt[pos + i] == fmt[pos..][i] == t[i];
    assert fmt[pos] == t[0];
    if |t| > 1 {
      assert fmt[pos + 1] == t[1];
    }
    if |t| > 2 {
      assert fmt[pos + 2] == t[2];
    }
  }

  lemma DirDecodes(fmt: string, pos: nat, spec: Spec, d: Dir)
    requires Valid(d) && pos < |fmt| && !Pending(spec) && DirText(d) <= fmt[pos..]
    ensures Decode(fmt, pos, spec) == Decoded(pos + |DirText(d)|, DirSpec(d))
  {
    var t := LengthText(d.length) + [d.c];
    assert DirText(d) == ['%'] + t;
    assert fmt[pos] == fmt[pos..][0] == DirText(d)[0];
    assert fmt[pos + 1..][..|t|] == t by {
      assert fmt[pos + 1..] == fmt[pos..][1..];
    }
    QualifierReads(fmt, pos + 1, d);
    LengthDecodes(fmt, pos + 1, spec.(kind := None, flags := NO_FLAGS, width := -1, precision := -1), d);
    assert TextEnd(fmt, pos) == pos && FlagsEnd(fmt, pos + 1) == pos + 1;
    assert fmt[pos + 1..pos + 1] == [];
    hide Qualifier;
  }

  lemma LengthDecodes(fmt: string, pos: nat, spec: Spec, d: Dir)
    requires Valid(d) && pos <= |fmt| && LengthText(d.length) + [d.c] <= fmt[pos..]
    requires spec.flags == NO_FLAGS && spec.width == spec.precision == -1
    ensures Qualifier(fmt, pos, spec) == Decoded(pos + |LengthText(d.length)| + 1, DirSpec(d))
  {
    QualifierReads(fmt, pos, d);
    hide QualifierAt, IntegerKind;
  }

  lemma MeantRange(d: Dir, bits: u64)
    requires Valid(d)
    ensures if IsSigned(d) then 0 - SIGN_BIT <= Meant(d, bits) < SIGN_BIT else 0 <= Meant(d, bits) < TWO64
  {
  }

  lemma CastIsMeant(d: Dir, bits: u64)
    requires Valid(d)
    ensures Cast(DirSpec(d).kind, bits) == ToU64(Meant(d, bits))
  {
    var q := LengthChar(d.length);
    if q == 'H' {
    } else if q == 'h' {
    } else if q == NO_QUALIFIER {
    }
  }

  /** A number with no width, precision or prefix prints as its sign and numeral. */
  lemma PrintsInt(v: int, spec: Spec)
    requires IsBase(spec.base) && spec.width == spec.precision == -1
    requires spec.flags == NO_FLAGS.(sign := spec.flags.sign, small := spec.flags.small)
    requires if spec.flags.sign then 0 - SIGN_BIT <= v < SIGN_BIT else 0 <= v < TWO64
    ensures NumberText(ToU64(v), spec) == IntText(v, spec.base, spec.flags.small)
  {
    var num := ToU64(v);
    assert num == if v < 0 then v + TWO64 else v;
    assert Magnitude(num, spec.flags) == Abs(v);
    hide NumberText, Numeral;
    UnpaddedNumber(num, spec);
    assert SignText(num, spec.flags) + "" == SignText(num, spec.flags);
  }

  lemma PrintsMeant(d: Dir, bits: u64)
    requires Valid(d)
    ensures IsBase(DirSpec(d).base) && NumberText(Cast(DirSpec(d).kind, bits), DirSpec(d)) == Printed(d, bits)
  {
    CastIsMeant(d, bits);
    MeantRange(d, bits);
    PrintsInt(Meant(d, bits), DirSpec(d));
  }

  // ------------------------------------------------------- one directive, scanned

  /** What comes after a printed integer. */
  predicate Delimited(s: string, e: nat) {
    e <= |s| && (e == |s| || s[e] == ' ')
  }

  lemma SignAndDigits(v: int, base: nat, small: bool)
    requires IsBase(base)
    ensures var s, n := IntText(v, base, small), Numeral(Abs(v), base, small);
            Scanf.Convertible(n[0], base) && !IsSpace(s[0]) && s[0] != NUL && n[0] != '-'
  {
    NumeralValue(Abs(v), base, small);
  }

  /** The sign and the numeral of a printed integer, found at i. */
  lemma FindDigits(buf: string, i: nat, v: int, base: nat, small: bool)
    requires IsBase(base) && i <= |buf| && IntText(v, base, small) <= buf[i..]
    ensures var n := Numeral(Abs(v), base, small);
            var p := if v < 0 then i + 1 else i;
            && p + |n| == i + |IntText(v, base, small)| <= |buf| && buf[p..p + |n|] == n && buf[p] == n[0]
            && (v < 0 <==> buf[i] == '-') && Scanf.SpacesEnd(buf, i) == i
  {
    hide Numeral, IsSpace;
    var n := Numeral(Abs(v), base, small);
    SignAndDigits(v, base, small);
    FoundAt(buf, i, if v < 0 then "-" else "", n);
    assert IntText(v, base, small)[0] == if v < 0 then '-' else n[0];
  }

  /** The second of two strings found in a row. */
  lemma FoundAt(buf: string, i: nat, a: string, b: string)
    requires i <= |buf| && a + b <= buf[i..] && |b| > 0
    ensures var p := i + |a|;
            p + |b| <= |buf| && buf[p..p + |b|] == b && buf[p] == b[0] && buf[i] == (a + b)[0]
  {
    var p := i + |a|;
    assert buf[i..][..|a + b|] == a + b;
    assert buf[p..p + |b|] == buf[i..][..|a + b|][|a|..] == b;
    assert buf[p] == buf[p..p + |b|][0];
    assert buf[i] == buf[i..][0];
  }

  /** A printed integer reads back, modulo 2^64, with its own base or the one guessed from it. */
  lemma ParsesInt(buf: string, i: nat, v: int, base: nat, small: bool, asked: nat)
    requires IsBase(base) && (asked == base || (asked == 0 && base == 10)) && 0 - SIGN_BIT <= v < TWO64
    requires i <= |buf| && IntText(v, base, small) <= buf[i..] && Delimited(buf, i + |IntText(v, base, small)|)
    ensures ParseSigned(buf, i, asked) == Parsed(ToU64(v), i + |IntText(v, base, small)|)
    ensures v >= 0 ==> ParseUnsigned(buf, i, asked) == Parsed(ToU64(v), i + |IntText(v, base, small)|)
  {
    hide ParseUnsigned, Numeral;
    FindDigits(buf, i, v, base, small);
    var e := i + |IntText(v, base, small)|;
    assert Ends(CharAt(buf, e));
    if v < 0 {
      NumeralReads(buf, i + 1, Abs(v), base, small, asked);
      assert ParseUnsigned(buf, i + 1, asked) == Parsed(Abs(v), e);
    } else {
      NumeralReads(buf, i, v, base, small, asked);
      assert ParseUnsigned(buf, i, asked) == Parsed(v, e);
    }
  }

  lemma ScansMeant(buf: string, i: nat, d: Dir, bits: u64)
    requires Valid(d) && i <= |buf| && Printed(d, bits) <= buf[i..] && Delimited(buf, i + |Printed(d, bits)|)
    ensures Scanf.ConvertInteger(buf, i, LengthChar(d.length), Scanf.BaseOf(d.c), IsSigned(d))
         == Scanf.Converted(Scanf.Number(Scanf.StoreSize(LengthChar(d.length)), Meant(d, bits)), i + |Printed(d, bits)|)
  {
    hide Meant, IntText, Numeral, ParseSigned, ParseUnsigned, Signed, Scanf.SpacesEnd, Scanf.Modulus;
    var v := Meant(d, bits);
    MeantRange(d, bits);
    SignAndDigits(v, PrintBase(d), d.c == 'x');
    FindDigits(buf, i, v, PrintBase(d), d.c == 'x');
    ParsesInt(buf, i, v, PrintBase(d), d.c == 'x', Scanf.BaseOf(d.c));
    Narrowed(d, bits);
    assert v >= 0 ==> ToU64(v) == v;
  }

  /** Storing the 64-bit value read back in the conversion's own width restores the integer. */
  lemma Narrowed(d: Dir, bits: u64)
    requires Valid(d)
    ensures var m := Scanf.Modulus(Scanf.StoreSize(LengthChar(d.length)));
            var v := Meant(d, bits);
            if IsSigned(d) then Signed(ToU64(v), m) == v else v >= 0 && v % m == v
  {
    hide Signed;
    var m := Scanf.Modulus(Scanf.StoreSize(LengthChar(d.length)));
    if IsSigned(d) {
      SignedStays(Meant(d, bits), m);
    }
  }

  lemma SignedStays(v: int, m: nat)
    requires m == TWO8 || m == TWO16 || m == TWO32 || m == TWO64
    requires -(m / 2) <= v < m / 2
    ensures Signed(ToU64(v), m) == v
  {
    var u: int := ToU64(v);
    if v >= 0 {
      assert u == v;
    } else {
      assert u == v + TWO64;
      assert TWO64 % m == 0;
      if m == TWO8 {
        assert u % 0x100 == v + 0x100;
      } else if m == TWO16 {
        assert u % 0x1_0000 == v + 0x1_0000;
      } else if m == TWO32 {
        assert u % 0x1_0000_0000 == v + 0x1_0000_0000;
      }
    }
  }

  // ------------------------------------------------------------- whole formats

  /** The directives separated by single spaces. */
  function FormatOf(ds: seq<Dir>): string {
    if ds == [] then ""
    else if |ds| == 1 then DirText(ds[0])
    else DirText(ds[0]) + ([' '] + FormatOf(ds[1..]))
  }

  function TextOf(ds: seq<Dir>, slots: seq<u64>): string
    requires |slots| == |ds|
  {
    if ds == [] then ""
    else if |ds| == 1 then Printed(ds[0], slots[0])
    else Printed(ds[0], slots[0]) + ([' '] + TextOf(ds[1..], slots[1..]))
  }

  /** What a scan stores for a directive: the integer in its own width. */
  function Out(d: Dir, bits: u64): Scanf.Stored {
    Scanf.Number(Scanf.StoreSize(LengthChar(d.length)), Meant(d, bits))
  }

  /** What it stores for all of them. */
  function Outs(ds: seq<Dir>, slots: seq<u64>): (r: seq<Scanf.Stored>)
    requires |slots| == |ds|
    ensures |r| == |ds|
  {
    if ds == [] then [] else [Out(ds[0], slots[0])] + Outs(ds[1..], slots[1..])
  }

  lemma {:induction false} OutsAt(ds: seq<Dir>, slots: seq<u64>, i: nat)
    requires |slots| == |ds| && i < |ds|
    ensures Outs(ds, slots)[i] == Out(ds[i], slots[i])
    decreases |ds|
  {
    hide Out;
    if i > 0 {
      OutsAt(ds[1..], slots[1..], i - 1);
    }
  }

  predicate AllValid(ds: seq<Dir>) {
    forall i | 0 <= i < |ds| :: Valid(ds[i])
  }

  lemma FormatStarts(ds: seq<Dir>)
    requires ds != []
    ensures |FormatOf(ds)| > 0 && DirText(ds[0]) <= FormatOf(ds) && FormatOf(ds)[0] == '%'
  {
  }

  /** A space before a directive is a text token of its own. */
  lemma SpaceDecodes(fmt: string, pos: nat, spec: Spec)
    requires pos + 1 < |fmt| && fmt[pos] == ' ' && fmt[pos + 1] == '%' && !Pending(spec)
    ensures Decode(fmt, pos, spec) == Decoded(pos + 1, spec.(kind := None))
  {
    assert TextEnd(fmt, pos + 1) == pos + 1;
  }

  /** One directive rendered. */
  lemma DirRenders(fmt: string, pos: nat, spec: Spec, args: seq<Arg>, k: nat, ext: Ext, d: Dir)
    requires Valid(d) && pos < |fmt| && !Pending(spec) && DirText(d) <= fmt[pos..]
    ensures Render(fmt, pos, spec, args, k, ext)
         == Printed(d, Slot(args, k)) + Render(fmt, pos + |DirText(d)|, DirSpec(d), args, k + 1, ext)
  {
    hide Decode, Render, TokenText, NumberText, Printed, Cast;
    DirDecodes(fmt, pos, spec, d);
    PrintsMeant(d, Slot(args, k));
    RenderStep(fmt, pos, spec, args, k, ext);
    var t := Decoded(pos + |DirText(d)|, DirSpec(d));
    IntegerToken(fmt, pos, t, ArgValue(DirSpec(d).kind, args, k), ext);
  }

  lemma SpaceRenders(fmt: string, pos: nat, spec: Spec, args: seq<Arg>, k: nat, ext: Ext)
    requires pos + 1 < |fmt| && fmt[pos] == ' ' && fmt[pos + 1] == '%' && !Pending(spec)
    ensures Render(fmt, pos, spec, args, k, ext)
         == [' '] + Render(fmt, pos + 1, spec.(kind := None), args, k, ext)
  {
    hide Decode, Render, NumberText, StringText, CharText, PointerText;
    SpaceDecodes(fmt, pos, spec);
    RenderStep(fmt, pos, spec, args, k, ext);
    assert fmt[pos..pos + 1] == [' '];
  }

  /** What follows the first of several directives. */
  lemma FormatRest(fmt: string, pos: nat, ds: seq<Dir>)
    requires |ds| >= 2 && pos <= |fmt| && fmt[pos..] == FormatOf(ds)
    ensures var p := pos + |DirText(ds[0])|;
            p + 1 < |fmt| && fmt[p] == ' ' && fmt[p + 1] == '%' && fmt[p + 1..] == FormatOf(ds[1..])
  {
    var p := pos + |DirText(ds[0])|;
    assert fmt[p..] == fmt[pos..][|DirText(ds[0])|..] == [' '] + FormatOf(ds[1..]);
    FormatStarts(ds[1..]);
    assert fmt[p] == fmt[p..][0] && fmt[p + 1] == fmt[p..][1];
    assert fmt[p + 1..] == fmt[p..][1..];
  }

  /** The arguments from k on are the slots. */
  predicate SlotsFrom(args: seq<Arg>, k: nat, slots: seq<u64>) {
    forall i | 0 <= i < |slots| :: Slot(args, k + i) == slots[i]
  }

  lemma FirstSlot(args: seq<Arg>, k: nat, slots: seq<u64>)
    requires slots != [] && SlotsFrom(args, k, slots)
    ensures Slot(args, k) == slots[0]
  {
    assert Slot(args, k + 0) == slots[0];
  }

  lemma SlotsShift(args: seq<Arg>, k: nat, slots: seq<u64>)
    requires slots != [] && SlotsFrom(args, k, slots)
    ensures SlotsFrom(args, k + 1, slots[1..])
  {
    forall i | 0 <= i < |slots[1..]| ensures Slot(args, k + 1 + i) == slots[1..][i] {
      assert Slot(args, k + (i + 1)) == slots[i + 1];
    }
  }

  lemma {:induction false} FormatRenders(fmt: string, pos: nat, spec: Spec, args: seq<Arg>, k: nat, ext: Ext,
                                         ds: seq<Dir>, slots: seq<u64>)
    requires AllValid(ds) && |slots| == |ds| && pos <= |fmt| && !Pending(spec) && fmt[pos..] == FormatOf(ds)
    requires SlotsFrom(args, k, slots)
    ensures Render(fmt, pos, spec, args, k, ext) == TextOf(ds, slots)
    decreases |ds|
  {
    hide Render, Decode, DirText, Printed, SlotsFrom, Slot;
    RenderEnd(fmt, spec, args, k, ext);
    if ds != [] {
      FormatStarts(ds);
      assert |fmt[pos..]| > 0;
      var d := ds[0];
      DirRenders(fmt, pos, spec, args, k, ext, d);
      FirstSlot(args, k, slots);
      var p := pos + |DirText(d)|;
      if |ds| == 1 {
        assert |fmt[pos..]| == |DirText(d)|;
        RenderEnd(fmt, DirSpec(d), args, k + 1, ext);
        assert Printed(d, slots[0]) + "" == Printed(d, slots[0]);
      } else {
        FormatRest(fmt, pos, ds);
        SpaceRenders(fmt, p, DirSpec(d), args, k + 1, ext);
        SlotsShift(args, k, slots);
        FormatRenders(fmt, p + 1, DirSpec(d).(kind := None), args, k + 1, ext, ds[1..], slots[1..]);
      }
    }
  }

  /** The conversion of one directive, scanned. */
  lemma DirScans(buf: string, fmt: string, i: nat, j: nat, d: Dir, bits: u64)
    requires Valid(d) && j < |fmt| && DirText(d) <= fmt[j..]
    requires i < |buf| && Printed(d, bits) <= buf[i..] && Delimited(buf, i + |Printed(d, bits)|)
    ensures Scanf.DirectiveAt(buf, fmt, i, j + 1)
         == Scanf.Go(i + |Printed(d, bits)|, j + |DirText(d)|,
                     [Out(d, bits)])
  {
    hide Printed, Meant, Scanf.ConvertInteger, QualifierAt;
    var t := LengthText(d.length) + [d.c];
    assert DirText(d) == ['%'] + t;
    assert fmt[j + 1..] == fmt[j..][1..];
    assert t <= fmt[j + 1..];
    QualifierReads(fmt, j + 1, d);
    ScansMeant(buf, i, d, bits);
    assert CharAt(fmt, j + 1) == t[0] != 't';
    assert DigitsEnd(fmt, j + 1) == j + 1;
  }

  lemma TextStarts(ds: seq<Dir>, slots: seq<u64>)
    requires ds != [] && |slots| == |ds| && AllValid(ds)
    ensures |TextOf(ds, slots)| > 0 && Printed(ds[0], slots[0]) <= TextOf(ds, slots)
    ensures !IsSpace(TextOf(ds, slots)[0])
  {
    SignAndDigits(Meant(ds[0], slots[0]), PrintBase(ds[0]), ds[0].c == 'x');
  }

  /** What follows the first of several printed integers. */
  lemma TextRest(buf: string, i: nat, ds: seq<Dir>, slots: seq<u64>)
    requires ds != [] && |slots| == |ds| && AllValid(ds) && i <= |buf| && buf[i..] == TextOf(ds, slots)
    ensures var p := i + |Printed(ds[0], slots[0])|;
            && Delimited(buf, p) && (|ds| == 1 ==> p == |buf|)
            && (|ds| >= 2 ==> p + 1 < |buf| && buf[p] == ' ' && !IsSpace(buf[p + 1]) && buf[p + 1..] == TextOf(ds[1..], slots[1..]))
  {
    hide Printed;
    var n := |Printed(ds[0], slots[0])|;
    var p := i + n;
    if |ds| == 1 {
      assert |buf[i..]| == n;
    } else {
      assert buf[p..] == buf[i..][n..] == [' '] + TextOf(ds[1..], slots[1..]);
      TextStarts(ds[1..], slots[1..]);
      assert buf[p] == buf[p..][0] && buf[p + 1] == buf[p..][1];
      assert buf[p + 1..] == buf[p..][1..];
    }
  }

  /** Where the turn of the loop finds its directive: past one space, or right there. */
  predicate Lined(s: string, i: nat, spaced: bool, rest: string) {
    if spaced then i + 1 < |s| && s[i] == ' ' && s[i + 1..] == rest else i < |s| && s[i..] == rest
  }

  lemma TurnScans(buf: string, fmt: string, i: nat, j: nat, spaced: bool, ds: seq<Dir>, slots: seq<u64>)
    requires ds != [] && AllValid(ds) && |slots| == |ds|
    requires Lined(buf, i, spaced, TextOf(ds, slots)) && Lined(fmt, j, spaced, FormatOf(ds))
    ensures var skip := if spaced then 1 else 0;
            Scanf.TurnAt(buf, fmt, i, j)
            == Scanf.Go(i + skip + |Printed(ds[0], slots[0])|, j + skip + |DirText(ds[0])|, [Out(ds[0], slots[0])])
  {
    hide Scanf.DirectiveAt, Printed, DirText, Meant;
    var i', j' := if spaced then i + 1 else i, if spaced then j + 1 else j;
    FormatStarts(ds);
    TextStarts(ds, slots);
    TextRest(buf, i', ds, slots);
    assert fmt[j'] == fmt[j'..][0] == '%' && buf[i'] == buf[i'..][0];
    assert spaced ==> Scanf.SpacesEnd(fmt, j + 1) == j + 1 && Scanf.SpacesEnd(buf, i) == i + 1;
    DirScans(buf, fmt, i', j', ds[0], slots[0]);
  }

  lemma ScanEnd(buf: string, fmt: string, i: nat)
    ensures Scanf.Scan(buf, fmt, i, |fmt|) == []
  {
  }

  lemma {:induction false} FormatScans(buf: string, fmt: string, i: nat, j: nat, spaced: bool, ds: seq<Dir>, slots: seq<u64>)
    requires ds != [] && AllValid(ds) && |slots| == |ds|
    requires Lined(buf, i, spaced, TextOf(ds, slots)) && Lined(fmt, j, spaced, FormatOf(ds))
    ensures Scanf.Scan(buf, fmt, i, j) == Outs(ds, slots)
    decreases |ds|
  {
    hide Scanf.Scan, Scanf.TurnAt, Printed, DirText, Out, Outs, TextOf, FormatOf, Lined;
    LinedBegins(buf, i, spaced, TextOf(ds, slots));
    LinedBegins(fmt, j, spaced, FormatOf(ds));
    TurnScans(buf, fmt, i, j, spaced, ds, slots);
    OutsCons(ds, slots);
    Scanf.ScanStep(buf, fmt, i, j);
    var skip := if spaced then 1 else 0;
    var p, q := i + skip + |Printed(ds[0], slots[0])|, j + skip + |DirText(ds[0])|;
    RestLined(buf, fmt, i, j, spaced, ds, slots);
    if |ds| == 1 {
      ScanEnd(buf, fmt, p);
    } else {
      FormatScans(buf, fmt, p, q, true, ds[1..], slots[1..]);
    }
  }

  lemma LinedBegins(s: string, i: nat, spaced: bool, rest: string)
    requires Lined(s, i, spaced, rest)
    ensures i < |s|
  {
  }

  lemma OutsCons(ds: seq<Dir>, slots: seq<u64>)
    requires ds != [] && |slots| == |ds|
    ensures Outs(ds, slots) == [Out(ds[0], slots[0])] + (if |ds| == 1 then [] else Outs(ds[1..], slots[1..]))
  {
  }

  /** After one directive comes the space before the next, or the end of the format. */
  lemma RestLined(buf: string, fmt: string, i: nat, j: nat, spaced: bool, ds: seq<Dir>, slots: seq<u64>)
    requires ds != [] && AllValid(ds) && |slots| == |ds|
    requires Lined(buf, i, spaced, TextOf(ds, slots)) && Lined(fmt, j, spaced, FormatOf(ds))
    ensures var skip := if spaced then 1 else 0;
            var p, q := i + skip + |Printed(ds[0], slots[0])|, j + skip + |DirText(ds[0])|;
            if |ds| == 1 then q == |fmt|
            else Lined(buf, p, true, TextOf(ds[1..], slots[1..])) && Lined(fmt, q, true, FormatOf(ds[1..]))
  {
    hide Printed, DirText, TextOf;
    var i', j' := if spaced then i + 1 else i, if spaced then j + 1 else j;
    TextRest(buf, i', ds, slots);
    if |ds| == 1 {
      assert |fmt[j'..]| == |DirText(ds[0])|;
    } else {
      FormatRest(fmt, j', ds);
    }
  }

  /** The arguments as variadic slots. */
  function ArgsOf(slots: seq<u64>): (args: seq<Arg>)
    ensures |args| == |slots| && forall i | 0 <= i < |slots| :: args[i] == Printf.Word(slots[i])
  {
    seq(|slots|, i requires 0 <= i < |slots| => Printf.Word(slots[i]))
  }

  /** Scanning with the format what the format printed stores every argument again, in the
      width and signedness of its conversion, whatever the bits of the arguments. */
  lemma ScanUndoesPrint(ds: seq<Dir>, slots: seq<u64>, ext: Ext)
    requires AllValid(ds) && |slots| == |ds|
    ensures var fmt := FormatOf(ds);
            Scanf.Scan(Formatted(fmt, ArgsOf(slots), ext), fmt, 0, 0) == Outs(ds, slots)
  {
    hide Scanf.Scan, Render, FormatOf, TextOf;
    var fmt, args := FormatOf(ds), ArgsOf(slots);
    assert fmt[0..] == fmt;
    FormatRenders(fmt, 0, ZERO_SPEC, args, 0, ext, ds, slots);
    var text := TextOf(ds, slots);
    if ds == [] {
      assert fmt == "" by { EmptyFormat(); }
      ScanEnd(text, fmt, 0);
    } else {
      FormatStarts(ds);
      TextStarts(ds, slots);
      assert text[0..] == text;
      FormatScans(text, fmt, 0, 0, false, ds, slots);
    }
  }

  lemma EmptyFormat()
    ensures FormatOf([]) == ""
  {
  }

  lemma {:induction false} FormatIsCString(ds: seq<Dir>)
    requires AllValid(ds)
    ensures forall i | 0 <= i < |FormatOf(ds)| :: 0 < FormatOf(ds)[i] as int < 256
    decreases |ds|
  {
    if ds != [] {
      FormatIsCString(ds[1..]);
    }
  }

  lemma {:induction false} NumeralIsText(n: nat, base: nat, small: bool)
    requires IsBase(base)
    ensures forall i | 0 <= i < |Numeral(n, base, small)| :: 0 < Numeral(n, base, small)[i] as int < 256
  {
    NumeralValue(n, base, small);
  }

  lemma {:induction false} TextIsCString(ds: seq<Dir>, slots: seq<u64>)
    requires AllValid(ds) && |slots| == |ds|
    ensures forall i | 0 <= i < |TextOf(ds, slots)| :: 0 < TextOf(ds, slots)[i] as int < 256
    decreases |ds|
  {
    hide Numeral, Meant;
    if ds != [] {
      TextIsCString(ds[1..], slots[1..]);
      NumeralIsText(Abs(Meant(ds[0], slots[0])), PrintBase(ds[0]), ds[0].c == 'x');
    }
  }

  /** vsnprintf into a buffer with room, then vsscanf on the C string in it. */
  method PrintThenScan(ds: seq<Dir>, slots: seq<u64>, size: nat, ext: Ext)
    returns (num: nat, outs: seq<Scanf.Stored>)
    requires AllValid(ds) && |slots| == |ds|
    requires |TextOf(ds, slots)| < size <= INT_MAX
    ensures num == |ds| && outs == Outs(ds, slots)
  {
    hide Scanf.Scan, Render, FormatOf, TextOf;
    FormatIsCString(ds);
    var fmt: cstring := FormatOf(ds);
    var buf := new char[size];
    var ret := Vsnprintf(buf, size, fmt, ArgsOf(slots), ext);
    assert fmt[0..] == fmt;
    FormatRenders(fmt, 0, ZERO_SPEC, ArgsOf(slots), 0, ext, ds, slots);
    assert buf[..ret] == TextOf(ds, slots);
    ScanUndoesPrint(ds, slots, ext);
    TextIsCString(ds, slots);
    num, outs := Scanf.Vsscanf(buf[..ret], fmt);
    forall i | 0 <= i < |outs| ensures outs[i].Number? {
      OutsAt(ds, slots, i);
    }
    AllCounted(outs);
  }

  lemma {:induction false} AllCounted(outs: seq<Scanf.Stored>)
    requires forall i | 0 <= i < |outs| :: outs[i].Number?
    ensures Scanf.Conversions(outs) == |outs|
  {
    if outs != [] {
      AllCounted(outs[..|outs| - 1]);
    }
  }
}
