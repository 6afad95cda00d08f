/** The text of one conversion, and how a bounded buffer receives text. */
module PrintfText {
  import opened CType
  import opened FormatDecode
  import opened Digits

  // ---------------------------------------- padding loops over a 16-bit width

  /** A padding loop ran n times and left the width w. */
  datatype Pad = Pad(n: nat, w: s16)

  /** `while (--w >= 0)`; the smallest width wraps around to the largest. */
  function PadDown(w: s16): Pad {
    if w >= 1 then Pad(w, -1) else if w == -0x8000 then Pad(0x8000, -1) else Pad(0, w - 1)
  }

  /** `while (--w > 0)`. */
  function PadAbove(w: s16): Pad {
    if w >= 1 then Pad(w - 1, 0) else if w == -0x8000 then Pad(0x7fff, 0) else Pad(0, w - 1)
  }

  /** `while (len < w--)`. */
  function PadTo(len: nat, w: s16): Pad {
    if w > len then Pad(w - len, len - 1) else if w == -0x8000 then Pad(0, 0x7fff) else Pad(0, w - 1)
  }

  function PadIf(b: bool, p: Pad, w: s16): Pad {
    if b then p else Pad(0, w)
  }

  // -------------------------------------------------------------------- texts

  const SIGN_BIT: nat := 0x8000_0000_0000_0000

  predicate Negative(num: u64, flags: Flags) {
    flags.sign && num >= SIGN_BIT
  }

  function Magnitude(num: u64, flags: Flags): u64 {
    if Negative(num, flags) then TWO64 - num else num
  }

  function SignText(num: u64, flags: Flags): string {
    if !flags.sign then ""
    else if num >= SIGN_BIT then "-"
    else if flags.plus then "+"
    else if flags.space then " "
    else ""
  }

  function PrefixText(spec: Spec): string {
    if !spec.flags.special || spec.base == 10 then ""
    else if spec.base == 16 then if spec.flags.small then "0x" else "0X"
    else "0"
  }

  /** Digits with the zeros that a precision adds. */
  function ZeroPadded(digits: string, precision: s16): (s: string)
    ensures |s| == if |digits| > precision then |digits| else precision
  {
    Fill('0', if |digits| > precision then 0 else precision - |digits|) + digits
  }

  function Body(num: u64, spec: Spec): string
    requires IsBase(spec.base)
  {
    ZeroPadded(Numeral(Magnitude(num, spec.flags), spec.base, spec.flags.small), spec.precision)
  }

  /** The width left for padding, as 16-bit arithmetic leaves it. */
  function Slack(num: u64, spec: Spec): int
    requires IsBase(spec.base)
  {
    spec.width - |SignText(num, spec.flags)| - |PrefixText(spec)| - |Body(num, spec)|
  }

  /** The emission order of number(), and how its padding loops use up the width. */
  function Assemble(sign: string, prefix: string, body: string, f: Flags, w: s16): string {
    var zeropad := f.zeropad && !f.left;
    var lead := PadIf(!zeropad && !f.left, PadDown(w), w);
    var mid := PadIf(!f.left, PadDown(lead.w), lead.w);
    var trail := PadDown(mid.w);
    Fill(' ', lead.n) + sign + prefix + Fill(if zeropad then '0' else ' ', mid.n) + body + Fill(' ', trail.n)
  }

  /** number(). */
  function NumberText(num: u64, spec: Spec): string
    requires IsBase(spec.base)
  {
    Assemble(SignText(num, spec.flags), PrefixText(spec), Body(num, spec), spec.flags, ToS16(Slack(num, spec)))
  }

  function StringLength(s: string, precision: s16): nat {
    if precision < 0 || |s| <= precision then |s| else precision
  }

  /** string(). */
  function StringText(s: string, spec: Spec): string {
    var len := StringLength(s, spec.precision);
    var lead := PadIf(!spec.flags.left, PadTo(len, spec.width), spec.width);
    var trail := PadTo(len, lead.w);
    Fill(' ', lead.n) + s[..len] + Fill(' ', trail.n)
  }

  function CharText(c: char, spec: Spec): string {
    var lead := PadIf(!spec.flags.left, PadAbove(spec.width), spec.width);
    var trail := PadAbove(lead.w);
    Fill(' ', lead.n) + [c] + Fill(' ', trail.n)
  }

  // ---------------------------------------------------------------- the layout

  /** How many padding loops number() runs. */
  function Loops(f: Flags): nat {
    if f.left then 1 else if f.zeropad then 2 else 3
  }

  function Max(a: int, b: int): int {
    if a < b then b else a
  }

  /** Spaces, sign, prefix, zeros, digits, spaces, in that order, with n of padding on one side only. */
  function Placed(sign: string, prefix: string, body: string, f: Flags, n: nat): string {
    if f.left then sign + prefix + body + Fill(' ', n)
    else if f.zeropad then sign + prefix + Fill('0', n) + body
    else Fill(' ', n) + sign + prefix + body
  }

  /** What number() is meant to print. */
  function Layout(num: u64, spec: Spec): string
    requires IsBase(spec.base)
  {
    Placed(SignText(num, spec.flags), PrefixText(spec), Body(num, spec), spec.flags, Max(0, Slack(num, spec)))
  }

  /** 16-bit width arithmetic did no harm: either nothing wrapped, or it wrapped all the way to no padding. */
  predicate NoWrap(num: u64, spec: Spec)
    requires IsBase(spec.base)
  {
    Slack(num, spec) >= -0x8000 + Loops(spec.flags) || Slack(num, spec) <= -0x10000
  }

  lemma AssembleIsPlaced(sign: string, prefix: string, body: string, f: Flags, w: s16)
    requires w >= -0x8000 + Loops(f)
    ensures Assemble(sign, prefix, body, f, w) == Placed(sign, prefix, body, f, Max(0, w))
  {
    var n := Max(0, w);
    if f.left {
      assert Assemble(sign, prefix, body, f, w) == Fill(' ', 0) + sign + prefix + Fill(' ', 0) + body + Fill(' ', n);
    } else if f.zeropad {
      assert Assemble(sign, prefix, body, f, w) == Fill(' ', 0) + sign + prefix + Fill('0', n) + body + Fill(' ', 0);
    } else {
      assert Assemble(sign, prefix, body, f, w) == Fill(' ', n) + sign + prefix + Fill(' ', 0) + body + Fill(' ', 0);
    }
  }

  lemma AssembleSize(sign: string, prefix: string, body: string, f: Flags, w: s16)
    ensures w >= -0x8000 + Loops(f) ==>
              |Assemble(sign, prefix, body, f, w)| == |sign| + |prefix| + |body| + Max(0, w)
    ensures w < -0x8000 + Loops(f) ==>
              |Assemble(sign, prefix, body, f, w)| == |sign| + |prefix| + |body| + 0x8000
  {
  }

  lemma AssembleLayout(sign: string, prefix: string, body: string, f: Flags, width: s16)
    requires |sign| <= 1 && |prefix| <= 2 && |body| <= 0x7fff
    ensures var slack := width as int - |sign| - |prefix| - |body|;
            Assemble(sign, prefix, body, f, ToS16(slack)) == Placed(sign, prefix, body, f, Max(0, slack))
            <==> slack >= -0x8000 + Loops(f) || slack <= -0x10000
  {
    var slack := width as int - |sign| - |prefix| - |body|;
    var w := ToS16(slack);
    AssembleSize(sign, prefix, body, f, w);
    PlacedSize(sign, prefix, body, f, Max(0, slack));
    if w >= -0x8000 + Loops(f) {
      AssembleIsPlaced(sign, prefix, body, f, w);
    }
  }

  lemma PlacedSize(sign: string, prefix: string, body: string, f: Flags, n: nat)
    ensures |Placed(sign, prefix, body, f, n)| == |sign| + |prefix| + |body| + n
  {
  }

  /** The layout is what number() prints exactly when no 16-bit wrap-around shows, and it is
      as long as the width or the number itself, whichever is more. */
  lemma NumberLayout(num: u64, spec: Spec)
    requires IsBase(spec.base)
    ensures NumberText(num, spec) == Layout(num, spec) <==> NoWrap(num, spec)
    ensures |Layout(num, spec)| == Max(spec.width, |SignText(num, spec.flags)| + |PrefixText(spec)| + |Body(num, spec)|)
  {
    hide SignText, PrefixText, Body, Assemble, Placed, ToS16;
    var s, p, b, f := SignText(num, spec.flags), PrefixText(spec), Body(num, spec), spec.flags;
    SmallParts(num, spec);
    SmallBody(num, spec);
    AssembleLayout(s, p, b, f, spec.width);
    PlacedSize(s, p, b, f, Max(0, Slack(num, spec)));
  }

  lemma SmallBody(num: u64, spec: Spec)
    requires IsBase(spec.base)
    ensures |Body(num, spec)| <= 0x7fff
  {
    Numeral64(Magnitude(num, spec.flags), spec.base, spec.flags.small);
  }

  lemma PlacedAlone(sign: string, prefix: string, body: string, f: Flags)
    ensures Placed(sign, prefix, body, f, 0) == sign + prefix + body
  {
  }

  /** Without a width and a precision a number is its sign, prefix and numeral. */
  lemma UnpaddedNumber(num: u64, spec: Spec)
    requires IsBase(spec.base) && spec.width == spec.precision == -1
    ensures NumberText(num, spec)
         == SignText(num, spec.flags) + PrefixText(spec) + Numeral(Magnitude(num, spec.flags), spec.base, spec.flags.small)
  {
    hide NumberText, Numeral, Placed, SignText, PrefixText, Magnitude;
    var digits := Numeral(Magnitude(num, spec.flags), spec.base, spec.flags.small);
    Numeral64(Magnitude(num, spec.flags), spec.base, spec.flags.small);
    assert Body(num, spec) == Fill('0', 0) + digits == digits;
    assert |SignText(num, spec.flags)| <= 1 && |PrefixText(spec)| <= 2 by {
      SmallParts(num, spec);
    }
    NumberLayout(num, spec);
    PlacedAlone(SignText(num, spec.flags), PrefixText(spec), digits, spec.flags);
  }

  lemma SmallParts(num: u64, spec: Spec)
    ensures |SignText(num, spec.flags)| <= 1 && |PrefixText(spec)| <= 2
  {
  }

  /** A text with n spaces on the side the flag asks for. */
  function Beside(text: string, left: bool, n: nat): string {
    if left then text + Fill(' ', n) else Fill(' ', n) + text
  }

  /** string() pads its string as asked, exactly when its right-justifying loop does not wrap
      the width around for the loop after it to use. */
  lemma StringLayout(s: string, spec: Spec)
    ensures var len := StringLength(s, spec.precision);
            StringText(s, spec) == Beside(s[..len], spec.flags.left, Max(0, spec.width - len))
            <==> spec.flags.left || spec.width != -0x8000 || len >= 0x7fff
  {
    var len := StringLength(s, spec.precision);
    var lead := PadIf(!spec.flags.left, PadTo(len, spec.width), spec.width);
    var trail := PadTo(len, lead.w);
    assert |StringText(s, spec)| == lead.n + len + trail.n;
    if spec.flags.left || spec.width != -0x8000 || len >= 0x7fff {
      assert StringText(s, spec) == Beside(s[..len], spec.flags.left, Max(0, spec.width - len));
    }
  }

  /** The %c case pads its character as asked, exactly when neither of its loops wraps around. */
  lemma CharLayout(c: char, spec: Spec)
    ensures CharText(c, spec) == Beside([c], spec.flags.left, Max(0, spec.width - 1))
            <==> spec.width >= -0x8000 + (if spec.flags.left then 1 else 2)
  {
    var lead := PadIf(!spec.flags.left, PadAbove(spec.width), spec.width);
    assert |CharText(c, spec)| == lead.n + 1 + PadAbove(lead.w).n;
    if spec.width >= -0x8000 + (if spec.flags.left then 1 else 2) {
      assert CharText(c, spec) == Beside([c], spec.flags.left, Max(0, spec.width - 1));
    }
  }

  /** A 16-bit width of -32768: taking the digit off wraps it around, and the number is
      followed by 32767 spaces. */
  lemma WrapExample()
    ensures var spec := Spec(Int, NO_FLAGS.(sign := true, left := true), 10, NO_QUALIFIER, -0x8000, -1);
            NumberText(5, spec) == "5" + Fill(' ', 0x7fff)
  {
    var spec := Spec(Int, NO_FLAGS.(sign := true, left := true), 10, NO_QUALIFIER, -0x8000, -1);
    assert Numeral(5, 10, false) == "5";
    assert Body(5, spec) == Fill('0', 0) + "5" == "5";
    assert NumberText(5, spec) == Fill(' ', 0) + "" + "" + Fill(' ', 0) + "5" + Fill(' ', 0x7fff);
  }
}
