/** The emitting half of vsprintf.c: every character goes through `if (str < end) *str = c; ++str`. */
module PrintfBuffer {
  import opened CType
  import opened FormatDecode
  import opened Digits
  import opened PrintfText

  /** The buffer after `text` was emitted at `at`: what lies at or beyond `end` is dropped. */
  function Put(b: seq<char>, at: nat, end: nat, text: string): (r: seq<char>)
    ensures |r| == |b|
    ensures forall i | 0 <= i < |b| :: r[i] == if at <= i < at + |text| && i < end then text[i - at] else b[i]
  {
    seq(|b|, i requires 0 <= i < |b| => if at <= i < at + |text| && i < end then text[i - at] else b[i])
  }

  lemma PutNothing(b: seq<char>, at: nat, end: nat)
    ensures Put(b, at, end, "") == b
  {
  }

  lemma PutConcat(b: seq<char>, at: nat, end: nat, t: string, u: string)
    ensures Put(Put(b, at, end, t), at + |t|, end, u) == Put(b, at, end, t + u)
  {
  }

  lemma FillSnoc(c: char, n: nat)
    ensures Fill(c, n) + [c] == Fill(c, n + 1)
  {
  }

  lemma S16Sub(a: int, k: int)
    ensures ToS16(ToS16(a) - k) == ToS16(a - k)
  {
    var b: int := ToS16(a);
    var q := (a - b) / TWO16;
    assert b == a - TWO16 * q by {
      hide Signed;
      assert ToS16(a) == Signed(a, TWO16);
    }
    SameLowBits(a - k, q);
    assert b - k == a - k - TWO16 * q;
  }

  lemma SameLowBits(v: int, q: int)
    ensures ToS16(v - TWO16 * q) == ToS16(v)
  {
    assert (v - TWO16 * q) % TWO16 == v % TWO16;
  }

  method Emit(buf: array<char>, str: nat, end: nat, c: char) returns (str': nat)
    requires end <= buf.Length
    modifies buf
    ensures str' == str + 1 && buf[..] == Put(old(buf[..]), str, end, [c])
  {
    if str < end {
      buf[str] := c;
    }
    str' := str + 1;
  }

  /** `while (--w >= 0)` emitting c. */
  method PadDownLoop(buf: array<char>, str: nat, end: nat, c: char, w0: s16) returns (str': nat, w: s16)
    requires end <= buf.Length
    modifies buf
    ensures str' == str + PadDown(w0).n && w == PadDown(w0).w
    ensures buf[..] == Put(old(buf[..]), str, end, Fill(c, PadDown(w0).n))
  {
    ghost var k := 0;
    str', w := str, ToS16(w0 as int - 1);
    PutNothing(buf[..], str, end);
    while w >= 0
      invariant str' == str + k && k <= PadDown(w0).n
      invariant w == -1 || w >= 0 ==> k == PadDown(w0).n - (w + 1)
      invariant w < -1 ==> k == PadDown(w0).n == 0 && w == PadDown(w0).w
      invariant w >= -1 ==> PadDown(w0).w == -1
      invariant buf[..] == Put(old(buf[..]), str, end, Fill(c, k))
    {
      PutConcat(old(buf[..]), str, end, Fill(c, k), [c]);
      FillSnoc(c, k);
      str' := Emit(buf, str', end, c);
      w, k := w - 1, k + 1;
    }
  }

  /** `while (--w > 0)` emitting a space. */
  method PadAboveLoop(buf: array<char>, str: nat, end: nat, w0: s16) returns (str': nat, w: s16)
    requires end <= buf.Length
    modifies buf
    ensures str' == str + PadAbove(w0).n && w == PadAbove(w0).w
    ensures buf[..] == Put(old(buf[..]), str, end, Fill(' ', PadAbove(w0).n))
  {
    ghost var k := 0;
    str', w := str, ToS16(w0 as int - 1);
    PutNothing(buf[..], str, end);
    while w > 0
      invariant str' == str + k && k <= PadAbove(w0).n
      invariant w >= 0 ==> k == PadAbove(w0).n - w && PadAbove(w0).w == 0
      invariant w < 0 ==> k == PadAbove(w0).n == 0 && w == PadAbove(w0).w
      invariant buf[..] == Put(old(buf[..]), str, end, Fill(' ', k))
    {
      PutConcat(old(buf[..]), str, end, Fill(' ', k), [' ']);
      FillSnoc(' ', k);
      str' := Emit(buf, str', end, ' ');
      w, k := w - 1, k + 1;
    }
  }

  /** `while (len < w--)` emitting a space. */
  method PadToLoop(buf: array<char>, str: nat, end: nat, len: nat, w0: s16) returns (str': nat, w: s16)
    requires end <= buf.Length
    modifies buf
    ensures str' == str + PadTo(len, w0).n && w == PadTo(len, w0).w
    ensures buf[..] == Put(old(buf[..]), str, end, Fill(' ', PadTo(len, w0).n))
  {
    ghost var k := 0;
    str', w := str, w0;
    PutNothing(buf[..], str, end);
    while len < w
      invariant str' == str + k && k <= PadTo(len, w0).n
      invariant w0 > len ==> w >= len && k == w0 - w
      invariant w0 <= len ==> w == w0 && k == 0
      invariant buf[..] == Put(old(buf[..]), str, end, Fill(' ', k))
    {
      PutConcat(old(buf[..]), str, end, Fill(' ', k), [' ']);
      FillSnoc(' ', k);
      str' := Emit(buf, str', end, ' ');
      w, k := w - 1, k + 1;
    }
    w := ToS16(w as int - 1);
  }

  method EmitString(buf: array<char>, str: nat, end: nat, s: string) returns (str': nat)
    requires end <= buf.Length
    modifies buf
    ensures str' == str + |s| && buf[..] == Put(old(buf[..]), str, end, s)
  {
    var i := 0;
    str' := str;
    PutNothing(buf[..], str, end);
    while i < |s|
      invariant 0 <= i <= |s| && str' == str + i
      invariant buf[..] == Put(old(buf[..]), str, end, s[..i])
    {
      PutConcat(old(buf[..]), str, end, s[..i], [s[i]]);
      assert s[..i] + [s[i]] == s[..i + 1];
      str' := Emit(buf, str', end, s[i]);
      i := i + 1;
    }
    assert s[..i] == s;
  }

  /** Octal and hexadecimal digits by masking and shifting. */
  method ShiftDigits(tmp: array<char>, num: nat, base: nat, small: bool) returns (i: nat)
    requires IsBase(base) && |Backwards(num, base, small)| <= tmp.Length
    modifies tmp
    ensures i == |Backwards(num, base, small)| && tmp[..i] == Backwards(num, base, small)
  {
    var n: nat := num;
    i := 0;
    ghost var rest := Backwards(n, base, small);
    while n >= base
      invariant rest == Backwards(n, base, small) && i + |rest| == |Backwards(num, base, small)|
      invariant tmp[..i] + rest == Backwards(num, base, small)
      decreases n
    {
      ghost var before := tmp[..i];
      var d, r := Last(n, base), Rest(n, base);
      ghost var c, rest' := DigitChar(d, small), Backwards(r, base, small);
      assert rest == [c] + rest';
      assert before + ([c] + rest') == (before + [c]) + rest';
      i := PutChar(tmp, i, DigitChar(d, small));
      n, rest := r, rest';
    }
    i := PutChar(tmp, i, DigitChar(n, small));
  }

  /** The digits of num in reverse order into tmp. */
  method ReverseDigits(tmp: array<char>, num: u64, base: nat, small: bool) returns (i: nat)
    requires IsBase(base) && tmp.Length == 66
    modifies tmp
    ensures i == |Backwards(num, base, small)| <= 66 && tmp[..i] == Backwards(num, base, small)
  {
    BackwardsReversed(num, base, small);
    Numeral64(num, base, small);
    if num == 0 {
      i := PutChar(tmp, 0, '0');
    } else if base != 10 {
      i := ShiftDigits(tmp, num, base, small);
    } else {
      DecimalCase(num, small);
      i := PutDec(tmp, 0, num);
    }
  }

  /** Decimal digits have no case. */
  lemma {:induction false} DecimalCase(n: nat, small: bool)
    ensures Backwards(n, 10, small) == Dec(n)
    decreases n
  {
    if n >= 10 {
      DecimalCase(Rest(n, 10), small);
    }
  }

  /** `while (--i >= 0)` emitting tmp[i]. */
  method EmitReversed(buf: array<char>, str: nat, end: nat, tmp: seq<char>) returns (str': nat)
    requires end <= buf.Length
    modifies buf
    ensures str' == str + |tmp| && buf[..] == Put(old(buf[..]), str, end, Reverse(tmp))
  {
    var i := |tmp|;
    str' := str;
    ghost var r := Reverse(tmp);
    PutNothing(buf[..], str, end);
    while i > 0
      invariant 0 <= i <= |tmp| && str' == str + |tmp| - i
      invariant buf[..] == Put(old(buf[..]), str, end, r[..|tmp| - i])
    {
      ghost var k := |tmp| - i;
      i := i - 1;
      ReverseAt(tmp, k);
      PutConcat(old(buf[..]), str, end, r[..k], [r[k]]);
      assert r[..k] + [r[k]] == r[..k + 1];
      str' := Emit(buf, str', end, tmp[i]);
    }
    assert r[..|tmp|] == r;
  }

  /** Zeros up to the precision, then the digits. */
  method EmitBody(buf: array<char>, str: nat, end: nat, tmp: seq<char>, precision: s16) returns (str': nat)
    requires end <= buf.Length && |tmp| < 0x8000
    modifies buf
    ensures var text := ZeroPadded(Reverse(tmp), precision);
            str' == str + |text| && buf[..] == Put(old(buf[..]), str, end, text)
  {
    var i: int := |tmp|;
    var prec: int := precision;
    if i > prec {
      prec := i;
    }
    ghost var n := prec - i;
    ghost var k := 0;
    str' := str;
    PutNothing(buf[..], str, end);
    prec := prec - 1;
    while i <= prec
      invariant 0 <= k <= n && prec == i + n - k - 1 && str' == str + k
      invariant buf[..] == Put(old(buf[..]), str, end, Fill('0', k))
      decreases prec
    {
      PutConcat(old(buf[..]), str, end, Fill('0', k), ['0']);
      FillSnoc('0', k);
      str' := Emit(buf, str', end, '0');
      prec, k := prec - 1, k + 1;
    }
    PutConcat(old(buf[..]), str, end, Fill('0', n), Reverse(tmp));
    str' := EmitReversed(buf, str', end, tmp);
  }

  /** Leading spaces if w is to be padded here, then a sign and a prefix. */
  method EmitHead(buf: array<char>, str: nat, end: nat, pad: bool, w0: s16, sign: string, prefix: string)
    returns (str': nat, w: s16)
    requires end <= buf.Length
    modifies buf
    ensures var lead := PadIf(pad, PadDown(w0), w0);
            var text := Fill(' ', lead.n) + sign + prefix;
            w == lead.w && str' == str + |text| && buf[..] == Put(old(buf[..]), str, end, text)
  {
    ghost var b0, t := buf[..], Fill(' ', PadIf(pad, PadDown(w0), w0).n);
    str', w := str, w0;
    if pad {
      str', w := PadDownLoop(buf, str', end, ' ', w);
    } else {
      PutNothing(b0, str, end);
    }
    PutConcat(b0, str, end, t, sign);
    str' := EmitString(buf, str', end, sign);
    PutConcat(b0, str, end, t + sign, prefix);
    str' := EmitString(buf, str', end, prefix);
  }

  /** Padding if w is to be used up here, the body, and trailing spaces for what is left of w. */
  method EmitRest(buf: array<char>, str: nat, end: nat, pad: bool, c: char, w0: s16, tmp: seq<char>, precision: s16)
    returns (str': nat)
    requires end <= buf.Length && |tmp| < 0x8000
    modifies buf
    ensures var mid := PadIf(pad, PadDown(w0), w0);
            var body := ZeroPadded(Reverse(tmp), precision);
            var text := Fill(c, mid.n) + body + Fill(' ', PadDown(mid.w).n);
            str' == str + |text| && buf[..] == Put(old(buf[..]), str, end, text)
  {
    ghost var body := ZeroPadded(Reverse(tmp), precision);
    ghost var mid := PadIf(pad, PadDown(w0), w0);
    ghost var b0, t := buf[..], Fill(c, mid.n);
    var w;
    str', w := str, w0;
    if pad {
      str', w := PadDownLoop(buf, str', end, c, w);
    } else {
      PutNothing(b0, str, end);
    }
    PutConcat(b0, str, end, t, body);
    str' := EmitBody(buf, str', end, tmp, precision);
    PutConcat(b0, str, end, t + body, Fill(' ', PadDown(mid.w).n));
    str', w := PadDownLoop(buf, str', end, ' ', w);
  }

  lemma AssembleParts(sign: string, prefix: string, body: string, f: Flags, w: s16)
    ensures var zeropad := f.zeropad && !f.left;
            var lead := PadIf(!zeropad && !f.left, PadDown(w), w);
            var mid := PadIf(!f.left, PadDown(lead.w), lead.w);
            Assemble(sign, prefix, body, f, w)
            == (Fill(' ', lead.n) + sign + prefix)
               + (Fill(if zeropad then '0' else ' ', mid.n) + body + Fill(' ', PadDown(mid.w).n))
  {
    hide PadDown, PadIf, Fill;
  }

  /** The second half of number(): padding, sign, prefix, padding, body, padding. */
  method EmitAssembled(buf: array<char>, str: nat, end: nat, sign: string, prefix: string,
                       tmp: seq<char>, precision: s16, f: Flags, w0: s16) returns (str': nat)
    requires end <= buf.Length && |tmp| < 0x8000
    modifies buf
    ensures var body := ZeroPadded(Reverse(tmp), precision);
            var text := Assemble(sign, prefix, body, f, w0);
            str' == str + |text| && buf[..] == Put(old(buf[..]), str, end, text)
  {
    ghost var body := ZeroPadded(Reverse(tmp), precision);
    var zeropad := f.zeropad && !f.left;
    var c := if zeropad then '0' else ' ';
    ghost var lead := PadIf(!zeropad && !f.left, PadDown(w0), w0);
    ghost var mid := PadIf(!f.left, PadDown(lead.w), lead.w);
    ghost var head := Fill(' ', lead.n) + sign + prefix;
    ghost var rest := Fill(c, mid.n) + body + Fill(' ', PadDown(mid.w).n);
    hide Assemble, Put, ZeroPadded, Reverse, PadDown;
    AssembleParts(sign, prefix, body, f, w0);
    PutConcat(buf[..], str, end, head, rest);
    var w;
    str', w := EmitHead(buf, str, end, !zeropad && !f.left, w0, sign, prefix);
    str' := EmitRest(buf, str', end, !f.left, c, w, tmp, precision);
  }

  method ChooseSign(num: u64, flags: Flags, w0: s16) returns (sign: string, w: s16)
    ensures sign == SignText(num, flags) && w == ToS16(w0 as int - |sign|)
  {
    sign, w := "", w0;
    if flags.sign {
      if num >= SIGN_BIT {
        sign, w := "-", ToS16(w as int - 1);
      } else if flags.plus {
        sign, w := "+", ToS16(w as int - 1);
      } else if flags.space {
        sign, w := " ", ToS16(w as int - 1);
      }
    }
  }

  method ChoosePrefix(spec: Spec, w0: s16) returns (prefix: string, w: s16)
    requires IsBase(spec.base)
    ensures prefix == PrefixText(spec) && w == ToS16(w0 as int - |prefix|)
  {
    prefix, w := "", w0;
    if spec.flags.special && spec.base != 10 {
      prefix, w := "0", ToS16(w as int - 1);
      if spec.base == 16 {
        S16Sub(w0 as int - 1, 1);
        prefix, w := if spec.flags.small then "0x" else "0X", ToS16(w as int - 1);
      }
    }
  }

  /** Subtracting in three wrapping steps is subtracting once. */
  lemma S16Chain(w: int, a: int, b: int, c: int, w1: s16, w2: s16)
    requires w1 == ToS16(w - a) && w2 == ToS16(w1 - b)
    ensures ToS16(w2 as int - c) == ToS16(w - a - b - c)
  {
    S16Sub(w - a, b);
    S16Sub(w - a - b, c);
  }

  /** Sign, prefix, and the width that they and a body of `len` characters leave. */
  method NumberFrame(num: u64, spec: Spec, len: nat) returns (sign: string, prefix: string, w: s16)
    requires IsBase(spec.base)
    ensures sign == SignText(num, spec.flags) && prefix == PrefixText(spec)
    ensures len == |Body(num, spec)| ==> w == ToS16(Slack(num, spec))
  {
    var w1, w2;
    sign, w1 := ChooseSign(num, spec.flags, spec.width);
    prefix, w2 := ChoosePrefix(spec, w1);
    S16Chain(spec.width, |sign|, |prefix|, len, w1, w2);
    w := ToS16(w2 as int - len);
  }

  lemma BodyIs(num: u64, spec: Spec)
    requires IsBase(spec.base)
    ensures Body(num, spec)
         == ZeroPadded(Reverse(Backwards(Magnitude(num, spec.flags), spec.base, spec.flags.small)), spec.precision)
  {
    BackwardsReversed(Magnitude(num, spec.flags), spec.base, spec.flags.small);
  }

  /** number(). */
  method Number(buf: array<char>, str: nat, end: nat, num: u64, spec: Spec) returns (str': nat)
    requires end <= buf.Length && IsBase(spec.base)
    modifies buf
    ensures str' == str + |NumberText(num, spec)| && buf[..] == Put(old(buf[..]), str, end, NumberText(num, spec))
  {
    var tmp := new char[66];
    var i := ReverseDigits(tmp, Magnitude(num, spec.flags), spec.base, spec.flags.small);
    BodyIs(num, spec);
    var sign, prefix, w := NumberFrame(num, spec, if i > spec.precision then i else spec.precision);
    str' := EmitAssembled(buf, str, end, sign, prefix, tmp[..i], spec.precision, spec.flags, w);
  }

  /** string(). */
  method StringOut(buf: array<char>, str: nat, end: nat, s: string, spec: Spec) returns (str': nat)
    requires end <= buf.Length
    modifies buf
    ensures str' == str + |StringText(s, spec)| && buf[..] == Put(old(buf[..]), str, end, StringText(s, spec))
  {
    var len := StringLength(s, spec.precision);
    var w;
    str', w := str, spec.width;
    ghost var lead := PadIf(!spec.flags.left, PadTo(len, w), w);
    ghost var b0, t := buf[..], Fill(' ', lead.n);
    if !spec.flags.left {
      str', w := PadToLoop(buf, str', end, len, w);
    } else {
      PutNothing(b0, str, end);
    }
    PutConcat(b0, str, end, t, s[..len]);
    str' := EmitString(buf, str', end, s[..len]);
    PutConcat(b0, str, end, t + s[..len], Fill(' ', PadTo(len, w).n));
    str', w := PadToLoop(buf, str', end, len, w);
  }

  method CharOut(buf: array<char>, str: nat, end: nat, c: char, spec: Spec) returns (str': nat)
    requires end <= buf.Length
    modifies buf
    ensures str' == str + |CharText(c, spec)| && buf[..] == Put(old(buf[..]), str, end, CharText(c, spec))
  {
    var w;
    str', w := str, spec.width;
    ghost var lead := PadIf(!spec.flags.left, PadAbove(w), w);
    ghost var b0, t := buf[..], Fill(' ', lead.n);
    if !spec.flags.left {
      str', w := PadAboveLoop(buf, str', end, w);
    } else {
      PutNothing(b0, str, end);
    }
    PutConcat(b0, str, end, t, [c]);
    str' := Emit(buf, str', end, c);
    PutConcat(b0, str, end, t + [c], Fill(' ', PadAbove(w).n));
    str', w := PadAboveLoop(buf, str', end, w);
  }
}
