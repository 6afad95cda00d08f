/** vsnprintf: what a format and its arguments mean, and the bounded printing of it. */
module Printf {
  import opened CType
  import opened FormatDecode
  import opened Digits
  import opened PrintfText
  import opened PrintfBuffer

  // ---------------------------------------------------------------- arguments

  /** One variadic argument: a 64-bit slot, which may point to a C string. */
  datatype Arg = Word(bits: u64) | Pointer(bits: u64, text: cstring)

  /** va_arg as an integer.  A missing argument, undefined in C, reads as 0. */
  function Slot(args: seq<Arg>, k: nat): u64 {
    if k < |args| then args[k].bits else 0
  }

  /** va_arg as a string; a slot that points to no string prints as a null pointer does. */
  function TextArg(args: seq<Arg>, k: nat): cstring {
    if k < |args| && args[k].Pointer? then args[k].text else "(null)"
  }

  /** The 64-bit value that C's cast for a kind makes of a slot. */
  function Cast(kind: Kind, v: u64): u64 {
    match kind
    case Width => v % TWO32
    case Precision => v % TWO32
    case Char => v % TWO8
    case UByte => v % TWO8
    case Byte => ToU64(Signed(v, TWO8))
    case UShort => v % TWO16
    case Short => ToU64(Signed(v, TWO16))
    case UInt => v % TWO32
    case Int => ToU64(Signed(v, TWO32))
    case _ => v
  }

  predicate TakesArgument(kind: Kind) {
    kind != None && kind != PercentChar && kind != Invalid
  }

  /** An argument as its conversion sees it. */
  datatype Value = Num(n: u64) | Text(s: cstring)

  function ArgValue(kind: Kind, args: seq<Arg>, k: nat): Value {
    if kind == Str then Text(TextArg(args, k)) else Num(Cast(kind, Slot(args, k)))
  }

  predicate Fits(kind: Kind, v: Value) {
    (kind == Str <==> v.Text?) && (kind == Char ==> v.n < 256)
  }

  lemma ArgFits(kind: Kind, args: seq<Arg>, k: nat)
    ensures Fits(kind, ArgValue(kind, args, k))
  {
  }

  // ------------------------------------------------------------------- tokens

  /** What an extended `%p` prints: a function of the format after the `p`, the pointer and the spec. */
  type Ext = (string, u64, Spec) -> string

  predicate IsExtension(suffix: string) {
    var c := CharAt(suffix, 0);
    || c == 'F' || c == 'f' || c == 'S' || c == 's' || c == 'R' || c == 'r' || c == 'M' || c == 'm' || c == 'U'
    || ((c == 'I' || c == 'i') && (CharAt(suffix, 1) == '6' || CharAt(suffix, 1) == '4'))
  }

  /** The spec with which a plain pointer is printed as a number. */
  function PointerSpec(spec: Spec): (s: Spec)
    ensures s.base == 16
  {
    var small := spec.flags.(small := true);
    if spec.width == -1 then spec.(base := 16, width := 16, flags := small.(zeropad := true))
    else spec.(base := 16, flags := small)
  }

  function PointerText(suffix: string, ptr: u64, spec: Spec, ext: Ext): string {
    if ptr == 0 then StringText("(null)", spec)
    else if IsExtension(suffix) then ext(suffix, ptr, spec)
    else NumberText(ptr, PointerSpec(spec))
  }

  /** The text of one token with its argument. */
  function TokenText(fmt: string, pos: nat, d: Decoded, v: Value, ext: Ext): string
    requires pos <= d.next <= |fmt| && Fits(d.spec.kind, v)
    requires d.spec.kind == Ptr ==> d.next < |fmt|
    requires IsInteger(d.spec.kind) ==> IsBase(d.spec.base)
  {
    var k := d.spec.kind;
    if k == None then fmt[pos..d.next]
    else if k == Char then CharText(v.n as char, d.spec)
    else if k == Str then StringText(v.s, d.spec)
    else if k == Ptr then PointerText(fmt[d.next + 1..], v.n, d.spec, ext)
    else if k == PercentChar || k == Invalid then "%"
    else if IsInteger(k) then NumberText(v.n, d.spec)
    else ""
  }

  function AlnumEnd(fmt: string, pos: nat): (e: nat)
    requires pos <= |fmt|
    ensures pos <= e <= |fmt|
    ensures pos < |fmt| && IsAlnum(fmt[pos]) ==> e > pos
    decreases |fmt| - pos
  {
    if pos < |fmt| && IsAlnum(fmt[pos]) then AlnumEnd(fmt, pos + 1) else pos
  }

  /** Where the next token starts: after `%p`, past the letters and digits that extend it. */
  function Resume(fmt: string, d: Decoded): (e: nat)
    requires d.next <= |fmt|
    ensures d.next <= e <= |fmt|
  {
    if d.spec.kind == Ptr then AlnumEnd(fmt, d.next) else d.next
  }

  lemma ResumeIs(fmt: string, d: Decoded)
    requires d.next <= |fmt|
    ensures Resume(fmt, d) == if d.spec.kind == Ptr then AlnumEnd(fmt, d.next) else d.next
  {
  }

  /** A `*` argument goes into the spec. */
  function Absorb(spec: Spec, v: Value): (s: Spec)
    requires Fits(spec.kind, v)
    ensures s.kind == spec.kind && s.flags == spec.flags
  {
    if spec.kind == Width then spec.(width := ToS16(v.n))
    else if spec.kind == Precision then spec.(precision := ToS16(v.n))
    else spec
  }

  function Taken(kind: Kind): nat {
    if TakesArgument(kind) then 1 else 0
  }

  function Rank(spec: Spec): nat {
    if Pending(spec) then 1 else 0
  }

  /** Every turn of a format loop makes progress: it moves on in the format, or, standing
      still, it leaves a pending width or precision behind. */
  lemma FormatProgress(fmt: string, pos: nat, spec: Spec)
    requires pos < |fmt|
    ensures var d := Decode(fmt, pos, spec);
            Resume(fmt, d) > pos || (Resume(fmt, d) == pos && Rank(d.spec) < Rank(spec))
  {
  }

  /** The text of the format from `pos` on, the decoder being in state `spec` and the
      arguments from k on still to be used: no buffer, no bound. */
  function Render(fmt: string, pos: nat, spec: Spec, args: seq<Arg>, k: nat, ext: Ext): string
    requires pos <= |fmt|
    decreases |fmt| - pos, Rank(spec)
  {
    if pos == |fmt| then ""
    else
      FormatProgress(fmt, pos, spec);
      var d := Decode(fmt, pos, spec);
      ArgFits(d.spec.kind, args, k);
      var v := ArgValue(d.spec.kind, args, k);
      TokenText(fmt, pos, d, v, ext)
      + Render(fmt, Resume(fmt, d), Absorb(d.spec, v), args, k + Taken(d.spec.kind), ext)
  }

  /** One token of Render. */
  lemma RenderStep(fmt: string, pos: nat, spec: Spec, args: seq<Arg>, k: nat, ext: Ext)
    requires pos < |fmt|
    ensures var d := Decode(fmt, pos, spec);
            var v := ArgValue(d.spec.kind, args, k);
            Fits(d.spec.kind, v)
            && Render(fmt, pos, spec, args, k, ext)
            == TokenText(fmt, pos, d, v, ext)
               + Render(fmt, Resume(fmt, d), Absorb(d.spec, v), args, k + Taken(d.spec.kind), ext)
  {
    hide Decode, TokenText, Absorb, AlnumEnd, ArgValue, Fits;
    FormatProgress(fmt, pos, spec);
    ArgFits(Decode(fmt, pos, spec).spec.kind, args, k);
  }

  lemma RenderEnd(fmt: string, spec: Spec, args: seq<Arg>, k: nat, ext: Ext)
    ensures Render(fmt, |fmt|, spec, args, k, ext) == ""
  {
  }

  lemma IntegerToken(fmt: string, pos: nat, d: Decoded, v: Value, ext: Ext)
    requires pos <= d.next <= |fmt| && IsInteger(d.spec.kind) && IsBase(d.spec.base) && v.Num?
    ensures TokenText(fmt, pos, d, v, ext) == NumberText(v.n, d.spec)
    ensures Resume(fmt, d) == d.next && Absorb(d.spec, v) == d.spec && Taken(d.spec.kind) == 1
  {
  }

  /** What printf prints. */
  function Formatted(fmt: string, args: seq<Arg>, ext: Ext): string {
    Render(fmt, 0, ZERO_SPEC, args, 0, ext)
  }

  // ----------------------------------------------------------------- printing

  /** The memcpy of literal text, cut at the end of the buffer. */
  method CopyText(buf: array<char>, str: nat, end: nat, s: string) returns (str': nat)
    requires end <= buf.Length
    modifies buf
    ensures str' == str + |s| && buf[..] == Put(old(buf[..]), str, end, s)
  {
    if str < end {
      var copy := |s|;
      if copy > end - str {
        copy := end - str;
      }
      var i := 0;
      while i < copy
        invariant 0 <= i <= copy
        invariant forall j | 0 <= j < buf.Length :: buf[j] == if str <= j < str + i then s[j - str] else old(buf[j])
      {
        buf[str + i] := s[i];
        i := i + 1;
      }
    }
    str' := str + |s|;
  }

  method PointerOut(buf: array<char>, str: nat, end: nat, suffix: string, ptr: u64, spec: Spec, ext: Ext)
    returns (str': nat)
    requires end <= buf.Length
    modifies buf
    ensures var t := PointerText(suffix, ptr, spec, ext);
            str' == str + |t| && buf[..] == Put(old(buf[..]), str, end, t)
  {
    if ptr == 0 {
      str' := StringOut(buf, str, end, "(null)", spec);
    } else if IsExtension(suffix) {
      str' := EmitString(buf, str, end, ext(suffix, ptr, spec));
    } else {
      str' := Number(buf, str, end, ptr, PointerSpec(spec));
    }
  }

  /** The switch of the format loop, for a token whose argument has been fetched. */
  method PrintToken(buf: array<char>, str: nat, end: nat, fmt: string, pos: nat, d: Decoded, v: Value, ext: Ext)
    returns (str': nat)
    requires end <= buf.Length
    requires pos <= d.next <= |fmt| && Fits(d.spec.kind, v)
    requires d.spec.kind == Ptr ==> d.next < |fmt|
    requires IsInteger(d.spec.kind) ==> IsBase(d.spec.base)
    modifies buf
    ensures var t := TokenText(fmt, pos, d, v, ext);
            str' == str + |t| && buf[..] == Put(old(buf[..]), str, end, t)
  {
    hide Put, NumberText, StringText, CharText, PointerText;
    var k := d.spec.kind;
    if k == None {
      str' := CopyText(buf, str, end, fmt[pos..d.next]);
    } else if k == Char {
      str' := CharOut(buf, str, end, v.n as char, d.spec);
    } else if k == Str {
      str' := StringOut(buf, str, end, v.s, d.spec);
    } else if k == Ptr {
      str' := PointerOut(buf, str, end, fmt[d.next + 1..], v.n, d.spec, ext);
    } else if k == PercentChar || k == Invalid {
      str' := Emit(buf, str, end, '%');
    } else if IsInteger(k) {
      str' := Number(buf, str, end, v.n, d.spec);
    } else {
      PutNothing(buf[..], str, end);
      str' := str;
    }
  }

  method SkipAlnum(fmt: string, pos: nat) returns (e: nat)
    requires pos <= |fmt|
    ensures e == AlnumEnd(fmt, pos)
  {
    e := pos;
    while IsAlnum(CharAt(fmt, e))
      invariant pos <= e <= |fmt| && AlnumEnd(fmt, e) == AlnumEnd(fmt, pos)
      decreases |fmt| - e
    {
      e := e + 1;
    }
  }

  /** A buffer of `size` that received `text`: as much of it as fits, and a terminator. */
  function Truncated(b: seq<char>, size: nat, text: string): seq<char>
    requires size <= |b|
  {
    if size == 0 then b
    else
      var n := if |text| < size then |text| else size - 1;
      text[..n] + [NUL] + b[n + 1..]
  }

  /** The whole length is returned, and the buffer holds what fits. */
  ghost predicate Delivered(before: seq<char>, after: seq<char>, size: nat, ret: nat, text: string)
    requires size <= |before|
  {
    ret == |text| && after == Truncated(before, size, text)
  }

  /** One text delivered at two sizes: the lengths returned are the same; the smaller buffer
      agrees with the larger up to its terminator and keeps what it held after it, in
      particular everything from its size on. */
  lemma DeliveredPrefix(before: seq<char>, after: seq<char>, size: nat, ret: nat,
                        before': seq<char>, after': seq<char>, size': nat, ret': nat, text: string)
    requires size <= |before| && Delivered(before, after, size, ret, text)
    requires size <= size' <= |before'| && Delivered(before', after', size', ret', text)
    ensures ret == ret' && |after| == |before| && |after'| == |before'| && after[size..] == before[size..]
    ensures size > 0 ==>
              var n := if ret < size then ret else size - 1;
              after[n] == NUL && after[..n] == after'[..n] == text[..n] && after[n + 1..] == before[n + 1..]
  {
    if size > 0 {
      var n := if ret < size then ret else size - 1;
      var n' := if ret < size' then ret else size' - 1;
      assert after'[..n'] == text[..n'];
      assert after'[..n] == after'[..n'][..n] == text[..n'][..n] == text[..n];
    }
  }

  /** The terminator, put where the text ends or over its last character that fits. */
  method Terminate(buf: array<char>, size: nat, str: nat, ghost b0: seq<char>, ghost text: string)
    requires size <= buf.Length && str == |text| && |b0| == buf.Length && buf[..] == Put(b0, 0, size, text)
    modifies buf
    ensures buf[..] == Truncated(b0, size, text)
  {
    if size > 0 {
      if str < size {
        buf[str] := NUL;
      } else {
        buf[size - 1] := NUL;
      }
    }
  }

  const INT_MAX: nat := 0x7fff_ffff

  /** `(int) size < 0`. */
  predicate OutOfRange(size: nat) {
    size % TWO32 > INT_MAX
  }

  /** So much of `whole` has been printed, and the rest is what the format from here on renders. */
  ghost predicate Printed(b: seq<char>, b0: seq<char>, size: nat, str: nat, text: string, rest: string, whole: string) {
    str == |text| && b == Put(b0, 0, size, text) && text + rest == whole
  }

  lemma PrintedMore(b: seq<char>, b0: seq<char>, size: nat, str: nat, text: string, t: string, rest: string, whole: string)
    requires Printed(b, b0, size, str, text, t + rest, whole)
    ensures Printed(Put(b, str, size, t), b0, size, str + |t|, text + t, rest, whole)
  {
    PutConcat(b0, 0, size, text, t);
    assert text + (t + rest) == (text + t) + rest;
  }

  lemma SameRank(a: Spec, b: Spec)
    requires a.kind == b.kind
    ensures Rank(a) == Rank(b)
  {
  }

  lemma IntegerBase(fmt: string, pos: nat, spec: Spec)
    requires pos < |fmt|
    ensures var s := Decode(fmt, pos, spec).spec; IsInteger(s.kind) ==> IsBase(s.base)
  {
    hide Decode;
  }

  /** One turn of the format loop. */
  method Turn(buf: array<char>, size: nat, fmt: cstring, args: seq<Arg>, ext: Ext, pos0: nat, k0: nat, spec0: Spec, str0: nat,
              ghost b0: seq<char>, ghost text0: string, ghost whole: string)
    returns (pos: nat, k: nat, spec: Spec, str: nat, ghost text: string)
    requires size <= buf.Length && pos0 < |fmt|
    requires Printed(buf[..], b0, size, str0, text0, Render(fmt, pos0, spec0, args, k0, ext), whole)
    modifies buf
    ensures pos <= |fmt| && (pos > pos0 || (pos == pos0 && Rank(spec) < Rank(spec0)))
    ensures Printed(buf[..], b0, size, str, text, Render(fmt, pos, spec, args, k, ext), whole)
  {
    hide *;
    FormatProgress(fmt, pos0, spec0);
    RenderStep(fmt, pos0, spec0, args, k0, ext);
    var d := DecodeFormat(fmt, pos0, spec0);
    ResumeIs(fmt, d);
    IntegerBase(fmt, pos0, spec0);
    var v := ArgValue(d.spec.kind, args, k0);
    ghost var t := TokenText(fmt, pos0, d, v, ext);
    pos, k, spec := d.next, k0 + Taken(d.spec.kind), Absorb(d.spec, v);
    if spec.kind == Ptr {
      pos := SkipAlnum(fmt, pos);
    }
    SameRank(d.spec, spec);
    PrintedMore(buf[..], b0, size, str0, text0, t, Render(fmt, pos, spec, args, k, ext), whole);
    str := PrintToken(buf, str0, size, fmt, pos0, d, v, ext);
    text := text0 + t;
  }

  /** The format loop. */
  method FormatLoop(buf: array<char>, size: nat, fmt: cstring, args: seq<Arg>, ext: Ext) returns (str: nat)
    requires size <= buf.Length
    modifies buf
    ensures var text := Formatted(fmt, args, ext);
            str == |text| && buf[..] == Put(old(buf[..]), 0, size, text)
  {
    var pos: nat, k: nat, spec := 0, 0, ZERO_SPEC;
    ghost var b0, whole, text := buf[..], Formatted(fmt, args, ext), "";
    str := 0;
    PutNothing(b0, 0, size);
    assert "" + whole == whole;
    while pos < |fmt|
      invariant pos <= |fmt|
      invariant Printed(buf[..], b0, size, str, text, Render(fmt, pos, spec, args, k, ext), whole)
      decreases |fmt| - pos, Rank(spec)
    {
      pos, k, spec, str, text := Turn(buf, size, fmt, args, ext, pos, k, spec, str, b0, text, whole);
    }
    assert text + "" == text;
  }

  /** vsnprintf: the return value is the length of the whole text whatever the size, and the
      buffer holds as much of the text as fits, terminated, and is otherwise untouched. */
  method Vsnprintf(buf: array<char>, size: nat, fmt: cstring, args: seq<Arg>, ext: Ext) returns (ret: nat)
    requires size <= buf.Length
    modifies buf
    ensures !OutOfRange(size) ==> Delivered(old(buf[..]), buf[..], size, ret, Formatted(fmt, args, ext))
    ensures OutOfRange(size) ==> ret == 0 && buf[..] == old(buf[..])
  {
    if OutOfRange(size) {
      return 0;
    }
    ret := FormatLoop(buf, size, fmt, args, ext);
    Terminate(buf, size, ret, old(buf[..]), Formatted(fmt, args, ext));
  }

  /** vsnprintf into a copy of `out`. */
  method PrintInto(fmt: cstring, args: seq<Arg>, out: seq<char>, ext: Ext) returns (ret: nat, out': seq<char>)
    ensures !OutOfRange(|out|) ==> Delivered(out, out', |out|, ret, Formatted(fmt, args, ext))
    ensures OutOfRange(|out|) ==> ret == 0 && out' == out
  {
    var buf := new char[|out|](i requires 0 <= i < |out| => out[i]);
    assert buf[..] == out;
    ret := Vsnprintf(buf, |out|, fmt, args, ext);
    out' := buf[..];
  }

  /** The truncation that ISO C99 asks for: printing the same at two sizes returns the same
      length, and each buffer holds the first min(length, size - 1) characters of one and the
      same text, a terminator, and what it held before. */
  method PrintAtTwoSizes(fmt: cstring, args: seq<Arg>, out: seq<char>, out': seq<char>, ext: Ext)
    returns (ret: nat, got: seq<char>, ret': nat, got': seq<char>)
    requires |out| <= |out'| <= INT_MAX
    ensures ret == ret' == |Formatted(fmt, args, ext)| && |got| == |out| && |got'| == |out'|
    ensures |out| > 0 ==>
              var n := if ret < |out| then ret else |out| - 1;
              && got[n] == NUL && got[..n] == got'[..n] == Formatted(fmt, args, ext)[..n] && got[n + 1..] == out[n + 1..]
  {
    assert !OutOfRange(|out|) && !OutOfRange(|out'|);
    hide Formatted, Truncated, OutOfRange;
    ret, got := PrintInto(fmt, args, out, ext);
    ret', got' := PrintInto(fmt, args, out', ext);
    DeliveredPrefix(out, got, |out|, ret, out', got', |out'|, ret', Formatted(fmt, args, ext));
  }
}
