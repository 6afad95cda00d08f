/** vsscanf. */
module Scanf {
  import opened CType
  import opened FormatDecode
  import opened Digits
  import opened Strto

  const SHRT_MAX: nat := 0x7fff

  /** What a conversion stored through its pointer. */
  datatype Stored =
    | Number(size: nat, value: int)  // an integer of `size` bytes
    | Chars(s: string)               // %c
    | Word(s: string)                // %s, terminated
    | Position(n: nat)               // %n

  function SpacesEnd(s: string, i: nat): (e: nat)
    ensures i <= e && (i <= |s| ==> e <= |s|)
    decreases if i <= |s| then |s| - i else 0
  {
    if IsSpace(CharAt(s, i)) then SpacesEnd(s, i + 1) else i
  }

  /** The end of a skipped conversion in the format: at white space, `%` or the end. */
  function SkippedEnd(s: string, j: nat): (e: nat)
    requires j <= |s|
    ensures j <= e <= |s|
    decreases |s| - j
  {
    if j < |s| && !IsSpace(s[j]) && s[j] != '%' then SkippedEnd(s, j + 1) else j
  }

  /** At most `limit` characters up to white space. */
  function WordEnd(s: string, i: nat, limit: nat): (e: nat)
    ensures i <= e && (e == i || e <= |s|)
    decreases limit
  {
    if i < |s| && !IsSpace(s[i]) && limit > 0 then WordEnd(s, i + 1, limit - 1) else i
  }

  // -------------------------------------------------------- integer conversions

  function StoreSize(q: char): nat {
    if q == 'H' then 1 else if q == 'h' then 2 else if q == 'l' || q == 'L' || q == 'z' || q == 'Z' then 8 else 4
  }

  function Modulus(size: nat): (m: nat)
    ensures 2 <= m <= TWO64 && m % 2 == 0
  {
    if size == 1 then TWO8 else if size == 2 then TWO16 else if size == 4 then TWO32 else TWO64
  }

  /** The first digit is there, after a minus sign where one is allowed. */
  predicate Convertible(c: char, base: nat) {
    if base == 16 then IsXDigit(c) else if base == 8 then '0' <= c <= '7' else IsDigit(c)
  }

  /** Reading one integer at i, white space skipped: the value stored and the end, or nothing. */
  datatype Converted = Converted(out: Stored, end: nat) | Mismatch(at: nat)

  function ConvertInteger(buf: string, i0: nat, q: char, base: nat, signed: bool): Converted {
    var i := SpacesEnd(buf, i0);
    var digit := if signed && CharAt(buf, i) == '-' then CharAt(buf, i + 1) else CharAt(buf, i);
    if !Convertible(digit, base) then Mismatch(i)
    else
      var m := Modulus(StoreSize(q));
      if signed && q != 'z' && q != 'Z' then
        var r := ParseSigned(buf, i, base);
        Converted(Number(StoreSize(q), Signed(r.value, m)), r.end)
      else
        var r := ParseUnsigned(buf, i, base);
        Converted(Number(StoreSize(q), r.value % m), r.end)
  }

  // ------------------------------------------------------------------ one turn

  /** After one turn of the loop: go on, leave the loop, or return at once. */
  datatype Turned = Go(i: nat, j: nat, outs: seq<Stored>) | Break(i: nat, j: nat) | Return

  predicate IsIntegerChar(c: char) {
    c == 'o' || c == 'x' || c == 'X' || c == 'i' || c == 'd' || c == 'u'
  }

  function BaseOf(c: char): nat {
    if c == 'o' then 8 else if c == 'x' || c == 'X' then 16 else if c == 'i' then 0 else 10
  }

  /** h, l, L, z or Z, doubled h and l being read as H and L. */
  function ScanQualifier(fmt: string, j: nat): (r: (char, nat))
    requires j <= |fmt|
    ensures j <= r.1 <= |fmt|
  {
    if CharAt(fmt, j) == 't' then (NO_QUALIFIER, j) else QualifierAt(fmt, j)
  }

  /** The switch on the conversion character at j < |fmt|. */
  function ConvertAt(buf: string, fmt: string, i: nat, j: nat, width: s16, q: char): (t: Turned)
    requires j < |fmt| && i < |buf|
    ensures t.Go? ==> t.j == j + 1 && |t.outs| <= 1
    ensures t.Break? ==> t.j == j + 1
  {
    var c := fmt[j];
    if c == 'c' then
      var want: int := if width == -0x8000 then 0x8000 else if width <= 1 then 1 else width;
      var n := if i + want <= |buf| then want else |buf| - i;
      Go(i + n, j + 1, [Chars(buf[i..i + n])])
    else if c == 's' then
      var limit := if width == -1 then SHRT_MAX else width as int % TWO16;
      var p := SpacesEnd(buf, i);
      var e := WordEnd(buf, p, limit);
      Go(e, j + 1, [Word(Strto.Run(buf, p, e))])
    else if c == 'n' then Go(i, j + 1, [Position(i)])
    else if c == '%' then if buf[i] != '%' then Return else Go(i + 1, j + 1, [])
    else if IsIntegerChar(c) then
      match ConvertInteger(buf, i, q, BaseOf(c), c == 'i' || c == 'd')
      case Converted(out, e) => Go(e, j + 1, [out])
      case Mismatch(p) => Break(p, j + 1)
    else Return
  }

  /** After the `%` before j. */
  function DirectiveAt(buf: string, fmt: string, i: nat, j: nat): (t: Turned)
    requires 1 <= j <= |fmt|
    ensures t.Go? || t.Break? ==> j <= t.j <= |fmt|
    ensures t.Go? ==> |t.outs| <= 1
  {
    if CharAt(fmt, j) == '*' then Go(WordEnd(buf, i, |buf|), SkippedEnd(fmt, j), [])
    else
      var d := DigitsEnd(fmt, j);
      var width: s16 := if d == j then -1 else ToS16(Value(fmt[j..d], 10));
      var (q, p) := ScanQualifier(fmt, d);
      if p == |fmt| || i >= |buf| then Break(i, p) else ConvertAt(buf, fmt, i, p, width, q)
  }

  /** One turn of the loop, both strings having something left. */
  function TurnAt(buf: string, fmt: string, i0: nat, j0: nat): (t: Turned)
    requires i0 < |buf| && j0 < |fmt|
    ensures t.Go? || t.Break? ==> j0 < t.j <= |fmt|
    ensures t.Go? ==> |t.outs| <= 1
  {
    var spaced := IsSpace(fmt[j0]);
    var j := if spaced then SpacesEnd(fmt, j0 + 1) else j0;
    var i := if spaced then SpacesEnd(buf, i0) else i0;
    if j == |fmt| then Break(i, j)
    else if fmt[j] != '%' then
      if fmt[j] != CharAt(buf, i) then Break(i + 1, j + 1) else Go(i + 1, j + 1, [])
    else DirectiveAt(buf, fmt, i, j + 1)
  }

  // ------------------------------------------------------------------ the scan

  /** A final `%n` is filled even when the input has ended. */
  function Finish(fmt: string, i: nat, j: nat): seq<Stored> {
    if CharAt(fmt, j) == '%' && CharAt(fmt, j + 1) == 'n' then [Position(i)] else []
  }

  /** Everything stored from here on, in order. */
  function Scan(buf: string, fmt: string, i: nat, j: nat): seq<Stored>
    requires j <= |fmt|
    decreases |fmt| - j
  {
    if j == |fmt| || i >= |buf| then Finish(fmt, i, j)
    else
      match TurnAt(buf, fmt, i, j)
      case Return => []
      case Break(i', j') => Finish(fmt, i', j')
      case Go(i', j', outs) => outs + Scan(buf, fmt, i', j')
  }

  /** The conversions that vsscanf counts. */
  function Conversions(outs: seq<Stored>): nat {
    if outs == [] then 0
    else Conversions(outs[..|outs| - 1]) + (if outs[|outs| - 1].Position? then 0 else 1)
  }

  // --------------------------------------------------------------- the scanner

  method SkipSpaces(s: string, i: nat) returns (e: nat)
    ensures e == SpacesEnd(s, i)
  {
    e := i;
    while IsSpace(CharAt(s, e))
      invariant i <= e && SpacesEnd(s, e) == SpacesEnd(s, i)
      decreases if e <= |s| then |s| - e else 0
    {
      e := e + 1;
    }
  }

  /** %c: a do-while loop over a 16-bit width. */
  method ReadChars(buf: string, i: nat, width: s16) returns (s: string, e: nat)
    requires i < |buf|
    ensures var want: int := if width == -0x8000 then 0x8000 else if width <= 1 then 1 else width;
            e == (if i + want <= |buf| then i + want else |buf|) && s == buf[i..e]
  {
    ghost var want: int := if width == -0x8000 then 0x8000 else if width <= 1 then 1 else width;
    s, e := [buf[i]], i + 1;
    var w := ToS16(width as int - 1);
    while w > 0 && e < |buf|
      invariant i < e <= |buf| && e - i <= want && s == buf[i..e]
      invariant w > 0 ==> w == want - (e - i)
      invariant w <= 0 ==> e - i == want
    {
      s, e := s + [buf[e]], e + 1;
      w := w - 1;
    }
  }

  /** %s: up to white space, within a 16-bit width. */
  method ReadWord(buf: string, i: nat, width0: s16) returns (s: string, e: nat)
    ensures e == WordEnd(buf, i, width0 as int % TWO16) && s == Strto.Run(buf, i, e)
  {
    hide Strto.Run;
    Strto.EmptyRun(buf, i, 10);
    s, e := "", i;
    var width: int := width0;
    ghost var limit := width0 as int % TWO16;
    while e < |buf| && !IsSpace(buf[e]) && width != 0
      invariant i <= e && (e == i || e <= |buf|) && s == Strto.Run(buf, i, e)
      invariant 0 <= limit && (width == limit || width == limit - TWO16)
      invariant WordEnd(buf, e, limit) == WordEnd(buf, i, width0 as int % TWO16)
      invariant -0x8000 <= width < 0x8000
      decreases limit
    {
      Strto.RunText(buf, i, e);
      s, e := s + [buf[e]], e + 1;
      width, limit := ToS16(width - 1), limit - 1;
    }
  }

  method SkipConversion(buf: string, fmt: string, i: nat, j: nat) returns (i': nat, j': nat)
    requires j <= |fmt|
    ensures i' == WordEnd(buf, i, |buf|) && j' == SkippedEnd(fmt, j)
  {
    i', j' := i, j;
    while j' < |fmt| && !IsSpace(fmt[j']) && fmt[j'] != '%'
      invariant j <= j' <= |fmt| && SkippedEnd(fmt, j') == SkippedEnd(fmt, j)
    {
      j' := j' + 1;
    }
    ghost var limit := |buf|;
    while i' < |buf| && !IsSpace(buf[i'])
      invariant i <= i' && limit >= |buf| - i' && limit >= 0
      invariant WordEnd(buf, i', limit) == WordEnd(buf, i, |buf|)
    {
      i', limit := i' + 1, limit - 1;
    }
  }

  /** The integer conversions at the end of the loop. */
  method ReadInteger(buf: string, i0: nat, q: char, base: nat, signed: bool) returns (r: Converted)
    ensures r == ConvertInteger(buf, i0, q, base, signed)
  {
    hide ParseSigned, ParseUnsigned, SpacesEnd, Signed, Modulus, StoreSize, Convertible;
    var i := SkipSpaces(buf, i0);
    var digit := CharAt(buf, i);
    if signed && digit == '-' {
      digit := CharAt(buf, i + 1);
    }
    if !Convertible(digit, base) {
      return Mismatch(i);
    }
    var m := Modulus(StoreSize(q));
    if signed && q != 'z' && q != 'Z' {
      var p := SimpleStrtol(buf, i, base);
      r := Converted(Number(StoreSize(q), Signed(p.value, m)), p.end);
    } else {
      var p := SimpleStrtoull(buf, i, base);
      r := Converted(Number(StoreSize(q), p.value % m), p.end);
    }
  }

  method Convert(buf: string, fmt: string, i: nat, j: nat, width: s16, q: char) returns (t: Turned)
    requires j < |fmt| && i < |buf|
    ensures t == ConvertAt(buf, fmt, i, j, width, q)
  {
    var c := fmt[j];
    if c == 'c' {
      var s, e := ReadChars(buf, i, width);
      t := Go(e, j + 1, [Chars(s)]);
    } else if c == 's' {
      var p := SkipSpaces(buf, i);
      var s, e := ReadWord(buf, p, if width == -1 then SHRT_MAX else width);
      t := Go(e, j + 1, [Word(s)]);
    } else if c == 'n' {
      t := Go(i, j + 1, [Position(i)]);
    } else if c == '%' {
      t := if buf[i] != '%' then Return else Go(i + 1, j + 1, []);
    } else if IsIntegerChar(c) {
      var r := ReadInteger(buf, i, q, BaseOf(c), c == 'i' || c == 'd');
      t := match r case Converted(out, e) => Go(e, j + 1, [out]) case Mismatch(p) => Break(p, j + 1);
    } else {
      t := Return;
    }
  }

  method Turn(buf: string, fmt: string, i0: nat, j0: nat) returns (t: Turned)
    requires i0 < |buf| && j0 < |fmt|
    ensures t == TurnAt(buf, fmt, i0, j0)
  {
    hide DirectiveAt, SpacesEnd;
    var i, j := i0, j0;
    if IsSpace(fmt[j]) {
      j := SkipSpaces(fmt, j + 1);
      i := SkipSpaces(buf, i);
    }
    if j == |fmt| {
      return Break(i, j);
    }
    if fmt[j] != '%' {
      return if fmt[j] != CharAt(buf, i) then Break(i + 1, j + 1) else Go(i + 1, j + 1, []);
    }
    t := Directive(buf, fmt, i, j + 1);
  }

  method Directive(buf: string, fmt: string, i: nat, j0: nat) returns (t: Turned)
    requires 1 <= j0 <= |fmt|
    ensures t == DirectiveAt(buf, fmt, i, j0)
  {
    var j := j0;
    if CharAt(fmt, j) == '*' {
      var i', j' := SkipConversion(buf, fmt, i, j);
      return Go(i', j', []);
    }
    var width: s16 := -1;
    if IsDigit(CharAt(fmt, j)) {
      var v;
      v, j := SkipAtoi(fmt, j);
      width := ToS16(v);
    }
    var (q, p) := ScanQualifier(fmt, j);
    if p == |fmt| || i >= |buf| {
      return Break(i, p);
    }
    t := Convert(buf, fmt, i, p, width, q);
  }

  lemma ConversionsSnoc(outs: seq<Stored>, more: seq<Stored>)
    requires |more| <= 1
    ensures Conversions(outs + more) == Conversions(outs) + Conversions(more)
  {
    if more == [] {
      assert outs + more == outs;
    } else {
      assert (outs + more)[..|outs|] == outs;
      assert more[..0] == [];
    }
  }

  /** In the loop, past it, or returned. */
  datatype Phase = Inside | Outside | Finished

  /** With `outs` stored so far, what is still to come completes `all`. */
  ghost predicate Leads(buf: string, fmt: string, phase: Phase, i: nat, j: nat, num: nat, outs: seq<Stored>, all: seq<Stored>) {
    num == Conversions(outs)
    && match phase
       case Inside => j <= |fmt| && outs + Scan(buf, fmt, i, j) == all
       case Outside => outs + Finish(fmt, i, j) == all
       case Finished => outs == all
  }

  /** One step of Scan. */
  lemma ScanStep(buf: string, fmt: string, i: nat, j: nat)
    requires i < |buf| && j < |fmt|
    ensures Scan(buf, fmt, i, j)
         == match TurnAt(buf, fmt, i, j)
            case Return => []
            case Break(i', j') => Finish(fmt, i', j')
            case Go(i', j', more) => more + Scan(buf, fmt, i', j')
  {
  }

  lemma Accumulate(outs: seq<Stored>, more: seq<Stored>, rest: seq<Stored>, all: seq<Stored>)
    requires outs + (more + rest) == all
    ensures (outs + more) + rest == all
  {
  }

  /** One turn of the loop. */
  method ScanTurn(buf: string, fmt: string, i0: nat, j0: nat, num0: nat, outs0: seq<Stored>, ghost all: seq<Stored>)
    returns (phase: Phase, i: nat, j: nat, num: nat, outs: seq<Stored>)
    requires i0 < |buf| && j0 < |fmt| && Leads(buf, fmt, Inside, i0, j0, num0, outs0, all)
    ensures Leads(buf, fmt, phase, i, j, num, outs, all)
    ensures phase == Inside ==> j0 < j
  {
    num, outs := num0, outs0;
    ScanStep(buf, fmt, i0, j0);
    var t := Turn(buf, fmt, i0, j0);
    if t == Return {
      phase, i, j := Finished, i0, j0;
      assert outs == all;
    } else if t.Break? {
      phase, i, j := Outside, t.i, t.j;
    } else {
      ConversionsSnoc(outs, t.outs);
      Accumulate(outs, t.outs, Scan(buf, fmt, t.i, t.j), all);
      num, outs := num + Conversions(t.outs), outs + t.outs;
      phase, i, j := Inside, t.i, t.j;
    }
  }

  /** The `%n` after the loop. */
  method FinishScan(fmt: string, i: nat, j: nat, num0: nat, outs0: seq<Stored>) returns (num: nat, outs: seq<Stored>)
    requires num0 == Conversions(outs0)
    ensures outs == outs0 + Finish(fmt, i, j) && num == Conversions(outs)
  {
    num, outs := num0, outs0;
    ConversionsSnoc(outs, Finish(fmt, i, j));
    if CharAt(fmt, j) == '%' && CharAt(fmt, j + 1) == 'n' {
      outs := outs + [Position(i)];
    } else {
      assert outs + [] == outs;
    }
  }

  /** vsscanf: what was stored, and the number of conversions. */
  method Vsscanf(buf: cstring, fmt: cstring) returns (num: nat, outs: seq<Stored>)
    ensures outs == Scan(buf, fmt, 0, 0) && num == Conversions(outs)
  {
    var i: nat, j: nat, phase := 0, 0, Inside;
    ghost var all := Scan(buf, fmt, 0, 0);
    num, outs := 0, [];
    assert [] + all == all;
    while phase == Inside && j < |fmt| && i < |buf|
      invariant Leads(buf, fmt, phase, i, j, num, outs, all)
      decreases phase == Inside, |fmt| - j
    {
      phase, i, j, num, outs := ScanTurn(buf, fmt, i, j, num, outs, all);
    }
    if phase != Finished {
      num, outs := FinishScan(fmt, i, j, num, outs);
    }
  }
}
