/** Binary printf: vbin_printf packs the arguments of a format into words, bstr_printf
    prints the format from the packed words. */
module BinPrintf {
  import opened Bits
  import opened CType
  import opened FormatDecode
  import opened PrintfText
  import opened PrintfBuffer
  import opened Printf

  // -------------------------------------------------------------------- bytes

  function LeBytes(v: nat, n: nat): (s: seq<byte>)
    ensures |s| == n
  {
    if n == 0 then [] else [v % 256] + LeBytes(v / 256, n - 1)
  }

  function LeValue(s: seq<byte>): nat {
    if s == [] then 0
    else
      var b: nat := s[0];
      b + 256 * LeValue(s[1..])
  }

  lemma {:induction false} LeRoundTrip(v: nat, n: nat)
    requires v < Power(256, n)
    ensures LeValue(LeBytes(v, n)) == v
  {
    if n > 0 {
      LeRoundTrip(v / 256, n - 1);
      assert LeBytes(v, n)[1..] == LeBytes(v / 256, n - 1);
    }
  }

  // -------------------------------------------------------------- the packing

  /** Kinds whose argument is packed; `%n` only skips its argument. */
  predicate Saves(kind: Kind) {
    TakesArgument(kind) && kind != NrChars
  }

  function Size(kind: Kind): nat {
    match kind
    case Char => 1
    case UByte => 1
    case Byte => 1
    case UShort => 2
    case Short => 2
    case Width => 4
    case Precision => 4
    case UInt => 4
    case Int => 4
    case _ => 8
  }

  /** PTR_ALIGN: a value of eight bytes is aligned as two words. */
  function AlignUp(off: nat, size: nat): (r: nat)
    ensures off <= r < off + 4
  {
    if size == 1 then off else if size == 2 then (off + 1) / 2 * 2 else (off + 3) / 4 * 4
  }

  /** The low bytes of a slot that are packed. */
  function Low(kind: Kind, v: u64): nat {
    var n := Size(kind);
    if n == 1 then v % TWO8 else if n == 2 then v % TWO16 else if n == 4 then v % TWO32 else v
  }

  /** A cast needs no more than the packed bytes. */
  lemma CastOfLow(kind: Kind, v: u64)
    requires Saves(kind) && kind != Str
    ensures Low(kind, v) < TWO64 && Cast(kind, Low(kind, v)) == Cast(kind, v)
  {
    hide Signed;
    match kind
    case Byte => SignedOfLow(v, TWO8);
    case Short => SignedOfLow(v, TWO16);
    case Int => SignedOfLow(v, TWO32);
    case Char => OnceIsEnough(v, TWO8);
    case UByte => OnceIsEnough(v, TWO8);
    case UShort => OnceIsEnough(v, TWO16);
    case UInt => OnceIsEnough(v, TWO32);
    case Width => OnceIsEnough(v, TWO32);
    case Precision => OnceIsEnough(v, TWO32);
    case _ =>
  }

  lemma OnceIsEnough(v: u64, m: nat)
    requires m == TWO8 || m == TWO16 || m == TWO32
    ensures v % m % m == v % m < TWO64
  {
  }

  lemma SignedOfLow(v: u64, m: nat)
    requires m == TWO8 || m == TWO16 || m == TWO32
    ensures Signed(v % m, m) == Signed(v, m)
  {
  }

  lemma LowBound(kind: Kind, v: u64)
    ensures Low(kind, v) < Power(256, Size(kind))
  {
    assert Power(256, 1) == TWO8 && Power(256, 2) == TWO16;
    assert Power(256, 4) == TWO32 && Power(256, 8) == TWO64;
  }

  /** Bytes to be stored; a string is stored only if something is left after it. */
  datatype Item = Item(at: nat, data: seq<byte>, strict: bool)

  function End(it: Item): nat {
    it.at + |it.data|
  }

  predicate FitsIn(it: Item, cap: nat) {
    if it.strict then End(it) < cap else End(it) <= cap
  }

  function StringBytes(s: cstring): (b: seq<byte>)
    ensures |b| == |s| + 1
  {
    seq(|s|, i requires 0 <= i < |s| => s[i] as int) + [0]
  }

  function ItemOf(kind: Kind, args: seq<Arg>, k: nat, off: nat): (it: Item)
    requires Saves(kind)
    ensures off <= it.at
  {
    if kind == Str then Item(off, StringBytes(TextArg(args, k)), true)
    else Item(AlignUp(off, Size(kind)), LeBytes(Low(kind, Slot(args, k)), Size(kind)), false)
  }

  /** Where the next item goes. */
  function PackNext(kind: Kind, args: seq<Arg>, k: nat, off: nat): nat {
    if Saves(kind) then End(ItemOf(kind, args, k, off)) else off
  }

  datatype Image = Image(items: seq<Item>, end: nat)

  /** Items one after the other, from `off` to `end`. */
  predicate Ordered(items: seq<Item>, off: nat, end: nat)
    decreases |items|
  {
    if items == [] then off <= end
    else off <= items[0].at && Ordered(items[1..], End(items[0]), end)
  }

  /** What vbin_printf stores, and where it ends.  The widths and precisions it packs do
      not go into its own spec. */
  function Pack(fmt: string, pos: nat, spec: Spec, args: seq<Arg>, k: nat, off: nat): (im: Image)
    requires pos <= |fmt|
    ensures Ordered(im.items, off, im.end)
    decreases |fmt| - pos, Rank(spec)
  {
    if pos == |fmt| then Image([], off)
    else
      FormatProgress(fmt, pos, spec);
      var d := Decode(fmt, pos, spec);
      var k' := k + Taken(d.spec.kind);
      if Saves(d.spec.kind) then
        var it := ItemOf(d.spec.kind, args, k, off);
        var rest := Pack(fmt, Resume(fmt, d), d.spec, args, k', End(it));
        assert ([it] + rest.items)[1..] == rest.items;
        Image([it] + rest.items, rest.end)
      else Pack(fmt, Resume(fmt, d), d.spec, args, k', off)
  }

  function Store(mem: seq<byte>, it: Item): (r: seq<byte>)
    requires End(it) <= |mem|
    ensures |r| == |mem|
  {
    mem[..it.at] + it.data + mem[End(it)..]
  }

  function StoreAll(mem: seq<byte>, items: seq<Item>): (r: seq<byte>)
    ensures |r| == |mem|
    decreases |items|
  {
    if items == [] then mem
    else if FitsIn(items[0], |mem|) then StoreAll(Store(mem, items[0]), items[1..])
    else StoreAll(mem, items[1..])
  }

  /** `mem` holds the bytes of an item. */
  predicate Holds(mem: seq<byte>, it: Item) {
    End(it) <= |mem| && mem[it.at..End(it)] == it.data
  }

  // -------------------------------------------------------- reading them back

  function StringEnd(mem: seq<byte>, off: nat): (e: nat)
    requires off <= |mem|
    ensures off <= e <= |mem| && forall i | off <= i < e :: mem[i] != 0
    decreases |mem| - off
  {
    if off < |mem| && mem[off] != 0 then StringEnd(mem, off + 1) else off
  }

  function ReadString(mem: seq<byte>, off: nat): cstring {
    if off > |mem| then ""
    else seq(StringEnd(mem, off) - off, i requires 0 <= i < StringEnd(mem, off) - off => mem[off + i] as char)
  }

  /** get_arg; bytes beyond the buffer, undefined in C, read as 0. */
  function ReadNumber(mem: seq<byte>, at: nat, size: nat): u64
    requires size <= 8
  {
    if at + size <= |mem| then LeValue(mem[at..at + size]) % TWO64 else 0
  }

  function BinValue(kind: Kind, mem: seq<byte>, off: nat): (v: Value)
    ensures Fits(kind, v)
  {
    if kind == Str then Text(ReadString(mem, off))
    else if Saves(kind) then Num(Cast(kind, ReadNumber(mem, AlignUp(off, Size(kind)), Size(kind))))
    else Num(0)
  }

  function BinNext(kind: Kind, mem: seq<byte>, off: nat): nat {
    if kind == Str then off + |ReadString(mem, off)| + 1
    else if Saves(kind) then AlignUp(off, Size(kind)) + Size(kind)
    else off
  }

  /** The text of the format with its arguments taken from `mem` from `off` on. */
  function RenderBin(fmt: string, pos: nat, spec: Spec, mem: seq<byte>, off: nat, ext: Ext): string
    requires pos <= |fmt|
    decreases |fmt| - pos, Rank(spec)
  {
    if pos == |fmt| then ""
    else
      FormatProgress(fmt, pos, spec);
      var d := Decode(fmt, pos, spec);
      var v := BinValue(d.spec.kind, mem, off);
      TokenText(fmt, pos, d, v, ext)
      + RenderBin(fmt, Resume(fmt, d), Absorb(d.spec, v), mem, BinNext(d.spec.kind, mem, off), ext)
  }

  lemma {:induction false} StringEndIs(mem: seq<byte>, off: nat, e: nat)
    requires off <= e < |mem| && mem[e] == 0 && forall i | off <= i < e :: mem[i] != 0
    ensures StringEnd(mem, off) == e
    decreases e - off
  {
    if off < e {
      StringEndIs(mem, off + 1, e);
    }
  }

  lemma StringReadsBack(mem: seq<byte>, off: nat, s: cstring)
    requires Holds(mem, Item(off, StringBytes(s), true))
    ensures ReadString(mem, off) == s
  {
    var b := StringBytes(s);
    assert forall i | 0 <= i < |b| :: mem[off + i] == mem[off..off + |b|][i] == b[i];
    forall i | off <= i < off + |s| ensures mem[i] != 0 && mem[i] == s[i - off] as int {
      assert mem[i] == mem[off..off + |b|][i - off];
    }
    StringEndIs(mem, off, off + |s|);
  }

  lemma NumberReadsBack(mem: seq<byte>, kind: Kind, v: u64, at: nat)
    requires Saves(kind) && kind != Str
    requires Holds(mem, Item(at, LeBytes(Low(kind, v), Size(kind)), false))
    ensures Cast(kind, ReadNumber(mem, at, Size(kind))) == Cast(kind, v)
  {
    hide Cast, Low, LeBytes, LeValue, Power;
    CastOfLow(kind, v);
    LowBound(kind, v);
    LeRoundTrip(Low(kind, v), Size(kind));
  }

  /** A packed argument reads back as the argument. */
  lemma ItemReadsBack(mem: seq<byte>, kind: Kind, args: seq<Arg>, k: nat, off: nat)
    requires Saves(kind) && Holds(mem, ItemOf(kind, args, k, off))
    ensures BinValue(kind, mem, off) == ArgValue(kind, args, k)
    ensures BinNext(kind, mem, off) == End(ItemOf(kind, args, k, off))
  {
    if kind == Str {
      StringReadsBack(mem, off, TextArg(args, k));
    } else {
      NumberReadsBack(mem, kind, Slot(args, k), AlignUp(off, Size(kind)));
    }
  }

  /** One token: its text, and the spec it leaves, are the same from packed and from original arguments. */
  lemma TokenAgrees(fmt: string, pos: nat, spec: Spec, args: seq<Arg>, k: nat, mem: seq<byte>, off: nat, ext: Ext)
    requires pos < |fmt|
    requires var kind := Decode(fmt, pos, spec).spec.kind; Saves(kind) ==> Holds(mem, ItemOf(kind, args, k, off))
    ensures var d := Decode(fmt, pos, spec);
            var v, w := BinValue(d.spec.kind, mem, off), ArgValue(d.spec.kind, args, k);
            Fits(d.spec.kind, w)
            && TokenText(fmt, pos, d, v, ext) == TokenText(fmt, pos, d, w, ext) && Absorb(d.spec, v) == Absorb(d.spec, w)
            && (Saves(d.spec.kind) ==> BinNext(d.spec.kind, mem, off) == End(ItemOf(d.spec.kind, args, k, off)))
            && (!Saves(d.spec.kind) ==> BinNext(d.spec.kind, mem, off) == off)
  {
    hide Decode, NumberText, StringText, CharText, PointerText, Holds;
    var d := Decode(fmt, pos, spec);
    ArgFits(d.spec.kind, args, k);
    if Saves(d.spec.kind) {
      ItemReadsBack(mem, d.spec.kind, args, k, off);
    }
  }

  /** The same token, seen by the packing and by the printing spec: both go on to the same
      place, still akin, and the printing is nearer its end. */
  lemma Onward(fmt: string, pos: nat, packing: Spec, spec: Spec, args: seq<Arg>, k: nat)
    requires pos < |fmt| && Kin(packing, spec)
    ensures var d, p := Decode(fmt, pos, spec), Decode(fmt, pos, packing);
            var v := ArgValue(d.spec.kind, args, k);
            && p.spec.kind == d.spec.kind && p.next == d.next && Fits(d.spec.kind, v)
            && Resume(fmt, p) == Resume(fmt, d) && Kin(p.spec, Absorb(d.spec, v))
            && (Resume(fmt, d) > pos || (Resume(fmt, d) == pos && Rank(Absorb(d.spec, v)) < Rank(spec)))
  {
    hide Decode, Absorb, ArgValue, Fits, AlnumEnd;
    DecodeKin(fmt, pos, packing, spec);
    FormatProgress(fmt, pos, spec);
    ArgFits(Decode(fmt, pos, spec).spec.kind, args, k);
  }

  /** The token at hand reads its argument back; so if the rest agrees, all does. */
  lemma AgreesBefore(fmt: string, pos: nat, spec: Spec, args: seq<Arg>, k: nat, mem: seq<byte>, off: nat, ext: Ext)
    requires pos < |fmt|
    requires var kind := Decode(fmt, pos, spec).spec.kind; Saves(kind) ==> Holds(mem, ItemOf(kind, args, k, off))
    requires var d := Decode(fmt, pos, spec);
             var v := ArgValue(d.spec.kind, args, k);
             && Fits(d.spec.kind, v)
             && RenderBin(fmt, Resume(fmt, d), Absorb(d.spec, v), mem, PackNext(d.spec.kind, args, k, off), ext)
                == Render(fmt, Resume(fmt, d), Absorb(d.spec, v), args, k + Taken(d.spec.kind), ext)
    ensures RenderBin(fmt, pos, spec, mem, off, ext) == Render(fmt, pos, spec, args, k, ext)
  {
    hide Decode, Render, RenderBin, TokenText, Holds, ItemOf, BinValue, BinNext, ArgValue, Absorb, Resume, Fits;
    TokenAgrees(fmt, pos, spec, args, k, mem, off, ext);
    RenderStep(fmt, pos, spec, args, k, ext);
    RenderBinStep(fmt, pos, spec, mem, off, ext);
  }

  predicate AllHeld(mem: seq<byte>, items: seq<Item>) {
    forall it | it in items :: Holds(mem, it)
  }

  lemma HeldRest(fmt: string, pos: nat, packing: Spec, args: seq<Arg>, k: nat, off: nat, mem: seq<byte>)
    requires pos < |fmt| && AllHeld(mem, Pack(fmt, pos, packing, args, k, off).items)
    ensures var p := Decode(fmt, pos, packing);
            var kind := p.spec.kind;
            && AllHeld(mem, Pack(fmt, Resume(fmt, p), p.spec, args, k + Taken(kind), PackNext(kind, args, k, off)).items)
            && (Saves(kind) ==> Holds(mem, ItemOf(kind, args, k, off)))
  {
    hide Decode, Pack, ItemOf, Holds, Resume;
    PackStep(fmt, pos, packing, args, k, off);
  }

  /** Printing from memory that holds the packed arguments prints what the arguments print,
      although the packing ran with a spec that never saw a width or precision. */
  lemma {:induction false} RenderAgrees(fmt: string, pos: nat, packing: Spec, spec: Spec,
                                        args: seq<Arg>, k: nat, mem: seq<byte>, off: nat, ext: Ext)
    requires pos <= |fmt| && Kin(packing, spec)
    requires AllHeld(mem, Pack(fmt, pos, packing, args, k, off).items)
    ensures RenderBin(fmt, pos, spec, mem, off, ext) == Render(fmt, pos, spec, args, k, ext)
    decreases |fmt| - pos, Rank(spec)
  {
    hide *;
    if pos == |fmt| {
      RenderEnd(fmt, spec, args, k, ext);
      RenderBinEnd(fmt, spec, mem, off, ext);
    } else {
      var d, p := Decode(fmt, pos, spec), Decode(fmt, pos, packing);
      var kind := d.spec.kind;
      Onward(fmt, pos, packing, spec, args, k);
      HeldRest(fmt, pos, packing, args, k, off, mem);
      RenderAgrees(fmt, Resume(fmt, d), p.spec, Absorb(d.spec, ArgValue(kind, args, k)), args,
                   k + Taken(kind), mem, PackNext(kind, args, k, off), ext);
      AgreesBefore(fmt, pos, spec, args, k, mem, off, ext);
    }
  }

  lemma RenderBinStep(fmt: string, pos: nat, spec: Spec, mem: seq<byte>, off: nat, ext: Ext)
    requires pos < |fmt|
    ensures var d := Decode(fmt, pos, spec);
            var v := BinValue(d.spec.kind, mem, off);
            RenderBin(fmt, pos, spec, mem, off, ext)
            == TokenText(fmt, pos, d, v, ext)
               + RenderBin(fmt, Resume(fmt, d), Absorb(d.spec, v), mem, BinNext(d.spec.kind, mem, off), ext)
  {
    hide Decode, TokenText, BinValue, BinNext, Absorb, AlnumEnd;
    FormatProgress(fmt, pos, spec);
  }

  lemma RenderBinEnd(fmt: string, spec: Spec, mem: seq<byte>, off: nat, ext: Ext)
    ensures RenderBin(fmt, |fmt|, spec, mem, off, ext) == ""
  {
  }

  /** One step of Pack. */
  lemma PackStep(fmt: string, pos: nat, spec: Spec, args: seq<Arg>, k: nat, off: nat)
    requires pos < |fmt|
    ensures var d := Decode(fmt, pos, spec);
            var kind := d.spec.kind;
            var rest := Pack(fmt, Resume(fmt, d), d.spec, args, k + Taken(kind), PackNext(kind, args, k, off));
            var im := Pack(fmt, pos, spec, args, k, off);
            im.items == (if Saves(kind) then [ItemOf(kind, args, k, off)] else []) + rest.items && im.end == rest.end
  {
    hide Decode, ItemOf, AlnumEnd;
    FormatProgress(fmt, pos, spec);
  }

  // ------------------------------------------------- packing leaves the items

  lemma {:induction false} OrderedEnds(items: seq<Item>, off: nat, end: nat)
    requires Ordered(items, off, end)
    ensures off <= end && forall it | it in items :: off <= it.at && End(it) <= end
    decreases |items|
  {
    if items != [] {
      OrderedEnds(items[1..], End(items[0]), end);
    }
  }

  /** What is stored stays, as the items do not overlap. */
  lemma {:induction false} StoreAllHolds(mem: seq<byte>, items: seq<Item>, off: nat, end: nat)
    requires Ordered(items, off, end) && off <= end <= |mem|
    ensures StoreAll(mem, items)[..off] == mem[..off]
    ensures forall it | it in items && FitsIn(it, |mem|) :: Holds(StoreAll(mem, items), it)
    decreases |items|
  {
    if items != [] {
      var it := items[0];
      OrderedEnds(items[1..], End(it), end);
      var m := if FitsIn(it, |mem|) then Store(mem, it) else mem;
      StoreAllHolds(m, items[1..], End(it), end);
      var r := StoreAll(m, items[1..]);
      assert r[..off] == m[..off] == mem[..off] by {
        assert r[..End(it)][..off] == r[..off];
        assert m[..End(it)][..off] == m[..off];
      }
      assert r[it.at..End(it)] == m[it.at..End(it)] by {
        assert r[..End(it)][it.at..] == r[it.at..End(it)];
        assert m[..End(it)][it.at..] == m[it.at..End(it)];
      }
    }
  }

  /** The words vbin_printf reports. */
  function Words(im: Image): nat {
    (im.end + 3) / 4
  }

  function Packed(fmt: string, args: seq<Arg>): Image {
    Pack(fmt, 0, ZERO_SPEC, args, 0, 0)
  }

  // ------------------------------------------------------------ the functions

  /** Stores bytes one by one. */
  method StoreBytes(bin: array<byte>, it: Item)
    requires End(it) <= bin.Length
    modifies bin
    ensures bin[..] == Store(old(bin[..]), it)
  {
    ghost var m := bin[..];
    var i := 0;
    while i < |it.data|
      invariant 0 <= i <= |it.data|
      invariant forall j | 0 <= j < i :: bin[..][it.at + j] == it.data[j]
      invariant bin[..][..it.at] == m[..it.at] && bin[..][it.at + i..] == m[it.at + i..]
    {
      ghost var b := bin[..];
      bin[it.at + i] := it.data[i];
      assert bin[..] == b[it.at + i := it.data[i]];
      i := i + 1;
    }
    Spliced(bin[..], m, it);
  }

  lemma Spliced(b: seq<byte>, m: seq<byte>, it: Item)
    requires |b| == |m| && End(it) <= |m| && b[..it.at] == m[..it.at] && b[End(it)..] == m[End(it)..]
    requires forall j | 0 <= j < |it.data| :: b[it.at + j] == it.data[j]
    ensures b == Store(m, it)
  {
    assert b[it.at..End(it)] == it.data;
    assert b == b[..it.at] + b[it.at..End(it)] + b[End(it)..];
  }

  /** save_arg, and its counterpart for strings. */
  method SaveArg(bin: array<byte>, str: nat, kind: Kind, args: seq<Arg>, k: nat) returns (str': nat)
    requires Saves(kind)
    modifies bin
    ensures var it := ItemOf(kind, args, k, str);
            str' == End(it) && bin[..] == if FitsIn(it, bin.Length) then Store(old(bin[..]), it) else old(bin[..])
  {
    var it := ItemOf(kind, args, k, str);
    if FitsIn(it, bin.Length) {
      StoreBytes(bin, it);
    }
    str' := End(it);
  }

  lemma StoreAllCons(mem: seq<byte>, it: Item, rest: seq<Item>)
    ensures StoreAll(mem, [it] + rest) == StoreAll(if FitsIn(it, |mem|) then Store(mem, it) else mem, rest)
  {
    assert ([it] + rest)[1..] == rest;
  }

  lemma PackNextIs(kind: Kind, args: seq<Arg>, k: nat, off: nat)
    ensures PackNext(kind, args, k, off) == if Saves(kind) then End(ItemOf(kind, args, k, off)) else off
  {
  }

  /** One turn of vbin_printf's loop. */
  method PackTurn(bin: array<byte>, fmt: cstring, args: seq<Arg>, pos0: nat, k0: nat, spec0: Spec, str0: nat)
    returns (pos: nat, k: nat, spec: Spec, str: nat)
    requires pos0 < |fmt|
    modifies bin
    ensures pos <= |fmt| && (pos > pos0 || (pos == pos0 && Rank(spec) < Rank(spec0)))
    ensures var im, rest := Pack(fmt, pos0, spec0, args, k0, str0), Pack(fmt, pos, spec, args, k, str);
            im.end == rest.end && StoreAll(bin[..], rest.items) == StoreAll(old(bin[..]), im.items)
  {
    hide *;
    FormatProgress(fmt, pos0, spec0);
    PackStep(fmt, pos0, spec0, args, k0, str0);
    var d := DecodeFormat(fmt, pos0, spec0);
    ResumeIs(fmt, d);
    PackNextIs(d.spec.kind, args, k0, str0);
    pos, k, spec, str := d.next, k0 + Taken(d.spec.kind), d.spec, str0;
    ghost var kind := spec.kind;
    ghost var rest := Pack(fmt, Resume(fmt, d), spec, args, k, PackNext(kind, args, k0, str0));
    if Saves(spec.kind) {
      StoreAllCons(bin[..], ItemOf(kind, args, k0, str0), rest.items);
      str := SaveArg(bin, str, spec.kind, args, k0);
    } else {
      assert [] + rest.items == rest.items;
    }
    if spec.kind == Ptr {
      pos := SkipAlnum(fmt, pos);
    }
    assert Pack(fmt, pos, spec, args, k, str) == rest;
  }

  /** vbin_printf. */
  method VbinPrintf(bin: array<byte>, size: nat, fmt: cstring, args: seq<Arg>) returns (words: nat)
    requires bin.Length == 4 * size
    modifies bin
    ensures words == Words(Packed(fmt, args)) && bin[..] == StoreAll(old(bin[..]), Packed(fmt, args).items)
  {
    var pos: nat, k: nat, spec, str: nat := 0, 0, ZERO_SPEC, 0;
    ghost var im := Packed(fmt, args);
    while pos < |fmt|
      invariant pos <= |fmt| && Pack(fmt, pos, spec, args, k, str).end == im.end
      invariant StoreAll(bin[..], Pack(fmt, pos, spec, args, k, str).items) == StoreAll(old(bin[..]), im.items)
      decreases |fmt| - pos, Rank(spec)
    {
      pos, k, spec, str := PackTurn(bin, fmt, args, pos, k, spec, str);
    }
    words := (str + 3) / 4;
  }

  /** One turn of bstr_printf's loop. */
  method BinTurn(buf: array<char>, size: nat, fmt: cstring, mem: seq<byte>, ext: Ext, pos0: nat, off0: nat, spec0: Spec, str0: nat,
                 ghost b0: seq<char>, ghost text0: string, ghost whole: string)
    returns (pos: nat, off: nat, spec: Spec, str: nat, ghost text: string)
    requires size <= buf.Length && pos0 < |fmt|
    requires Printed(buf[..], b0, size, str0, text0, RenderBin(fmt, pos0, spec0, mem, off0, ext), whole)
    modifies buf
    ensures pos <= |fmt| && (pos > pos0 || (pos == pos0 && Rank(spec) < Rank(spec0)))
    ensures Printed(buf[..], b0, size, str, text, RenderBin(fmt, pos, spec, mem, off, ext), whole)
  {
    hide *;
    FormatProgress(fmt, pos0, spec0);
    RenderBinStep(fmt, pos0, spec0, mem, off0, ext);
    var d := DecodeFormat(fmt, pos0, spec0);
    ResumeIs(fmt, d);
    IntegerBase(fmt, pos0, spec0);
    var v := BinValue(d.spec.kind, mem, off0);
    ghost var t := TokenText(fmt, pos0, d, v, ext);
    pos, off, spec := d.next, BinNext(d.spec.kind, mem, off0), Absorb(d.spec, v);
    if spec.kind == Ptr {
      pos := SkipAlnum(fmt, pos);
    }
    SameRank(d.spec, spec);
    PrintedMore(buf[..], b0, size, str0, text0, t, RenderBin(fmt, pos, spec, mem, off, ext), whole);
    str := PrintToken(buf, str0, size, fmt, pos0, d, v, ext);
    text := text0 + t;
  }

  method BinLoop(buf: array<char>, size: nat, fmt: cstring, mem: seq<byte>, ext: Ext) returns (str: nat)
    requires size <= buf.Length
    modifies buf
    ensures var text := RenderBin(fmt, 0, ZERO_SPEC, mem, 0, ext);
            str == |text| && buf[..] == Put(old(buf[..]), 0, size, text)
  {
    var pos: nat, off: nat, spec := 0, 0, ZERO_SPEC;
    ghost var b0, whole, text := buf[..], RenderBin(fmt, 0, ZERO_SPEC, mem, 0, ext), "";
    str := 0;
    PutNothing(b0, 0, size);
    assert "" + whole == whole;
    while pos < |fmt|
      invariant pos <= |fmt|
      invariant Printed(buf[..], b0, size, str, text, RenderBin(fmt, pos, spec, mem, off, ext), whole)
      decreases |fmt| - pos, Rank(spec)
    {
      pos, off, spec, str, text := BinTurn(buf, size, fmt, mem, ext, pos, off, spec, str, b0, text, whole);
    }
    assert text + "" == text;
  }

  /** bstr_printf. */
  method BstrPrintf(buf: array<char>, size: nat, fmt: cstring, mem: seq<byte>, ext: Ext) returns (ret: nat)
    requires size <= buf.Length
    modifies buf
    ensures !OutOfRange(size) ==> Delivered(old(buf[..]), buf[..], size, ret, RenderBin(fmt, 0, ZERO_SPEC, mem, 0, ext))
    ensures OutOfRange(size) ==> ret == 0 && buf[..] == old(buf[..])
  {
    if OutOfRange(size) {
      return 0;
    }
    ret := BinLoop(buf, size, fmt, mem, ext);
    Terminate(buf, size, ret, old(buf[..]), RenderBin(fmt, 0, ZERO_SPEC, mem, 0, ext));
  }
}
