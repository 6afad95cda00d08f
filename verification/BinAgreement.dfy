/** When bstr_printf, on what vbin_printf packed, prints what printf prints. */
module BinAgreement {
  import opened Bits
  import opened CType
  import opened FormatDecode
  import opened Digits
  import opened PrintfText
  import opened Printf
  import opened BinPrintf

  // ------------------------------------------------------- what gets stored

  lemma {:induction false} PackedNonempty(fmt: string, pos: nat, spec: Spec, args: seq<Arg>, k: nat, off: nat)
    requires pos <= |fmt|
    ensures forall it | it in Pack(fmt, pos, spec, args, k, off).items :: |it.data| >= 1
    decreases |fmt| - pos, Rank(spec)
  {
    hide *;
    if pos == |fmt| {
      PackEnd(fmt, spec, args, k, off);
    } else {
      var d := Decode(fmt, pos, spec);
      FormatProgress(fmt, pos, spec);
      PackStep(fmt, pos, spec, args, k, off);
      PackedNonempty(fmt, Resume(fmt, d), d.spec, args, k + Taken(d.spec.kind), PackNext(d.spec.kind, args, k, off));
      if Saves(d.spec.kind) {
        ItemNonempty(d.spec.kind, args, k, off);
      }
    }
  }

  lemma ItemNonempty(kind: Kind, args: seq<Arg>, k: nat, off: nat)
    requires Saves(kind)
    ensures |ItemOf(kind, args, k, off).data| >= 1
  {
    hide LeBytes, StringBytes, TextArg, Low, AlignUp;
  }

  /** The packing ends where its last item does. */
  lemma {:induction false} PackedEnds(fmt: string, pos: nat, spec: Spec, args: seq<Arg>, k: nat, off: nat, cap: nat)
    requires pos <= |fmt| && off <= cap
    requires forall it | it in Pack(fmt, pos, spec, args, k, off).items :: End(it) <= cap
    ensures Pack(fmt, pos, spec, args, k, off).end <= cap
    decreases |fmt| - pos, Rank(spec)
  {
    hide *;
    if pos == |fmt| {
      PackEnd(fmt, spec, args, k, off);
    } else {
      var d := Decode(fmt, pos, spec);
      var kind := d.spec.kind;
      FormatProgress(fmt, pos, spec);
      PackStep(fmt, pos, spec, args, k, off);
      PackNextIs(kind, args, k, off);
      if Saves(kind) {
        assert ItemOf(kind, args, k, off) in Pack(fmt, pos, spec, args, k, off).items;
      }
      PackedEnds(fmt, Resume(fmt, d), d.spec, args, k + Taken(kind), PackNext(kind, args, k, off), cap);
    }
  }

  /** A string ends exactly at the end of the buffer. */
  predicate StringFlush(im: Image, cap: nat) {
    exists it | it in im.items :: it.strict && End(it) == cap
  }

  /** Everything is stored exactly when the reported words fit and no string would end flush
      with the buffer: the store of a string asks for one byte more. */
  lemma AllStored(fmt: string, args: seq<Arg>, size: nat)
    ensures var im := Packed(fmt, args);
            (forall it | it in im.items :: FitsIn(it, 4 * size)) <==> Words(im) <= size && !StringFlush(im, 4 * size)
    ensures Words(Packed(fmt, args)) < size ==> !StringFlush(Packed(fmt, args), 4 * size)
  {
    hide Pack;
    var im := Packed(fmt, args);
    OrderedEnds(im.items, 0, im.end);
    if forall it | it in im.items :: End(it) <= 4 * size {
      PackedEnds(fmt, 0, ZERO_SPEC, args, 0, 0, 4 * size);
    }
  }

  /** A flush item comes last: every other one ends where it starts, or before. */
  lemma {:induction false} FlushIsLast(items: seq<Item>, off: nat, end: nat, it: Item, other: Item)
    requires Ordered(items, off, end) && (forall x | x in items :: |x.data| >= 1)
    requires it in items && other in items && End(it) == end
    ensures other == it || End(other) <= it.at
    decreases |items|
  {
    OrderedEnds(items[1..], End(items[0]), end);
    if other in items[1..] && it in items[1..] {
      FlushIsLast(items[1..], End(items[0]), end, it, other);
    }
  }

  /** Nothing changes beyond the items that are stored. */
  lemma {:induction false} StoreAllBelow(mem: seq<byte>, items: seq<Item>, a: nat)
    requires a <= |mem| && forall it | it in items && FitsIn(it, |mem|) :: End(it) <= a
    ensures StoreAll(mem, items)[a..] == mem[a..]
    decreases |items|
  {
    if items != [] {
      var it := items[0];
      var m := if FitsIn(it, |mem|) then Store(mem, it) else mem;
      StoreAllBelow(m, items[1..], a);
      assert m[a..] == mem[a..];
    }
  }

  // ----------------------------------------------------- the condition itself

  /** From here on, a string directive whose precision is not 0 packs its string flush with the
      end of the buffer. */
  predicate Exposed(fmt: string, pos: nat, spec: Spec, args: seq<Arg>, k: nat, off: nat, cap: nat)
    requires pos <= |fmt|
    decreases |fmt| - pos, Rank(spec)
  {
    pos < |fmt| &&
    (FormatProgress(fmt, pos, spec);
     var d := Decode(fmt, pos, spec);
     var kind := d.spec.kind;
     ArgFits(kind, args, k);
     var next := PackNext(kind, args, k, off);
     || (kind == Str && next == cap && d.spec.precision != 0)
     || Exposed(fmt, Resume(fmt, d), Absorb(d.spec, ArgValue(kind, args, k)), args, k + Taken(kind), next, cap))
  }

  predicate FlushExposed(fmt: string, args: seq<Arg>, cap: nat) {
    Exposed(fmt, 0, ZERO_SPEC, args, 0, 0, cap)
  }

  lemma ExposedStep(fmt: string, pos: nat, spec: Spec, args: seq<Arg>, k: nat, off: nat, cap: nat)
    requires pos < |fmt|
    ensures var d := Decode(fmt, pos, spec);
            var kind, next := d.spec.kind, PackNext(d.spec.kind, args, k, off);
            && Fits(kind, ArgValue(kind, args, k))
            && (Exposed(fmt, pos, spec, args, k, off, cap)
                <==> (kind == Str && next == cap && d.spec.precision != 0)
                     || Exposed(fmt, Resume(fmt, d), Absorb(d.spec, ArgValue(kind, args, k)), args, k + Taken(kind), next, cap))
  {
    hide Decode, Absorb, AlnumEnd, ArgValue, Fits, PackNext;
    FormatProgress(fmt, pos, spec);
    ArgFits(Decode(fmt, pos, spec).spec.kind, args, k);
  }

  /** An exposed directive has its string among the items, flush. */
  lemma {:induction false} ExposedPacks(fmt: string, pos: nat, packing: Spec, spec: Spec, args: seq<Arg>, k: nat, off: nat, cap: nat)
    requires pos <= |fmt| && Kin(packing, spec) && Exposed(fmt, pos, spec, args, k, off, cap)
    ensures StringFlush(Pack(fmt, pos, packing, args, k, off), cap)
    decreases |fmt| - pos, Rank(spec)
  {
    hide *;
    assert pos < |fmt| by { NotExposedAtEnd(fmt, spec, args, k, off, cap); }
    var d, p := Decode(fmt, pos, spec), Decode(fmt, pos, packing);
    var kind := d.spec.kind;
    var next := PackNext(kind, args, k, off);
    Onward(fmt, pos, packing, spec, args, k);
    ExposedStep(fmt, pos, spec, args, k, off, cap);
    if !(kind == Str && next == cap) {
      var rest := Absorb(d.spec, ArgValue(kind, args, k));
      ExposedPacks(fmt, Resume(fmt, d), p.spec, rest, args, k + Taken(kind), next, cap);
    }
    FlushAmong(fmt, pos, packing, args, k, off, cap);
  }

  /** A flush string, at hand or later, is among the items. */
  lemma FlushAmong(fmt: string, pos: nat, packing: Spec, args: seq<Arg>, k: nat, off: nat, cap: nat)
    requires pos < |fmt|
    requires var p := Decode(fmt, pos, packing);
             var kind, next := p.spec.kind, PackNext(p.spec.kind, args, k, off);
             || (kind == Str && next == cap)
             || StringFlush(Pack(fmt, Resume(fmt, p), p.spec, args, k + Taken(kind), next), cap)
    ensures StringFlush(Pack(fmt, pos, packing, args, k, off), cap)
  {
    hide Decode, Pack, Resume, StringBytes, LeBytes, Ordered, TextArg;
    PackStep(fmt, pos, packing, args, k, off);
    var p, items := Decode(fmt, pos, packing), Pack(fmt, pos, packing, args, k, off).items;
    var kind, next := p.spec.kind, PackNext(p.spec.kind, args, k, off);
    if kind == Str && next == cap {
      assert ItemOf(kind, args, k, off) in items;
    } else {
      var it :| it in Pack(fmt, Resume(fmt, p), p.spec, args, k + Taken(kind), next).items && it.strict && End(it) == cap;
      assert it in items;
    }
  }

  lemma NotExposedAtEnd(fmt: string, spec: Spec, args: seq<Arg>, k: nat, off: nat, cap: nat)
    ensures !Exposed(fmt, |fmt|, spec, args, k, off, cap)
  {
  }

  // ---------------------------------------------------- after a flush string

  lemma SomethingBeyond(items: seq<Item>, off: nat, end: nat)
    requires items != [] && Ordered(items, off, end) && |items[0].data| >= 1
    ensures off < end
  {
    OrderedEnds(items[1..], End(items[0]), end);
  }

  lemma PackEnd(fmt: string, spec: Spec, args: seq<Arg>, k: nat, off: nat)
    ensures Pack(fmt, |fmt|, spec, args, k, off) == Image([], off)
  {
  }

  /** Whether anything is packed from here on does not depend on the offset. */
  lemma {:induction false} NothingPacked(fmt: string, pos: nat, spec: Spec, args: seq<Arg>, k: nat, off: nat, off': nat)
    requires pos <= |fmt| && Pack(fmt, pos, spec, args, k, off).items == []
    ensures Pack(fmt, pos, spec, args, k, off').items == []
    decreases |fmt| - pos, Rank(spec)
  {
    hide Decode, Pack, AlnumEnd, ItemOf;
    if pos == |fmt| {
      PackEnd(fmt, spec, args, k, off');
    } else {
      var d := Decode(fmt, pos, spec);
      FormatProgress(fmt, pos, spec);
      PackStep(fmt, pos, spec, args, k, off);
      PackStep(fmt, pos, spec, args, k, off');
      NothingPacked(fmt, Resume(fmt, d), d.spec, args, k + Taken(d.spec.kind), off, off');
    }
  }

  /** After a flush string nothing is packed, and what is printed does not depend on the memory. */
  lemma AfterFlush(fmt: string, pos: nat, packing: Spec, spec: Spec, args: seq<Arg>, k: nat, cap: nat,
                   mem: seq<byte>, off: nat, ext: Ext)
    requires pos <= |fmt| && Kin(packing, spec) && Pack(fmt, pos, packing, args, k, cap).end <= cap
    ensures RenderBin(fmt, pos, spec, mem, off, ext) == Render(fmt, pos, spec, args, k, ext)
    ensures !Exposed(fmt, pos, spec, args, k, cap, cap)
  {
    hide Pack, Render, RenderBin, Kin, Exposed, Ordered;
    var im := Pack(fmt, pos, packing, args, k, cap);
    PackedNonempty(fmt, pos, packing, args, k, cap);
    if im.items != [] {
      SomethingBeyond(im.items, cap, im.end);
    }
    NothingPacked(fmt, pos, packing, args, k, cap, off);
    RenderAgrees(fmt, pos, packing, spec, args, k, mem, off, ext);
    if Exposed(fmt, pos, spec, args, k, cap, cap) {
      ExposedPacks(fmt, pos, packing, spec, args, k, cap, cap);
    }
  }

  /** A precision of 0 hides the string. */
  lemma HiddenString(s: string, t: string, spec: Spec)
    requires spec.precision == 0
    ensures StringText(s, spec) == StringText(t, spec)
  {
    assert s[..0] == t[..0];
  }

  /** Any other precision shows whether there is one. */
  lemma ShownString(spec: Spec)
    requires spec.precision != 0
    ensures StringText("", spec) != StringText("x", spec)
  {
    var lead := PadIf(!spec.flags.left, PadTo(1, spec.width), spec.width);
    assert "x"[..1] == "x";
    assert StringText("x", spec)[lead.n] == 'x';
    assert forall i | 0 <= i < |StringText("", spec)| :: StringText("", spec)[i] == ' ';
  }

  // ------------------------------------------------------ exactly when they agree

  /** Memory holds every item that fits. */
  predicate HoldsFitting(mem: seq<byte>, items: seq<Item>) {
    forall it | it in items && FitsIn(it, |mem|) :: Holds(mem, it)
  }

  /** If no directive is exposed, a string that is counted but not stored is not missed. */
  lemma {:induction false} UnexposedAgrees(fmt: string, pos: nat, packing: Spec, spec: Spec, args: seq<Arg>, k: nat,
                                           mem: seq<byte>, off: nat, ext: Ext)
    requires pos <= |fmt| && Kin(packing, spec) && !Exposed(fmt, pos, spec, args, k, off, |mem|)
    requires Pack(fmt, pos, packing, args, k, off).end <= |mem|
    requires HoldsFitting(mem, Pack(fmt, pos, packing, args, k, off).items)
    ensures RenderBin(fmt, pos, spec, mem, off, ext) == Render(fmt, pos, spec, args, k, ext)
    decreases |fmt| - pos, Rank(spec)
  {
    hide *;
    if pos == |fmt| {
      RenderEnd(fmt, spec, args, k, ext);
      RenderBinEnd(fmt, spec, mem, off, ext);
    } else {
      var d, p := Decode(fmt, pos, spec), Decode(fmt, pos, packing);
      var kind := d.spec.kind;
      var next := PackNext(kind, args, k, off);
      Onward(fmt, pos, packing, spec, args, k);
      ExposedStep(fmt, pos, spec, args, k, off, |mem|);
      FittingRest(fmt, pos, packing, args, k, off, mem);
      if kind == Str && next == |mem| {
        HiddenAgrees(fmt, pos, packing, spec, args, k, mem, off, ext);
      } else {
        UnexposedAgrees(fmt, Resume(fmt, d), p.spec, Absorb(d.spec, ArgValue(kind, args, k)), args, k + Taken(kind), mem, next, ext);
        AgreesBefore(fmt, pos, spec, args, k, mem, off, ext);
      }
    }
  }

  lemma FittingRest(fmt: string, pos: nat, packing: Spec, args: seq<Arg>, k: nat, off: nat, mem: seq<byte>)
    requires pos < |fmt| && Pack(fmt, pos, packing, args, k, off).end <= |mem|
    requires HoldsFitting(mem, Pack(fmt, pos, packing, args, k, off).items)
    ensures var p := Decode(fmt, pos, packing);
            var kind, next := p.spec.kind, PackNext(p.spec.kind, args, k, off);
            var rest := Pack(fmt, Resume(fmt, p), p.spec, args, k + Taken(kind), next);
            && rest.end <= |mem| && HoldsFitting(mem, rest.items)
            && (Saves(kind) && !(kind == Str && next == |mem|) ==> Holds(mem, ItemOf(kind, args, k, off)))
  {
    hide Decode, Pack, AlnumEnd, StringBytes, LeBytes, Holds;
    PackStep(fmt, pos, packing, args, k, off);
    var im := Pack(fmt, pos, packing, args, k, off);
    OrderedEnds(im.items, off, im.end);
    var kind := Decode(fmt, pos, packing).spec.kind;
    if Saves(kind) {
      assert ItemOf(kind, args, k, off) in im.items;
    }
  }

  /** A flush string of precision 0 is not missed. */
  lemma HiddenAgrees(fmt: string, pos: nat, packing: Spec, spec: Spec, args: seq<Arg>, k: nat, mem: seq<byte>, off: nat, ext: Ext)
    requires pos < |fmt| && Kin(packing, spec) && !Exposed(fmt, pos, spec, args, k, off, |mem|)
    requires Pack(fmt, pos, packing, args, k, off).end <= |mem|
    requires Decode(fmt, pos, spec).spec.kind == Str && PackNext(Str, args, k, off) == |mem|
    ensures RenderBin(fmt, pos, spec, mem, off, ext) == Render(fmt, pos, spec, args, k, ext)
  {
    hide *;
    var d, p := Decode(fmt, pos, spec), Decode(fmt, pos, packing);
    Onward(fmt, pos, packing, spec, args, k);
    ExposedStep(fmt, pos, spec, args, k, off, |mem|);
    PackStep(fmt, pos, packing, args, k, off);
    StringTokens(fmt, pos, d, mem, off, args, k, ext);
    HiddenString(TextArg(args, k), ReadString(mem, off), d.spec);
    AfterFlush(fmt, Resume(fmt, d), p.spec, d.spec, args, k + Taken(Str), |mem|, mem, BinNext(Str, mem, off), ext);
    RenderStep(fmt, pos, spec, args, k, ext);
    RenderBinStep(fmt, pos, spec, mem, off, ext);
  }

  /** The texts of a string token, from memory and from the arguments. */
  lemma StringTokens(fmt: string, pos: nat, d: Decoded, mem: seq<byte>, off: nat, args: seq<Arg>, k: nat, ext: Ext)
    requires pos <= d.next <= |fmt| && d.spec.kind == Str
    ensures BinValue(Str, mem, off) == Text(ReadString(mem, off)) && ArgValue(Str, args, k) == Text(TextArg(args, k))
    ensures TokenText(fmt, pos, d, BinValue(Str, mem, off), ext) == StringText(ReadString(mem, off), d.spec)
    ensures TokenText(fmt, pos, d, ArgValue(Str, args, k), ext) == StringText(TextArg(args, k), d.spec)
    ensures Absorb(d.spec, BinValue(Str, mem, off)) == Absorb(d.spec, ArgValue(Str, args, k)) == d.spec
  {
  }

  /** Memory that holds what fits, and reads as s where a flush string should be. */
  predicate Prepared(mem: seq<byte>, im: Image, s: string) {
    && im.end <= |mem| && HoldsFitting(mem, im.items)
    && forall it | it in im.items && it.strict && End(it) == |mem| :: ReadString(mem, it.at) == s
  }

  lemma PreparedRest(fmt: string, pos: nat, packing: Spec, args: seq<Arg>, k: nat, off: nat, mem: seq<byte>, s: string)
    requires pos < |fmt| && Prepared(mem, Pack(fmt, pos, packing, args, k, off), s)
    ensures var p := Decode(fmt, pos, packing);
            var kind, next := p.spec.kind, PackNext(p.spec.kind, args, k, off);
            && Prepared(mem, Pack(fmt, Resume(fmt, p), p.spec, args, k + Taken(kind), next), s)
            && (kind == Str && next == |mem| ==> ReadString(mem, off) == s)
            && (Saves(kind) && !(kind == Str && next == |mem|) ==> Holds(mem, ItemOf(kind, args, k, off)))
  {
    hide Decode, Pack, AlnumEnd, StringBytes, LeBytes, ReadString, Holds, HoldsFitting;
    PackStep(fmt, pos, packing, args, k, off);
    FittingRest(fmt, pos, packing, args, k, off, mem);
    var kind := Decode(fmt, pos, packing).spec.kind;
    if Saves(kind) {
      assert ItemOf(kind, args, k, off) in Pack(fmt, pos, packing, args, k, off).items;
    }
  }

  /** An exposed directive tells two memories apart that differ where its string should be. */
  lemma {:induction false} ExposedDiffers(fmt: string, pos: nat, packing: Spec, spec: Spec, args: seq<Arg>, k: nat,
                                          m: seq<byte>, m': seq<byte>, off: nat, ext: Ext)
    requires pos <= |fmt| && Kin(packing, spec) && |m| == |m'| && Exposed(fmt, pos, spec, args, k, off, |m|)
    requires Prepared(m, Pack(fmt, pos, packing, args, k, off), "") && Prepared(m', Pack(fmt, pos, packing, args, k, off), "x")
    ensures RenderBin(fmt, pos, spec, m, off, ext) != RenderBin(fmt, pos, spec, m', off, ext)
    decreases |fmt| - pos, Rank(spec)
  {
    hide *;
    assert pos < |fmt| by { NotExposedAtEnd(fmt, spec, args, k, off, |m|); }
    var d, p := Decode(fmt, pos, spec), Decode(fmt, pos, packing);
    var kind := d.spec.kind;
    var next := PackNext(kind, args, k, off);
    Onward(fmt, pos, packing, spec, args, k);
    ExposedStep(fmt, pos, spec, args, k, off, |m|);
    if kind == Str && next == |m| {
      FlushDiffers(fmt, pos, packing, spec, args, k, m, m', off, ext);
    } else {
      PreparedRest(fmt, pos, packing, args, k, off, m, "");
      PreparedRest(fmt, pos, packing, args, k, off, m', "x");
      ExposedDiffers(fmt, Resume(fmt, d), p.spec, Absorb(d.spec, ArgValue(kind, args, k)), args, k + Taken(kind), m, m', next, ext);
      DiffersBefore(fmt, pos, spec, args, k, m, m', off, ext);
    }
  }

  /** If the rest differs and the token at hand reads its argument back, all differs. */
  lemma DiffersBefore(fmt: string, pos: nat, spec: Spec, args: seq<Arg>, k: nat, m: seq<byte>, m': seq<byte>, off: nat, ext: Ext)
    requires pos < |fmt|
    requires var kind := Decode(fmt, pos, spec).spec.kind;
             Saves(kind) ==> Holds(m, ItemOf(kind, args, k, off)) && Holds(m', ItemOf(kind, args, k, off))
    requires var d := Decode(fmt, pos, spec);
             var v, next := ArgValue(d.spec.kind, args, k), PackNext(d.spec.kind, args, k, off);
             && Fits(d.spec.kind, v)
             && RenderBin(fmt, Resume(fmt, d), Absorb(d.spec, v), m, next, ext)
                != RenderBin(fmt, Resume(fmt, d), Absorb(d.spec, v), m', next, ext)
    ensures RenderBin(fmt, pos, spec, m, off, ext) != RenderBin(fmt, pos, spec, m', off, ext)
  {
    hide Decode, Render, RenderBin, TokenText, Holds, ItemOf, BinValue, BinNext, ArgValue, Absorb, Resume, Fits;
    var d := Decode(fmt, pos, spec);
    var v, next := ArgValue(d.spec.kind, args, k), PackNext(d.spec.kind, args, k, off);
    TokenAgrees(fmt, pos, spec, args, k, m, off, ext);
    TokenAgrees(fmt, pos, spec, args, k, m', off, ext);
    RenderBinStep(fmt, pos, spec, m, off, ext);
    RenderBinStep(fmt, pos, spec, m', off, ext);
    SameHead(TokenText(fmt, pos, d, v, ext), RenderBin(fmt, Resume(fmt, d), Absorb(d.spec, v), m, next, ext),
             RenderBin(fmt, Resume(fmt, d), Absorb(d.spec, v), m', next, ext));
  }

  /** The exposed directive itself. */
  lemma FlushDiffers(fmt: string, pos: nat, packing: Spec, spec: Spec, args: seq<Arg>, k: nat,
                     m: seq<byte>, m': seq<byte>, off: nat, ext: Ext)
    requires pos < |fmt| && Kin(packing, spec) && |m| == |m'| && Exposed(fmt, pos, spec, args, k, off, |m|)
    requires Prepared(m, Pack(fmt, pos, packing, args, k, off), "") && Prepared(m', Pack(fmt, pos, packing, args, k, off), "x")
    requires Decode(fmt, pos, spec).spec.kind == Str && PackNext(Str, args, k, off) == |m|
    ensures RenderBin(fmt, pos, spec, m, off, ext) != RenderBin(fmt, pos, spec, m', off, ext)
  {
    hide *;
    var d, p := Decode(fmt, pos, spec), Decode(fmt, pos, packing);
    var pos', k' := Resume(fmt, d), k + Taken(Str);
    Onward(fmt, pos, packing, spec, args, k);
    ExposedStep(fmt, pos, spec, args, k, off, |m|);
    PreparedRest(fmt, pos, packing, args, k, off, m, "");
    PreparedRest(fmt, pos, packing, args, k, off, m', "x");
    var rest := Pack(fmt, pos', p.spec, args, k', |m|);
    PreparedEnds(m, rest, "");
    StringTokens(fmt, pos, d, m, off, args, k, ext);
    StringTokens(fmt, pos, d, m', off, args, k, ext);
    AfterFlush(fmt, pos', p.spec, d.spec, args, k', |m|, m, BinNext(Str, m, off), ext);
    AfterFlush(fmt, pos', p.spec, d.spec, args, k', |m|, m', BinNext(Str, m', off), ext);
    ShownString(d.spec);
    RenderBinStep(fmt, pos, spec, m, off, ext);
    RenderBinStep(fmt, pos, spec, m', off, ext);
    SameTail(StringText("", d.spec), StringText("x", d.spec), Render(fmt, pos', d.spec, args, k', ext));
  }

  lemma PreparedEnds(mem: seq<byte>, im: Image, s: string)
    requires Prepared(mem, im, s)
    ensures im.end <= |mem|
  {
  }

  lemma SameTail(a: string, b: string, t: string)
    requires a != b
    ensures a + t != b + t
  {
    assert (a + t)[..|a|] == a && (b + t)[..|b|] == b;
  }

  lemma SameHead(t: string, a: string, b: string)
    requires a != b
    ensures t + a != t + b
  {
    assert (t + a)[|t|..] == a && (t + b)[|t|..] == b;
  }

  /** Cleared memory of n bytes, but for c at a. */
  function Marked(n: nat, a: nat, c: byte): (m: seq<byte>)
    requires a < n
    ensures |m| == n && m[a] == c && forall i | 0 <= i < n && i != a :: m[i] == 0
  {
    seq(n, i => if i == a then c else 0)
  }

  lemma MarkedReads(n: nat, a: nat, mem: seq<byte>, c: byte)
    requires a < n == |mem| && mem[a..] == Marked(n, a, c)[a..]
    ensures ReadString(mem, a) == if c == 0 then "" else [c as char]
  {
    var m := Marked(n, a, c);
    assert mem[a] == mem[a..][0] == m[a];
    if c != 0 && a + 1 < n {
      assert mem[a + 1] == mem[a..][1] == m[a + 1];
      assert StringEnd(mem, a + 1) == a + 1;
    }
  }

  /** Packing into marked memory leaves the mark where a flush string should be. */
  lemma StoreMarked(items: seq<Item>, end: nat, it: Item, c: byte)
    requires Ordered(items, 0, end) && (forall x | x in items :: |x.data| >= 1)
    requires it in items && it.strict && End(it) == end
    ensures var mem := StoreAll(Marked(end, it.at, c), items);
            Prepared(mem, Image(items, end), if c == 0 then "" else [c as char])
  {
    hide Ordered, StoreAll, ReadString, Marked, Holds;
    var m := Marked(end, it.at, c);
    StoreAllHolds(m, items, 0, end);
    forall x | x in items && (FitsIn(x, end) || (x.strict && End(x) == end))
      ensures FitsIn(x, end) ==> End(x) <= it.at
      ensures End(x) == end ==> x == it
    {
      FlushIsLast(items, 0, end, it, x);
    }
    StoreAllBelow(m, items, it.at);
    MarkedReads(end, it.at, StoreAll(m, items), c);
  }

  /** What bstr_printf prints from memory that vbin_printf packed into. */
  function BinFormatted(fmt: string, args: seq<Arg>, mem: seq<byte>, ext: Ext): string {
    RenderBin(fmt, 0, ZERO_SPEC, StoreAll(mem, Packed(fmt, args).items), 0, ext)
  }

  /** If no directive is exposed, packing and printing agree, whatever the memory held before. */
  lemma BinaryAgrees(fmt: string, args: seq<Arg>, mem: seq<byte>, size: nat, ext: Ext)
    requires |mem| == 4 * size && Words(Packed(fmt, args)) <= size && !FlushExposed(fmt, args, 4 * size)
    ensures BinFormatted(fmt, args, mem, ext) == Formatted(fmt, args, ext)
  {
    hide Pack, RenderBin, Render, Exposed, StoreAll, Ordered;
    var im := Packed(fmt, args);
    StoreAllHolds(mem, im.items, 0, im.end);
    UnexposedAgrees(fmt, 0, ZERO_SPEC, ZERO_SPEC, args, 0, StoreAll(mem, im.items), 0, ext);
  }

  /** If one is, some former content of the memory makes them differ. */
  lemma BinaryDiffers(fmt: string, args: seq<Arg>, size: nat, ext: Ext) returns (mem: seq<byte>)
    requires Words(Packed(fmt, args)) <= size && FlushExposed(fmt, args, 4 * size)
    ensures |mem| == 4 * size && BinFormatted(fmt, args, mem, ext) != Formatted(fmt, args, ext)
  {
    hide Pack, RenderBin, Render, Exposed, StoreAll, Ordered;
    var im, cap := Packed(fmt, args), 4 * size;
    ExposedPacks(fmt, 0, ZERO_SPEC, ZERO_SPEC, args, 0, 0, cap);
    var it :| it in im.items && it.strict && End(it) == cap;
    OrderedEnds(im.items, 0, im.end);
    PackedNonempty(fmt, 0, ZERO_SPEC, args, 0, 0);
    StoreMarked(im.items, cap, it, 0);
    StoreMarked(im.items, cap, it, 'x' as int);
    var clear, mark := Marked(cap, it.at, 0), Marked(cap, it.at, 'x' as int);
    ExposedDiffers(fmt, 0, ZERO_SPEC, ZERO_SPEC, args, 0, StoreAll(clear, im.items), StoreAll(mark, im.items), 0, ext);
    mem := if BinFormatted(fmt, args, clear, ext) != Formatted(fmt, args, ext) then clear else mark;
  }

  /** The exact condition: when the reported words fit, printing what was packed agrees with
      printing directly, for every former content of the memory, if and only if no string
      directive of a precision other than 0 has its string end flush with the buffer. */
  lemma ExactAgreement(fmt: string, args: seq<Arg>, size: nat, ext: Ext)
    requires Words(Packed(fmt, args)) <= size
    ensures (forall mem: seq<byte> | |mem| == 4 * size :: BinFormatted(fmt, args, mem, ext) == Formatted(fmt, args, ext))
            <==> !FlushExposed(fmt, args, 4 * size)
  {
    hide BinFormatted, Formatted, FlushExposed, Pack;
    if FlushExposed(fmt, args, 4 * size) {
      var mem := BinaryDiffers(fmt, args, size, ext);
    } else {
      forall mem: seq<byte> | |mem| == 4 * size
        ensures BinFormatted(fmt, args, mem, ext) == Formatted(fmt, args, ext)
      {
        BinaryAgrees(fmt, args, mem, size, ext);
      }
    }
  }

  /** Only a flush string is exposed, so words to spare are enough. */
  lemma SpareWordsSuffice(fmt: string, args: seq<Arg>, size: nat)
    requires Words(Packed(fmt, args)) < size || !StringFlush(Packed(fmt, args), 4 * size)
    ensures !FlushExposed(fmt, args, 4 * size)
  {
    hide Pack, Exposed;
    AllStored(fmt, args, size);
    if FlushExposed(fmt, args, 4 * size) {
      ExposedPacks(fmt, 0, ZERO_SPEC, ZERO_SPEC, args, 0, 0, 4 * size);
    }
  }

  // ----------------------------------------------------------------- an example

  lemma StringDirective()
    ensures Decode("%s", 0, ZERO_SPEC)
         == Decoded(2, ZERO_SPEC.(kind := Str, base := 10, qualifier := NO_QUALIFIER, width := -1, precision := -1))
  {
    assert TextEnd("%s", 0) == 0 && FlagsEnd("%s", 1) == 1;
    assert "%s"[1..1] == [];
  }

  lemma UnpaddedString(s: string, spec: Spec)
    requires spec.width == spec.precision == -1 && spec.flags == NO_FLAGS
    ensures StringText(s, spec) == s
  {
    assert StringText(s, spec) == Fill(' ', 0) + s + Fill(' ', 0);
  }

  const ABC: seq<Arg> := [Pointer(0x1000, "abc")]
  const CLEARED: seq<byte> := [0, 0, 0, 0]

  lemma FlushPacks()
    ensures var it := Item(0, StringBytes("abc"), true);
            Packed("%s", ABC) == Image([it], 4) && StoreAll(CLEARED, [it]) == CLEARED
  {
    var it := Item(0, StringBytes("abc"), true);
    assert ItemOf(Str, ABC, 0, 0) == it;
    assert StoreAll(CLEARED, [it]) == CLEARED by {
      assert [it][1..] == [];
    }
    hide Decode, StoreAll, ItemOf;
    StringDirective();
    PackStep("%s", 0, ZERO_SPEC, ABC, 0, 0);
    assert [it] + [] == [it];
  }

  lemma ExposedExample()
    ensures FlushExposed("%s", ABC, 4)
  {
    hide Decode, Exposed;
    StringDirective();
    ExposedStep("%s", 0, ZERO_SPEC, ABC, 0, 0, 4);
  }

  /** The documented bound is one too generous: "%s" with "abc" reports one word, which is the
      size of the buffer, and stores nothing; from a cleared buffer the string prints empty. */
  lemma FlushExample(ext: Ext)
    ensures var im := Packed("%s", ABC);
            Words(im) == 1 && StoreAll(CLEARED, im.items) == CLEARED
            && BinFormatted("%s", ABC, CLEARED, ext) == "" && Formatted("%s", ABC, ext) == "abc"
    ensures FlushExposed("%s", ABC, 4)
  {
    ExposedExample();
    assert ReadString(CLEARED, 0) == "";
    hide Decode, Pack, StoreAll, StringText, ReadString, Render, RenderBin;
    FlushPacks();
    StringDirective();
    var spec := Decode("%s", 0, ZERO_SPEC).spec;
    UnpaddedString("abc", spec);
    UnpaddedString("", spec);
    RenderStep("%s", 0, ZERO_SPEC, ABC, 0, ext);
    RenderEnd("%s", spec, ABC, 1, ext);
    RenderBinStep("%s", 0, ZERO_SPEC, CLEARED, 0, ext);
    RenderBinEnd("%s", spec, CLEARED, 1, ext);
    assert "" + "" == "" && "abc" + "" == "abc";
  }

  // --------------------------------------------------------------- the drivers

  /** bstr_printf into a copy of `out`. */
  method PrintPacked(fmt: cstring, mem: seq<byte>, out: seq<char>, ext: Ext) returns (ret: nat, out': seq<char>)
    ensures !OutOfRange(|out|) ==> Delivered(out, out', |out|, ret, RenderBin(fmt, 0, ZERO_SPEC, mem, 0, ext))
    ensures OutOfRange(|out|) ==> ret == 0 && out' == out
  {
    var buf := new char[|out|](i requires 0 <= i < |out| => out[i]);
    assert buf[..] == out;
    ret := BstrPrintf(buf, |out|, fmt, mem, ext);
    out' := buf[..];
  }

  /** vbin_printf into a copy of `bin`. */
  method PackInto(fmt: cstring, args: seq<Arg>, bin: seq<byte>, words: nat) returns (used: nat, mem: seq<byte>)
    requires |bin| == 4 * words
    ensures used == Words(Packed(fmt, args)) && mem == StoreAll(bin, Packed(fmt, args).items)
  {
    var buf := new byte[|bin|](i requires 0 <= i < |bin| => bin[i]);
    assert buf[..] == bin;
    used := VbinPrintf(buf, words, fmt, args);
    mem := buf[..];
  }

  /** The three drivers side by side: printing directly, and packing into `bin` (whatever it
      held) and printing from there, give the same return value and the same buffer. */
  method PrintBothWays(fmt: cstring, args: seq<Arg>, bin: seq<byte>, words: nat, out: seq<char>, ext: Ext)
    returns (used: nat, ret1: nat, out1: seq<char>, ret2: nat, out2: seq<char>)
    requires |bin| == 4 * words
    ensures used == Words(Packed(fmt, args))
    ensures used < words ==> ret1 == ret2 && out1 == out2
    ensures used == words && !FlushExposed(fmt, args, 4 * words) ==> ret1 == ret2 && out1 == out2
  {
    var mem;
    used, mem := PackInto(fmt, args, bin, words);
    ret1, out1 := PrintInto(fmt, args, out, ext);
    ret2, out2 := PrintPacked(fmt, mem, out, ext);
    if used < words {
      SpareWordsSuffice(fmt, args, words);
    }
    if used <= words && !FlushExposed(fmt, args, 4 * words) {
      BinaryAgrees(fmt, args, bin, words, ext);
    }
  }
}
