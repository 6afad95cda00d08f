/** Where vbin_printf puts what: the bytes of every argument by the letters of the format,
    and the place of every item by sizes alone. */
module BinLayout {
  import opened Bits
  import opened CType
  import opened ConversionText
  import opened FormatDecode
  import opened Printf
  import opened FormatGrammar
  import opened BinPrintf

  // --------------------------------------------------------------------- places

  function Unit(size: nat): nat {
    if size < 4 then size else 4
  }

  /** The least multiple of `unit` that is not below `off`. */
  predicate Next(off: nat, unit: nat, at: nat)
    requires unit >= 1
  {
    off <= at && at % unit == 0 && forall i | off <= i < at :: i % unit != 0
  }

  /** A string follows at once; a number starts at the next multiple of its size, or of 4. */
  predicate InPlace(it: Item, off: nat) {
    it.data != [] && if it.strict then it.at == off else Next(off, Unit(|it.data|), it.at)
  }

  predicate Laid(items: seq<Item>, off: nat, end: nat)
    decreases |items|
  {
    if items == [] then end == off
    else InPlace(items[0], off) && Laid(items[1..], items[0].at + |items[0].data|, end)
  }

  lemma AlignsToTwo(off: nat)
    ensures Next(off, 2, (off + 1) / 2 * 2)
  {
    assert (off + 1) / 2 * 2 == off + off % 2;
  }

  lemma AlignsToFour(off: nat)
    ensures Next(off, 4, (off + 3) / 4 * 4)
  {
    var r := off % 4;
    assert (off + 3) / 4 * 4 == off + (if r == 0 then 0 else 4 - r);
  }

  lemma AlignsNext(off: nat, size: nat)
    requires size == 1 || size == 2 || size == 4 || size == 8
    ensures Next(off, Unit(size), AlignUp(off, size))
  {
    hide Next;
    if size == 1 {
      AlignsToOne(off);
    } else if size == 2 {
      AlignsToTwo(off);
    } else {
      AlignsToFour(off);
    }
  }

  lemma AlignsToOne(off: nat)
    ensures Next(off, 1, off)
  {
  }

  lemma ItemPlaced(kind: Kind, args: seq<Arg>, k: nat, off: nat)
    requires Saves(kind)
    ensures InPlace(ItemOf(kind, args, k, off), off)
  {
    hide LeBytes, AlignUp, Next;
    if kind != Str {
      AlignsNext(off, Size(kind));
    }
  }

  lemma LaidCons(it: Item, rest: seq<Item>, off: nat, end: nat)
    requires InPlace(it, off) && Laid(rest, End(it), end)
    ensures Laid([it] + rest, off, end)
  {
    assert ([it] + rest)[1..] == rest;
  }

  lemma {:induction false} PackLaid(fmt: string, pos: nat, spec: Spec, args: seq<Arg>, k: nat, off: nat)
    requires pos <= |fmt|
    ensures var im := Pack(fmt, pos, spec, args, k, off); Laid(im.items, off, im.end)
    decreases |fmt| - pos, Rank(spec)
  {
    hide *;
    if pos == |fmt| {
      NothingLaid(fmt, spec, args, k, off);
    } else {
      FormatProgress(fmt, pos, spec);
      PackStep(fmt, pos, spec, args, k, off);
      var d := Decode(fmt, pos, spec);
      var kind := d.spec.kind;
      PackNextIs(kind, args, k, off);
      PackLaid(fmt, Resume(fmt, d), d.spec, args, k + Taken(kind), PackNext(kind, args, k, off));
      var rest := Pack(fmt, Resume(fmt, d), d.spec, args, k + Taken(kind), PackNext(kind, args, k, off));
      if Saves(kind) {
        ItemPlaced(kind, args, k, off);
        LaidCons(ItemOf(kind, args, k, off), rest.items, off, rest.end);
      } else {
        assert [] + rest.items == rest.items;
      }
    }
  }

  lemma NothingLaid(fmt: string, spec: Spec, args: seq<Arg>, k: nat, off: nat)
    ensures var im := Pack(fmt, |fmt|, spec, args, k, off); Laid(im.items, off, im.end)
  {
  }

  /** The items of any format, in order, and the words they need. */
  lemma PackedLaid(fmt: string, args: seq<Arg>)
    ensures var im := Packed(fmt, args);
            Laid(im.items, 0, im.end) && Words(im) * 4 >= im.end && (Words(im) > 0 ==> (Words(im) - 1) * 4 < im.end)
  {
    PackLaid(fmt, 0, ZERO_SPEC, args, 0, 0);
  }

  // --------------------------------------------------------------------- pieces

  /** What is stored, apart from where. */
  datatype Piece = Piece(data: seq<byte>, text: bool)

  /** The n low bytes of a slot, least significant first. */
  function Little(v: nat, n: nat): seq<byte> {
    seq(n, i requires 0 <= i < n => PowerPositive(256, i); v / Power(256, i) % 256)
  }

  function NumberPiece(args: seq<Arg>, k: nat, n: nat): Piece {
    Piece(Little(Slot(args, k), n), false)
  }

  function TextPiece(s: cstring): Piece {
    Piece(seq(|s| + 1, i requires 0 <= i <= |s| => if i < |s| then s[i] as int else 0), true)
  }

  /** What a conversion stores for its own argument. */
  function OwnPieces(c: char, length: string, args: seq<Arg>, k: nat): seq<Piece> {
    if c == '%' || c == 'n' then []
    else if c == 'c' then [NumberPiece(args, k, 1)]
    else if c == 's' then [TextPiece(TextArg(args, k))]
    else [NumberPiece(args, k, IntegerSize(length))]
  }

  /** A star stores an int. */
  function StarPieces(star: bool, args: seq<Arg>, k: nat): seq<Piece> {
    if star then [NumberPiece(args, k, 4)] else []
  }

  function DotPieces(v: Conv, args: seq<Arg>, k: nat): seq<Piece> {
    StarPieces(v.dot == Dot(Star), args, k) + OwnPieces(v.c, v.length, args, k + DotStars(v.dot))
  }

  function ConvPieces(v: Conv, args: seq<Arg>, k: nat): seq<Piece> {
    StarPieces(v.width.Star?, args, k) + DotPieces(v, args, k + Stars(v.width))
  }

  /** What a format stores, by its syntax. */
  function Pieces(parts: seq<Part>, args: seq<Arg>, k: nat): seq<Piece> {
    if parts == [] then []
    else ConvPieces(parts[0].conv, args, k) + Pieces(parts[1..], args, k + Uses(parts[0].conv))
  }

  // ------------------------------------------------------------ items as pieces

  function Content(it: Item): Piece {
    Piece(it.data, it.strict)
  }

  function Contents(items: seq<Item>): (r: seq<Piece>)
    ensures |r| == |items|
  {
    seq(|items|, i requires 0 <= i < |items| => Content(items[i]))
  }

  function KindPieces(kind: Kind, args: seq<Arg>, k: nat): seq<Piece> {
    if Saves(kind) then [Content(ItemOf(kind, args, k, 0))] else []
  }

  /** What the tokens from `pos` on store, the stars going into the spec. */
  function Trail(fmt: string, pos: nat, spec: Spec, args: seq<Arg>, k: nat): seq<Piece>
    requires pos <= |fmt|
    decreases |fmt| - pos, Rank(spec)
  {
    if pos == |fmt| then []
    else
      FormatProgress(fmt, pos, spec);
      var d := Decode(fmt, pos, spec);
      ArgFits(d.spec.kind, args, k);
      KindPieces(d.spec.kind, args, k)
      + Trail(fmt, Resume(fmt, d), Absorb(d.spec, ArgValue(d.spec.kind, args, k)), args, k + Taken(d.spec.kind))
  }

  lemma TrailStep(fmt: string, pos: nat, spec: Spec, args: seq<Arg>, k: nat)
    requires pos < |fmt|
    ensures var d := Decode(fmt, pos, spec);
            var v := ArgValue(d.spec.kind, args, k);
            Fits(d.spec.kind, v)
            && Trail(fmt, pos, spec, args, k)
            == KindPieces(d.spec.kind, args, k) + Trail(fmt, Resume(fmt, d), Absorb(d.spec, v), args, k + Taken(d.spec.kind))
  {
    hide Decode, Absorb, AlnumEnd, ArgValue, Fits, KindPieces;
    FormatProgress(fmt, pos, spec);
    ArgFits(Decode(fmt, pos, spec).spec.kind, args, k);
  }

  lemma ContentsCons(kind: Kind, args: seq<Arg>, k: nat, off: nat, rest: seq<Item>)
    ensures Contents((if Saves(kind) then [ItemOf(kind, args, k, off)] else []) + rest) == KindPieces(kind, args, k) + Contents(rest)
  {
    hide LeBytes, AlignUp, StringBytes, Low, Size;
    var head := if Saves(kind) then [ItemOf(kind, args, k, off)] else [];
    assert Contents(head) == KindPieces(kind, args, k);
    assert Contents(head + rest) == Contents(head) + Contents(rest);
  }

  lemma NothingTrails(fmt: string, packing: Spec, spec: Spec, args: seq<Arg>, k: nat, off: nat)
    ensures Contents(Pack(fmt, |fmt|, packing, args, k, off).items) == Trail(fmt, |fmt|, spec, args, k) == []
  {
  }

  /** Packing, which leaves the stars out of its spec, stores the same. */
  lemma {:induction false} PackTrails(fmt: string, pos: nat, packing: Spec, spec: Spec, args: seq<Arg>, k: nat, off: nat)
    requires pos <= |fmt| && Kin(packing, spec)
    ensures Contents(Pack(fmt, pos, packing, args, k, off).items) == Trail(fmt, pos, spec, args, k)
    decreases |fmt| - pos, Rank(spec)
  {
    hide *;
    if pos == |fmt| {
      NothingTrails(fmt, packing, spec, args, k, off);
    } else {
      var d, p := Decode(fmt, pos, spec), Decode(fmt, pos, packing);
      var kind := d.spec.kind;
      Onward(fmt, pos, packing, spec, args, k);
      PackStep(fmt, pos, packing, args, k, off);
      TrailStep(fmt, pos, spec, args, k);
      PackTrails(fmt, Resume(fmt, d), p.spec, Absorb(d.spec, ArgValue(kind, args, k)), args, k + Taken(kind),
                 PackNext(kind, args, k, off));
      ContentsCons(kind, args, k, off,
                   Pack(fmt, Resume(fmt, p), p.spec, args, k + Taken(kind), PackNext(kind, args, k, off)).items);
    }
  }

  // -------------------------------------------------------------- bytes in order

  lemma {:induction false} LeByte(v: nat, n: nat, i: nat)
    requires i < n
    ensures Power(256, i) >= 1 && LeBytes(v, n)[i] == v / Power(256, i) % 256
    decreases n
  {
    PowerPositive(256, i);
    if i > 0 {
      LeByte(v / 256, n - 1, i - 1);
      DivTwice(v, Power(256, i - 1));
    }
  }

  lemma {:induction false} LeBytesLow(v: nat, n: nat)
    ensures Power(256, n) >= 1 && LeBytes(v % Power(256, n), n) == LeBytes(v, n)
  {
    PowerPositive(256, n);
    if n > 0 {
      PowerPositive(256, n - 1);
      DivTwice(v, Power(256, n - 1));
      LeBytesLow(v / 256, n - 1);
    }
  }

  lemma LittleIs(v: nat, n: nat)
    ensures LeBytes(v, n) == Little(v, n)
  {
    hide LeBytes;
    forall i | 0 <= i < n ensures LeBytes(v, n)[i] == Little(v, n)[i] {
      LeByte(v, n, i);
    }
  }

  lemma LowBytes(kind: Kind, v: u64)
    ensures Power(256, Size(kind)) >= 1 && Low(kind, v) == v % Power(256, Size(kind))
  {
    assert Power(256, 1) == TWO8 && Power(256, 2) == TWO16;
    assert Power(256, 4) == TWO32 && Power(256, 8) == TWO64;
  }

  lemma NumberContent(kind: Kind, args: seq<Arg>, k: nat)
    requires Saves(kind) && kind != Str
    ensures KindPieces(kind, args, k) == [NumberPiece(args, k, Size(kind))]
  {
    hide LeBytes, Little, Low, Power, Size, Slot, AlignUp;
    LowBytes(kind, Slot(args, k));
    LeBytesLow(Slot(args, k), Size(kind));
    LittleIs(Slot(args, k), Size(kind));
  }

  lemma TextContent(args: seq<Arg>, k: nat)
    ensures KindPieces(Str, args, k) == [TextPiece(TextArg(args, k))]
  {
    assert StringBytes(TextArg(args, k)) == TextPiece(TextArg(args, k)).data;
  }

  lemma KindSizes(v: Conv, sign: bool)
    requires Valid(v)
    ensures var kind := KindOf(v.c, LengthChar(v.length), sign);
            && (Saves(kind) <==> v.c != '%' && v.c != 'n') && (kind == Str <==> v.c == 's')
            && (v.c == 'c' ==> Size(kind) == 1) && (IsIntegerConversion(v.c) ==> Size(kind) == IntegerSize(v.length))
  {
  }

  /** A conversion stores what its letters say. */
  lemma OwnContent(s: Spec, v: Conv, args: seq<Arg>, k: nat)
    requires Valid(v)
    ensures KindPieces(Finished(s, v).kind, args, k) == OwnPieces(v.c, v.length, args, k)
  {
    hide KindOf, LengthChar, Size, NumberPiece, TextPiece, ItemOf, IntegerSize, Saves;
    var kind := Finished(s, v).kind;
    KindSizes(v, s.flags.sign || v.c == 'd' || v.c == 'i');
    if v.c == 's' {
      TextContent(args, k);
    } else if v.c != '%' && v.c != 'n' {
      NumberContent(kind, args, k);
    }
  }

  // ------------------------------------------------------ pieces along the syntax

  /** What is stored from the conversion character on. */
  function FromEnd(fmt: string, end: nat, f: Spec, args: seq<Arg>, k: nat, v: Conv): seq<Piece>
    requires end <= |fmt|
  {
    OwnPieces(v.c, v.length, args, k) + Trail(fmt, end, f, args, k + OwnUses(v.c))
  }

  lemma FromEndIs(fmt: string, end: nat, f: Spec, args: seq<Arg>, k: nat, v: Conv)
    requires end <= |fmt|
    ensures FromEnd(fmt, end, f, args, k, v) == OwnPieces(v.c, v.length, args, k) + Trail(fmt, end, f, args, k + OwnUses(v.c))
  {
  }

  lemma LastToken(fmt: string, end: nat, s: Spec, v: Conv, args: seq<Arg>, k: nat)
    requires Valid(v) && end <= |fmt|
    ensures var f := Finished(s, v);
            var x := ArgValue(f.kind, args, k);
            Fits(f.kind, x) && Absorb(f, x) == f && Resume(fmt, Decoded(end, f)) == end && Taken(f.kind) == OwnUses(v.c)
  {
    ArgFits(Finished(s, v).kind, args, k);
  }

  lemma LastPieces(fmt: string, pos: nat, spec: Spec, args: seq<Arg>, k: nat, end: nat, s: Spec, v: Conv)
    requires pos < |fmt| && Valid(v) && Decode(fmt, pos, spec) == Decoded(end, Finished(s, v)) && end <= |fmt|
    ensures Trail(fmt, pos, spec, args, k) == FromEnd(fmt, end, Finished(s, v), args, k, v)
  {
    hide *;
    TrailStep(fmt, pos, spec, args, k);
    LastToken(fmt, end, s, v, args, k);
    OwnContent(s, v, args, k);
    FromEndIs(fmt, end, Finished(s, v), args, k, v);
  }

  lemma StarContent(kind: Kind, args: seq<Arg>, k: nat)
    requires kind == Width || kind == Precision
    ensures KindPieces(kind, args, k) == StarPieces(true, args, k)
  {
    hide KindPieces, NumberPiece;
    NumberContent(kind, args, k);
  }

  lemma StarAbsorbs(fmt: string, d: Decoded, args: seq<Arg>, k: nat)
    requires d.next <= |fmt| && Pending(d.spec)
    ensures var v := ArgValue(d.spec.kind, args, k);
            && Fits(d.spec.kind, v) && Absorb(d.spec, v) == Starred(d.spec, args, k)
            && Resume(fmt, d) == d.next && Taken(d.spec.kind) == 1 && (d.spec.kind == Width || d.spec.kind == Precision)
  {
    hide ToS16;
  }

  lemma StarStores(fmt: string, pos: nat, spec: Spec, args: seq<Arg>, k: nat, next: nat, s: Spec)
    requires pos < |fmt| && next <= |fmt| && Decode(fmt, pos, spec) == Decoded(next, s) && Pending(s)
    ensures Trail(fmt, pos, spec, args, k) == StarPieces(true, args, k) + Trail(fmt, next, Starred(s, args, k), args, k + 1)
  {
    hide *;
    TrailStep(fmt, pos, spec, args, k);
    StarAbsorbs(fmt, Decoded(next, s), args, k);
    StarContent(s.kind, args, k);
  }

  lemma NoPieces(args: seq<Arg>, k: nat)
    ensures StarPieces(false, args, k) == []
  {
  }

  lemma DotStarsCount(d: Dot)
    ensures DotStars(d) == if d == Dot(Star) then 1 else 0
  {
  }

  /** From the precision on. */
  lemma DotStores(fmt: string, pos: nat, spec: Spec, args: seq<Arg>, k: nat, p: nat, s: Spec, v: Conv)
    requires Valid(v) && pos < |fmt| && s.kind == None && p + |ShowFromDot(v)| <= |fmt| && FormatGrammar.At(fmt, p, ShowFromDot(v))
    requires Decode(fmt, pos, spec) == AfterWidth(fmt, p, s)
    ensures Trail(fmt, pos, spec, args, k)
         == StarPieces(v.dot == Dot(Star), args, k)
            + FromEnd(fmt, p + |ShowFromDot(v)|, Finished(s.(precision := PrecisionOf(v.dot, args, k)), v), args, k + DotStars(v.dot), v)
  {
    hide *;
    DotStarsCount(v.dot);
    var s', end := s.(precision := PrecisionOf(v.dot, args, k)), p + |ShowFromDot(v)|;
    if v.dot == Dot(Star) {
      var t := s.(precision := -1, kind := Precision);
      StarredPrecision(s, v, args, k);
      DotStarDecodes(fmt, p, s, v);
      StarStores(fmt, pos, spec, args, k, p + 2, t);
      EndDecodes(fmt, p + 2, s', v);
      ResumesAtLength(fmt, p + 2, Starred(t, args, k));
      LastPieces(fmt, p + 2, Starred(t, args, k), args, k + 1, end, s', v);
    } else {
      NoPieces(args, k);
      DotDecodes(fmt, p, s, v, args, k);
      LastPieces(fmt, pos, spec, args, k, end, s', v);
      assert [] + FromEnd(fmt, end, Finished(s', v), args, k, v) == FromEnd(fmt, end, Finished(s', v), args, k, v);
    }
  }

  lemma ConvParts(a: seq<Piece>, b: seq<Piece>, fmt: string, end: nat, f: Spec, args: seq<Arg>, k: nat, v: Conv)
    requires end <= |fmt|
    requires a == StarPieces(v.width.Star?, args, k) && b == StarPieces(v.dot == Dot(Star), args, k + Stars(v.width))
    ensures a + (b + FromEnd(fmt, end, f, args, k + Stars(v.width) + DotStars(v.dot), v))
         == ConvPieces(v, args, k) + Trail(fmt, end, f, args, k + Uses(v))
  {
    hide Trail, OwnPieces, StarPieces;
    var own := OwnPieces(v.c, v.length, args, k + Stars(v.width) + DotStars(v.dot));
    var rest := Trail(fmt, end, f, args, k + Uses(v));
    assert ConvPieces(v, args, k) == a + (b + own);
    assert a + (b + (own + rest)) == a + (b + own) + rest;
  }

  /** A conversion stores what its syntax says. */
  lemma ConvStores(fmt: string, pos: nat, spec: Spec, args: seq<Arg>, k: nat, v: Conv)
    requires Valid(v) && !Pending(spec) && FormatGrammar.At(fmt, pos, Show(v)) && pos + |Show(v)| <= |fmt|
    ensures Trail(fmt, pos, spec, args, k)
         == ConvPieces(v, args, k) + Trail(fmt, pos + |Show(v)|, SpecOf(v, args, k), args, k + Uses(v))
  {
    hide *;
    StarsCount(v.width);
    var p, end := pos + 1 + |v.flags|, pos + |Show(v)|;
    var s0 := Flagged(spec, v);
    FlagsDecode(fmt, pos, spec, v);
    Collected(spec, v, args, k);
    ConvParts(StarPieces(v.width.Star?, args, k), StarPieces(v.dot == Dot(Star), args, k + Stars(v.width)),
              fmt, end, SpecOf(v, args, k), args, k, v);
    if v.width.Star? {
      var t := s0.(width := -1, kind := Width);
      var t' := Starred(t, args, k);
      StarredWidth(t, args, k);
      WidthStarDecodes(fmt, p, s0, v);
      StarStores(fmt, pos, spec, args, k, p + 1, t);
      ResumesAtDot(fmt, p + 1, t');
      DotStores(fmt, p + 1, t', args, k + 1, p + 1, Widened(t'), v);
    } else {
      NoPieces(args, k);
      WidthDecodes(fmt, p, s0, v, args, k);
      DotStores(fmt, pos, spec, args, k, p + |ShowField(v.width)|, s0.(width := WidthOf(v.width, args, k)), v);
      assert [] + Trail(fmt, pos, spec, args, k) == Trail(fmt, pos, spec, args, k);
    }
  }

  lemma TextStores(fmt: string, pos: nat, spec: Spec, args: seq<Arg>, k: nat, s: string) returns (spec': Spec)
    requires FormatGrammar.At(fmt, pos, s) && IsText(s) && (pos + |s| < |fmt| ==> fmt[pos + |s|] == '%')
    requires !Pending(spec) && pos + |s| <= |fmt|
    ensures !Pending(spec') && Trail(fmt, pos, spec, args, k) == Trail(fmt, pos + |s|, spec', args, k)
  {
    hide *;
    if s == "" {
      spec' := spec;
    } else {
      spec' := spec.(kind := None);
      TextDecodes(fmt, pos, spec, s);
      TextAbsorbs(fmt, Decoded(pos + |s|, spec'), args, k);
      NotPending(spec');
      TrailStep(fmt, pos, spec, args, k);
      assert [] + Trail(fmt, pos + |s|, spec', args, k) == Trail(fmt, pos + |s|, spec', args, k);
    }
  }

  lemma TextAbsorbs(fmt: string, d: Decoded, args: seq<Arg>, k: nat)
    requires d.next <= |fmt| && d.spec.kind == None
    ensures var v := ArgValue(None, args, k);
            && Fits(None, v) && Absorb(d.spec, v) == d.spec && KindPieces(None, args, k) == []
            && Resume(fmt, d) == d.next && Taken(None) == 0
  {
  }

  lemma {:induction false} PartsStore(fmt: string, pos: nat, spec: Spec, args: seq<Arg>, k: nat, parts: seq<Part>, tail: string)
    requires AllValid(parts) && IsText(tail) && !Pending(spec)
    requires FormatGrammar.At(fmt, pos, ShowParts(parts, tail)) && pos + |ShowParts(parts, tail)| == |fmt|
    ensures Trail(fmt, pos, spec, args, k) == Pieces(parts, args, k)
    decreases |parts|
  {
    hide *;
    FirstPieces(parts, args, k);
    if parts == [] {
      NoParts(tail, args, k);
      var s := TextStores(fmt, pos, spec, args, k, tail);
      NothingTrails(fmt, s, s, args, k, 0);
    } else {
      var text, v, rest := parts[0].text, parts[0].conv, parts[1..];
      FirstPart(parts, tail, args, k);
      var p := pos + |text|;
      FormatGrammar.AtParts(fmt, pos, text, Show(v) + ShowParts(rest, tail));
      FormatGrammar.AtParts(fmt, p, Show(v), ShowParts(rest, tail));
      StartsConv(fmt, p, v);
      var s := TextStores(fmt, pos, spec, args, k, text);
      ConvStores(fmt, p, s, args, k, v);
      PartsStore(fmt, p + |Show(v)|, SpecOf(v, args, k), args, k + Uses(v), rest, tail);
    }
  }

  lemma FirstPieces(parts: seq<Part>, args: seq<Arg>, k: nat)
    ensures parts == [] ==> Pieces(parts, args, k) == []
    ensures parts != [] ==>
              Pieces(parts, args, k) == ConvPieces(parts[0].conv, args, k) + Pieces(parts[1..], args, k + Uses(parts[0].conv))
  {
  }

  /** vbin_printf's image of a format: the pieces of its syntax, in order, each in its place. */
  lemma PackedLayout(parts: seq<Part>, tail: string, args: seq<Arg>)
    requires AllValid(parts) && IsText(tail)
    ensures var im := Packed(ShowParts(parts, tail), args);
            Contents(im.items) == Pieces(parts, args, 0) && Laid(im.items, 0, im.end)
  {
    hide Pack, Trail, Pieces, Laid, ShowParts, AllValid, IsText;
    var fmt := ShowParts(parts, tail);
    assert fmt[0..0 + |fmt|] == fmt;
    PackedLaid(fmt, args);
    PackTrails(fmt, 0, ZERO_SPEC, ZERO_SPEC, args, 0, 0);
    PartsStore(fmt, 0, ZERO_SPEC, args, 0, parts, tail);
  }
}
