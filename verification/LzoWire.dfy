/** The LZO1X format in numbers: what every code stands for, byte by byte, and the
    streams of arbitrary blocks written with such codes.  Counts and offsets are given
    here by their values alone, for the reader and the emitted codes to meet. */
module LzoWire {
  import opened Bits
  import opened LzoFormat
  import opened LzoEncoding

  // ------------------------------------------------------------ codes by value

  function Zeros(z: nat): (r: seq<byte>)
    ensures |r| == z && forall i | 0 <= i < z :: r[i] == 0
  {
    seq(z, _ => 0)
  }

  /** z zero bytes and then b, which is not 0, at pos. */
  predicate Extended(s: seq<byte>, pos: nat, z: nat, b: byte) {
    && pos + z < |s| && b != 0 && s[pos + z] == b
    && forall i | pos <= i < pos + z :: s[i] == 0
  }

  lemma {:induction false} ExtensionValue(s: seq<byte>, pos: nat, z: nat, b: byte)
    requires Extended(s, pos, z, b)
    ensures ReadExtension(s, pos) == Count(255 * z + b, pos + z + 1)
    decreases z
  {
    if z > 0 {
      ExtensionValue(s, pos + 1, z - 1, b);
    }
  }

  /** A first byte above 17 counts b - 17 literals. */
  lemma FirstLiterals(s: seq<byte>, b: byte)
    requires |s| >= 1 && s[0] == b > 17 && b - 16 <= |s|
    ensures StepAt(s, 0, Start) == Next(Literal(s[1..b - 16]), b - 16, if b < 21 then AfterShort else AfterRun)
  {
  }

  /** At the start or between codes a byte from 1 to 15 heads 4 to 18 literals. */
  lemma ShortRun(s: seq<byte>, pos: nat, b: byte, ctx: Ctx)
    requires pos < |s| && s[pos] == b && 1 <= b <= 15 && (ctx.Start? || ctx.Top?)
    ensures StepAt(s, pos, ctx) == if pos + b + 4 <= |s| then Next(Literal(s[pos + 1..pos + b + 4]), pos + b + 4, AfterRun)
                                   else Starved(b + 3)
  {
  }

  /** A 0 there, z more zeros and b head 18 + 255 z + b literals. */
  lemma LongRun(s: seq<byte>, pos: nat, z: nat, b: byte, ctx: Ctx)
    requires pos < |s| && s[pos] == 0 && Extended(s, pos + 1, z, b) && (ctx.Start? || ctx.Top?)
    ensures var p, n := pos + 2 + z, 18 + 255 * z + b;
            StepAt(s, pos, ctx) == if p + n <= |s| then Next(Literal(s[p..p + n]), p + n, AfterRun) else Starved(n)
  {
    ExtensionValue(s, pos + 1, z, b);
  }

  /** After a run of four or more, two bytes below 16 and c: three bytes from beyond 0x800. */
  lemma FarMatch(s: seq<byte>, pos: nat, b: byte, c: byte)
    requires pos + 2 <= |s| && s[pos] == b < 16 && s[pos + 1] == c
    ensures StepAt(s, pos, AfterRun) == Next(Match(0x801 + b / 4 + 4 * c, 3), pos + 2, AfterMatch(b % 4))
  {
  }

  /** After one to three literals: two bytes from nearby. */
  lemma NearMatch(s: seq<byte>, pos: nat, b: byte, c: byte)
    requires pos + 2 <= |s| && s[pos] == b < 16 && s[pos + 1] == c
    ensures StepAt(s, pos, AfterShort) == Next(Match(1 + b / 4 + 4 * c, 2), pos + 2, AfterMatch(b % 4))
  {
  }

  /** A code of 16 or more is a match wherever a code may stand, the start excepted. */
  predicate TakesCode(ctx: Ctx) {
    ctx.Top? || ctx.AfterRun? || ctx.AfterShort?
  }

  lemma CodeM2(s: seq<byte>, pos: nat, b: byte, c: byte, ctx: Ctx)
    requires pos + 2 <= |s| && s[pos] == b >= 64 && s[pos + 1] == c && TakesCode(ctx)
    ensures StepAt(s, pos, ctx) == Next(Match(1 + b / 4 % 8 + 8 * c, b / 32 + 1), pos + 2, AfterMatch(b % 4))
  {
  }

  /** M3 with its length in the marker: 33 to 63 stand for 3 to 33 bytes. */
  lemma CodeM3(s: seq<byte>, pos: nat, b: byte, lo: byte, hi: byte, ctx: Ctx)
    requires pos + 3 <= |s| && s[pos] == b && 33 <= b < 64 && s[pos + 1] == lo && s[pos + 2] == hi && TakesCode(ctx)
    ensures StepAt(s, pos, ctx) == Next(Match(1 + lo / 4 + 64 * hi, b - 30), pos + 3, AfterMatch(lo % 4))
  {
    FieldValue(s, pos + 1);
  }

  lemma FieldValue(s: seq<byte>, pos: nat)
    requires pos + 2 <= |s|
    ensures var lo: nat, hi: nat := s[pos], s[pos + 1];
            OffsetField(s, pos) == lo / 4 + 64 * hi
  {
    var lo: nat, hi: nat := s[pos], s[pos + 1];
    assert (lo + 256 * hi) / 4 == lo / 4 + 64 * hi;
  }

  /** M3 with z zeros and e after the marker: 33 + 255 z + e bytes. */
  lemma CodeM3Long(s: seq<byte>, pos: nat, z: nat, e: byte, lo: byte, hi: byte, ctx: Ctx)
    requires pos < |s| && s[pos] == 32 && Extended(s, pos + 1, z, e) && pos + z + 4 <= |s| && TakesCode(ctx)
    requires s[pos + z + 2] == lo && s[pos + z + 3] == hi
    ensures StepAt(s, pos, ctx) == Next(Match(1 + lo / 4 + 64 * hi, 33 + 255 * z + e), pos + z + 4, AfterMatch(lo % 4))
  {
    ExtensionValue(s, pos + 1, z, e);
    FieldValue(s, pos + z + 2);
  }

  /** M4: bit 3 of the marker is bit 14 of the offset beyond 0x4000; nothing beyond it is the end. */
  lemma CodeM4(s: seq<byte>, pos: nat, b: byte, lo: byte, hi: byte, ctx: Ctx)
    requires pos + 3 <= |s| && s[pos] == b && 16 <= b < 32 && b % 8 != 0 && s[pos + 1] == lo && s[pos + 2] == hi
    requires TakesCode(ctx) || (ctx.Start? && b == 17)
    ensures var x := b / 8 % 2 * 0x4000 + lo / 4 + 64 * hi;
            StepAt(s, pos, ctx) == if x == 0 then Eof(pos + 3)
                                   else Next(Match(0x4000 + x, b % 8 + 2), pos + 3, AfterMatch(lo % 4))
  {
    FieldValue(s, pos + 1);
  }

  /** M4 with z zeros and e after the marker: 9 + 255 z + e bytes. */
  lemma CodeM4Long(s: seq<byte>, pos: nat, b: byte, z: nat, e: byte, lo: byte, hi: byte, ctx: Ctx)
    requires pos < |s| && s[pos] == b && (b == 16 || b == 24) && Extended(s, pos + 1, z, e) && pos + z + 4 <= |s| && TakesCode(ctx)
    requires s[pos + z + 2] == lo && s[pos + z + 3] == hi
    ensures var x := b / 8 % 2 * 0x4000 + lo / 4 + 64 * hi;
            StepAt(s, pos, ctx) == if x == 0 then Eof(pos + z + 4)
                                   else Next(Match(0x4000 + x, 9 + 255 * z + e), pos + z + 4, AfterMatch(lo % 4))
  {
    ExtensionValue(s, pos + 1, z, e);
    FieldValue(s, pos + z + 2);
  }

  // -------------------------------------------------------------- whole streams

  /** A match as it can be coded: the five forms of the format. */
  datatype Code =
    | Far(off: nat)            // three bytes, only after a run of four or more
    | Near(off: nat)           // two bytes, only after one to three literals
    | M2(off: nat, len: nat)
    | M3(off: nat, len: nat)
    | M4(off: nat, len: nat)

  predicate Fits(code: Code, before: nat) {
    match code
    case Far(off) => before >= 4 && 0x801 <= off <= 0xc00
    case Near(off) => 1 <= before <= 3 && 1 <= off <= 0x400
    case M2(off, len) => 1 <= off <= 0x800 && 3 <= len <= 8
    case M3(off, len) => 1 <= off <= 0x4000 && len >= 3
    case M4(off, len) => 0x4001 <= off <= 0xbfff && len >= 3
  }

  function MatchOf(code: Code): Token {
    match code
    case Far(off) => Match(off, 3)
    case Near(off) => Match(off, 2)
    case M2(off, len) => Match(off, len)
    case M3(off, len) => Match(off, len)
    case M4(off, len) => Match(off, len)
  }

  /** A count up to `most` inside the marker, or the marker, zeros worth 255 each and the rest. */
  function Counted(marker: nat, n: nat, most: nat): (r: seq<byte>)
    requires 1 <= n && marker + most < 256
    ensures |r| >= 1
  {
    if n <= most then [marker + n] else [marker] + Zeros((n - most - 1) / 255) + [(n - most - 1) % 255 + 1]
  }

  /** The bytes of a code; k is the number of literals that follow without a header. */
  function CodeBytes(code: Code, before: nat, k: nat): (r: seq<byte>)
    requires Fits(code, before) && k < 4
    ensures |r| >= 2
  {
    match code
    case Far(off) => [(off - 0x801) % 4 * 4 + k, (off - 0x801) / 4]
    case Near(off) => [(off - 1) % 4 * 4 + k, (off - 1) / 4]
    case M2(off, len) => [(len - 1) * 32 + (off - 1) % 8 * 4 + k, (off - 1) / 8]
    case M3(off, len) => Counted(32, len - 2, 31) + [(off - 1) % 64 * 4 + k, (off - 1) / 64]
    case M4(off, len) =>
      if off < 0x8000 then Counted(16, len - 2, 7) + [(off - 0x4000) % 64 * 4 + k, (off - 0x4000) / 64]
      else Counted(24, len - 2, 7) + [(off - 0x8000) % 64 * 4 + k, (off - 0x8000) / 64]
  }

  /** Up to three literals stand alone; more have a header. */
  function LiteralHeader(n: nat): seq<byte> {
    if n <= 3 then [] else Counted(0, n - 3, 15)
  }

  function LiteralBytes(lits: seq<byte>): seq<byte> {
    LiteralHeader(|lits|) + lits
  }

  /** A match and the literals after it. */
  datatype Block = Block(code: Code, lits: seq<byte>)

  predicate AllFit(blocks: seq<Block>, before: nat)
    decreases |blocks|
  {
    blocks == [] || (Fits(blocks[0].code, before) && AllFit(blocks[1..], |blocks[0].lits|))
  }

  function BlockBytes(b: Block, before: nat): seq<byte>
    requires Fits(b.code, before)
  {
    CodeBytes(b.code, before, if |b.lits| <= 3 then |b.lits| else 0) + LiteralBytes(b.lits)
  }

  function Wire(blocks: seq<Block>, before: nat): seq<byte>
    requires AllFit(blocks, before)
    decreases |blocks|
  {
    if blocks == [] then [] else BlockBytes(blocks[0], before) + Wire(blocks[1..], |blocks[0].lits|)
  }

  function Tokens(blocks: seq<Block>): seq<Token>
    decreases |blocks|
  {
    if blocks == [] then []
    else [MatchOf(blocks[0].code)] + LiteralToken(blocks[0].lits) + Tokens(blocks[1..])
  }

  /** The first literals: 1 to 238 counted by a byte above 17, or a run with a header. */
  predicate Opens(head: seq<byte>, run: bool) {
    if run then |head| >= 4 else 1 <= |head| <= 238
  }

  function HeadBytes(head: seq<byte>, run: bool): seq<byte>
    requires Opens(head, run)
  {
    if run then LiteralBytes(head) else [17 + |head|] + head
  }

  // ------------------------------------------------------------- what they make

  /** Byte i of a copy repeats the last `off` bytes over and over. */
  function Repeated(out: seq<byte>, off: nat, len: nat): (r: seq<byte>)
    requires 1 <= off <= |out|
  {
    seq(len, i requires 0 <= i < len => out[|out| - off + i % off])
  }

  datatype Fate = Made(out: seq<byte>) | Failed(code: int, out: seq<byte>)

  /** Tokens carried out within `cap` bytes, stopping at a match from before the output
      or at the first token without room. */
  function Produce(toks: seq<Token>, out: seq<byte>, cap: nat): Fate
    decreases |toks|
  {
    if toks == [] then Made(out)
    else
      match toks[0]
      case Literal(data) =>
        if |out| + |data| > cap then Failed(-5, out) else Produce(toks[1..], out + data, cap)
      case Match(off, len) =>
        if off == 0 || off > |out| then Failed(-6, out)
        else if |out| + len > cap then Failed(-5, out)
        else Produce(toks[1..], out + Repeated(out, off, len), cap)
  }

  // ------------------------------------------------------------ reading streams

  lemma AtIndex(s: seq<byte>, pos: nat, code: seq<byte>, i: nat)
    requires At(s, pos, code) && i < |code|
    ensures s[pos + i] == code[i]
  {
    assert s[pos..pos + |code|][i] == s[pos + i];
  }

  /** A count in its marker, or spread after it. */
  lemma CountedShape(s: seq<byte>, pos: nat, marker: nat, n: nat, most: nat)
    requires 1 <= n && marker + most < 256 && At(s, pos, Counted(marker, n, most))
    ensures n <= most ==> s[pos] == marker + n && |Counted(marker, n, most)| == 1
    ensures n > most ==>
              && s[pos] == marker && |Counted(marker, n, most)| == (n - most - 1) / 255 + 2
              && Extended(s, pos + 1, (n - most - 1) / 255, (n - most - 1) % 255 + 1)
  {
    var code := Counted(marker, n, most);
    AtIndex(s, pos, code, 0);
    if n > most {
      var z, e := (n - most - 1) / 255, (n - most - 1) % 255 + 1;
      AtIndex(s, pos, code, z + 1);
      forall i | pos + 1 <= i < pos + 1 + z ensures s[i] == 0 {
        AtIndex(s, pos, code, i - pos);
      }
    }
  }

  lemma Spread(n: nat, most: nat)
    requires n > most
    ensures 255 * ((n - most - 1) / 255) + ((n - most - 1) % 255 + 1) == n - most
  {
  }

  /** A run header counts its literals, whether or not they are all there. */
  lemma HeaderReads(s: seq<byte>, pos: nat, n: nat, ctx: Ctx)
    requires n >= 4 && At(s, pos, LiteralHeader(n)) && (ctx.Start? || ctx.Top?)
    ensures var p := pos + |LiteralHeader(n)|;
            StepAt(s, pos, ctx) == if p + n <= |s| then Next(Literal(s[p..p + n]), p + n, AfterRun) else Starved(n)
  {
    hide StepAt, At, Counted;
    AtSlice(s, pos, LiteralHeader(n));
    CountedShape(s, pos, 0, n - 3, 15);
    if n <= 18 {
      ShortRun(s, pos, s[pos], ctx);
    } else {
      Spread(n - 3, 15);
      LongRun(s, pos, (n - 19) / 255, (n - 19) % 255 + 1, ctx);
    }
  }

  lemma RunReads(s: seq<byte>, pos: nat, lits: seq<byte>, ctx: Ctx)
    requires |lits| >= 4 && At(s, pos, LiteralBytes(lits)) && (ctx.Start? || ctx.Top?)
    ensures StepAt(s, pos, ctx) == Next(Literal(lits), pos + |LiteralBytes(lits)|, AfterRun)
  {
    hide StepAt, At, LiteralHeader;
    var header := LiteralHeader(|lits|);
    AtParts(s, pos, header, lits);
    HeaderReads(s, pos, |lits|, ctx);
    AtSlice(s, pos + |header|, lits);
  }

  lemma AtSlice(s: seq<byte>, pos: nat, code: seq<byte>)
    requires At(s, pos, code)
    ensures pos + |code| <= |s| && s[pos..pos + |code|] == code
  {
  }

  /** The literals after a code with k in its free bits. */
  lemma LiteralsRead(s: seq<byte>, pos: nat, lits: seq<byte>)
    requires lits != [] && At(s, pos, LiteralBytes(lits))
    ensures StepAt(s, pos, AfterMatch(if |lits| <= 3 then |lits| else 0))
            == Next(Literal(lits), pos + |LiteralBytes(lits)|, AfterLiterals(|lits|))
  {
    if |lits| >= 4 {
      RunReads(s, pos, lits, Top);
    } else {
      assert LiteralBytes(lits) == lits;
    }
  }

  lemma HeadReads(s: seq<byte>, head: seq<byte>, run: bool)
    requires Opens(head, run) && At(s, 0, HeadBytes(head, run))
    ensures StepAt(s, 0, Start) == Next(Literal(head), |HeadBytes(head, run)|, AfterLiterals(|head|))
  {
    if run {
      RunReads(s, 0, head, Start);
    } else {
      AtParts(s, 0, [17 + |head|], head);
      AtFirst(s, 0, [17 + |head|]);
      FirstLiterals(s, s[0]);
    }
  }

  lemma ShortFields(x: nat, k: nat)
    requires x < 0x400 && k < 4
    ensures var b := x % 4 * 4 + k; b < 16 && b % 4 == k && b / 4 + 4 * (x / 4) == x
  {
  }

  lemma ShortReads(s: seq<byte>, pos: nat, code: Code, before: nat, k: nat)
    requires (code.Far? || code.Near? || code.M2?) && Fits(code, before) && k < 4 && At(s, pos, CodeBytes(code, before, k))
    ensures StepAt(s, pos, AfterLiterals(before)) == Next(MatchOf(code), pos + |CodeBytes(code, before, k)|, AfterMatch(k))
  {
    hide StepAt, At;
    var bytes := CodeBytes(code, before, k);
    AtIndex(s, pos, bytes, 0);
    AtIndex(s, pos, bytes, 1);
    AtSlice(s, pos, bytes);
    match code
    case Far(off) =>
      ShortFields(off - 0x801, k);
      FarMatch(s, pos, s[pos], s[pos + 1]);
    case Near(off) =>
      ShortFields(off - 1, k);
      NearMatch(s, pos, s[pos], s[pos + 1]);
    case M2(off, len) =>
      M2Fields(off, len, k);
      CodeM2(s, pos, s[pos], s[pos + 1], AfterLiterals(before));
  }

  lemma LongFields(x: nat, k: nat)
    requires x < 0x4000 && k < 4
    ensures var lo := x % 64 * 4 + k; lo % 4 == k && lo / 4 + 64 * (x / 64) == x
  {
  }

  lemma M3Reads(s: seq<byte>, pos: nat, off: nat, len: nat, before: nat, k: nat)
    requires Fits(M3(off, len), before) && k < 4 && At(s, pos, CodeBytes(M3(off, len), before, k))
    ensures StepAt(s, pos, AfterLiterals(before))
            == Next(Match(off, len), pos + |CodeBytes(M3(off, len), before, k)|, AfterMatch(k))
  {
    hide StepAt, At, Counted;
    var x := off - 1;
    var head, tail := Counted(32, len - 2, 31), [x % 64 * 4 + k, x / 64];
    OffsetReads(s, pos, head, x, k);
    CountedShape(s, pos, 32, len - 2, 31);
    LongFields(x, k);
    if len <= 33 {
      CodeM3(s, pos, s[pos], tail[0], tail[1], AfterLiterals(before));
    } else {
      Spread(len - 2, 31);
      CodeM3Long(s, pos, (len - 34) / 255, (len - 34) % 255 + 1, tail[0], tail[1], AfterLiterals(before));
    }
  }

  lemma OffsetReads(s: seq<byte>, pos: nat, head: seq<byte>, x: nat, k: nat)
    requires x < 0x4000 && k < 4 && At(s, pos, head + [x % 64 * 4 + k, x / 64])
    ensures At(s, pos, head) && pos + |head| + 2 <= |s|
    ensures s[pos + |head|] == x % 64 * 4 + k && s[pos + |head| + 1] == x / 64
  {
    var tail := [x % 64 * 4 + k, x / 64];
    AtParts(s, pos, head, tail);
    AtIndex(s, pos + |head|, tail, 0);
    AtIndex(s, pos + |head|, tail, 1);
  }

  lemma M4Parts(s: seq<byte>, pos: nat, marker: byte, x: nat, len: nat, ctx: Ctx, k: nat)
    requires (marker == 16 || marker == 24) && x < 0x4000 && (marker == 16 ==> x > 0) && len >= 3 && k < 4 && TakesCode(ctx)
    requires At(s, pos, Counted(marker, len - 2, 7) + [x % 64 * 4 + k, x / 64])
    ensures StepAt(s, pos, ctx) == Next(Match((if marker == 16 then 0x4000 else 0x8000) + x, len),
                                        pos + |Counted(marker, len - 2, 7)| + 2, AfterMatch(k))
  {
    hide StepAt, At, Counted;
    var lo, hi := x % 64 * 4 + k, x / 64;
    OffsetReads(s, pos, Counted(marker, len - 2, 7), x, k);
    CountedShape(s, pos, marker, len - 2, 7);
    LongFields(x, k);
    if len <= 9 {
      CodeM4(s, pos, s[pos], lo, hi, ctx);
    } else {
      Spread(len - 2, 7);
      CodeM4Long(s, pos, marker, (len - 10) / 255, (len - 10) % 255 + 1, lo, hi, ctx);
    }
  }

  lemma M4Reads(s: seq<byte>, pos: nat, off: nat, len: nat, before: nat, k: nat)
    requires Fits(M4(off, len), before) && k < 4 && At(s, pos, CodeBytes(M4(off, len), before, k))
    ensures StepAt(s, pos, AfterLiterals(before))
            == Next(Match(off, len), pos + |CodeBytes(M4(off, len), before, k)|, AfterMatch(k))
  {
    hide StepAt, At, Counted;
    if off < 0x8000 {
      M4Parts(s, pos, 16, off - 0x4000, len, AfterLiterals(before), k);
    } else {
      M4Parts(s, pos, 24, off - 0x8000, len, AfterLiterals(before), k);
    }
  }

  /** Every code reads back as the match it stands for, with the literals it announces. */
  lemma CodeReads(s: seq<byte>, pos: nat, code: Code, before: nat, k: nat)
    requires Fits(code, before) && k < 4 && At(s, pos, CodeBytes(code, before, k))
    ensures StepAt(s, pos, AfterLiterals(before)) == Next(MatchOf(code), pos + |CodeBytes(code, before, k)|, AfterMatch(k))
  {
    if code.M3? {
      M3Reads(s, pos, code.off, code.len, before, k);
    } else if code.M4? {
      M4Reads(s, pos, code.off, code.len, before, k);
    } else {
      ShortReads(s, pos, code, before, k);
    }
  }

  /** Copying byte by byte repeats the last `off` bytes. */
  lemma CopyRepeats(out: seq<byte>, off: nat, len: nat)
    requires 1 <= off <= |out|
    ensures CopyFrom(out, off, len) == out + Repeated(out, off, len)
  {
    hide CopyFrom;
    var r := out + Repeated(out, off, len);
    forall i | |out| <= i < |r| ensures r[i] == r[i - off] {
      var j := i - |out|;
      if j >= off {
        ModStep(j, off);
      } else {
        ModIs(j, 0, off, j);
      }
    }
    CopyFromUnique(out, off, len, r);
  }

  // ----------------------------------------------------------- decoding streams

  /** One whole token; literals need something after them. */
  lemma DecodeNext(s: seq<byte>, pos: nat, ctx: Ctx, tok: Token, p: nat, c: Ctx, out: seq<byte>, cap: nat)
    requires pos <= |s| && StepAt(s, pos, ctx) == Next(tok, p, c) && p <= |s| && (p < |s| || tok.Match?)
    ensures Decode(s, pos, ctx, out, cap) ==
            match Produce([tok], out, cap)
            case Made(o) => Decode(s, p, c, o, cap)
            case Failed(code, o) => Result(code, o)
  {
    hide StepAt, CopyFrom, Repeated;
    assert [tok][1..] == [];
    if tok.Match? && 1 <= tok.off <= |out| {
      CopyRepeats(out, tok.off, tok.len);
    }
  }

  lemma {:induction false} ProduceParts(a: seq<Token>, b: seq<Token>, out: seq<byte>, cap: nat)
    ensures Produce(a + b, out, cap) ==
            match Produce(a, out, cap)
            case Made(o) => Produce(b, o, cap)
            case Failed(code, o) => Failed(code, o)
    decreases |a|
  {
    hide Repeated;
    if a == [] {
      assert a + b == b;
    } else {
      assert (a + b)[1..] == a[1..] + b;
      match a[0]
      case Literal(data) => ProduceParts(a[1..], b, out + data, cap);
      case Match(off, len) =>
        if 1 <= off <= |out| {
          ProduceParts(a[1..], b, out + Repeated(out, off, len), cap);
        }
    }
  }

  /** The literals before the first code after the blocks. */
  function LastLiterals(blocks: seq<Block>, before: nat): nat
    decreases |blocks|
  {
    if blocks == [] then before else LastLiterals(blocks[1..], |blocks[0].lits|)
  }

  /** A match and its literals decode to what their tokens produce. */
  lemma BlockDecodes(s: seq<byte>, pos: nat, b: Block, before: nat, out: seq<byte>, cap: nat)
    requires Fits(b.code, before) && At(s, pos, BlockBytes(b, before))
    requires pos + |BlockBytes(b, before)| < |s| || b.lits == []
    ensures Decode(s, pos, AfterLiterals(before), out, cap) ==
            match Produce([MatchOf(b.code)] + LiteralToken(b.lits), out, cap)
            case Made(o) => Decode(s, pos + |BlockBytes(b, before)|, AfterLiterals(|b.lits|), o, cap)
            case Failed(code, o) => Result(code, o)
  {
    hide StepAt, At, Decode, Produce, CodeBytes, LiteralBytes;
    var k := if |b.lits| <= 3 then |b.lits| else 0;
    var bytes := CodeBytes(b.code, before, k);
    AtParts(s, pos, bytes, LiteralBytes(b.lits));
    AtSlice(s, pos, bytes);
    NoLiterals(out, cap);
    SomeLiterals(b.lits);
    CodeReads(s, pos, b.code, before, k);
    DecodeNext(s, pos, AfterLiterals(before), MatchOf(b.code), pos + |bytes|, AfterMatch(k), out, cap);
    ProduceParts([MatchOf(b.code)], LiteralToken(b.lits), out, cap);
    var f := Produce([MatchOf(b.code)], out, cap);
    if f.Made? {
      if b.lits == [] {
        NoLiterals(f.out, cap);
      } else {
        LiteralsRead(s, pos + |bytes|, b.lits);
        DecodeNext(s, pos + |bytes|, AfterMatch(k), Literal(b.lits), pos + |BlockBytes(b, before)|,
                   AfterLiterals(|b.lits|), f.out, cap);
      }
    }
  }

  lemma SomeLiterals(lits: seq<byte>)
    ensures |LiteralBytes(lits)| >= |lits|
  {
  }

  lemma NoLiterals(out: seq<byte>, cap: nat)
    ensures LiteralBytes([]) == [] && Produce([], out, cap) == Made(out)
  {
  }

  lemma WireGrows(blocks: seq<Block>, before: nat)
    requires AllFit(blocks, before)
    ensures if blocks == [] then Wire(blocks, before) == [] && LastLiterals(blocks, before) == before
            else |Wire(blocks, before)| >= 2
  {
  }

  lemma {:induction false} BlocksDecode(s: seq<byte>, pos: nat, blocks: seq<Block>, before: nat, out: seq<byte>, cap: nat)
    requires AllFit(blocks, before) && At(s, pos, Wire(blocks, before))
    requires pos + |Wire(blocks, before)| < |s| || LastLiterals(blocks, before) == 0
    ensures Decode(s, pos, AfterLiterals(before), out, cap) ==
            match Produce(Tokens(blocks), out, cap)
            case Made(o) => Decode(s, pos + |Wire(blocks, before)|, AfterLiterals(LastLiterals(blocks, before)), o, cap)
            case Failed(code, o) => Result(code, o)
    decreases |blocks|
  {
    hide At, Decode, BlockBytes, Fits, MatchOf, AfterLiterals, LiteralToken;
    if blocks != [] {
      var b, rest := blocks[0], blocks[1..];
      AtParts(s, pos, BlockBytes(b, before), Wire(rest, |b.lits|));
      AtSlice(s, pos, Wire(blocks, before));
      WireGrows(rest, |b.lits|);
      BlockDecodes(s, pos, b, before, out, cap);
      ProduceParts([MatchOf(b.code)] + LiteralToken(b.lits), Tokens(rest), out, cap);
      var f := Produce([MatchOf(b.code)] + LiteralToken(b.lits), out, cap);
      if f.Made? {
        BlocksDecode(s, pos + |BlockBytes(b, before)|, rest, |b.lits|, f.out, cap);
      }
    }
  }

  /** A stream of head literals and blocks, and what its tokens make. */
  function Stream(head: seq<byte>, run: bool, blocks: seq<Block>): seq<byte>
    requires Opens(head, run) && AllFit(blocks, |head|)
  {
    HeadBytes(head, run) + Wire(blocks, |head|)
  }

  function Makes(head: seq<byte>, blocks: seq<Block>, cap: nat): Fate {
    Produce([Literal(head)] + Tokens(blocks), [], cap)
  }

  /** Up to the end of its blocks a stream decodes to what its tokens make. */
  lemma StreamReads(s: seq<byte>, head: seq<byte>, run: bool, blocks: seq<Block>, cap: nat)
    requires Opens(head, run) && AllFit(blocks, |head|)
    requires At(s, 0, Stream(head, run, blocks))
    requires |Stream(head, run, blocks)| < |s| || LastLiterals(blocks, |head|) == 0
    ensures Decode(s, 0, Start, [], cap) ==
            match Makes(head, blocks, cap)
            case Made(o) => Decode(s, |Stream(head, run, blocks)|, AfterLiterals(LastLiterals(blocks, |head|)), o, cap)
            case Failed(code, o) => Result(code, o)
  {
    hide At, Decode, Produce, HeadBytes, Wire, AfterLiterals, LastLiterals, AllFit, Tokens;
    var h := HeadBytes(head, run);
    WireGrows(blocks, |head|);
    AtSlice(s, 0, Stream(head, run, blocks));
    AtParts(s, 0, h, Wire(blocks, |head|));
    HeadReads(s, head, run);
    DecodeNext(s, 0, Start, Literal(head), |h|, AfterLiterals(|head|), [], cap);
    ProduceParts([Literal(head)], Tokens(blocks), [], cap);
    var f := Produce([Literal(head)], [], cap);
    if f.Made? {
      BlocksDecode(s, |h|, blocks, |head|, f.out, cap);
    }
  }

  /** A stream and the end marker: exactly what its tokens make, 0 when nothing is left
      over and -8 otherwise; a failing token stops it with its own code. */
  lemma StreamDecodes(head: seq<byte>, run: bool, blocks: seq<Block>, rest: seq<byte>, cap: nat)
    requires Opens(head, run) && AllFit(blocks, |head|)
    ensures Decode(Stream(head, run, blocks) + [17, 0, 0] + rest, 0, Start, [], cap) ==
            match Makes(head, blocks, cap)
            case Made(o) => Result(if rest == [] then 0 else -8, o)
            case Failed(code, o) => Result(code, o)
  {
    hide Decode, Makes, Stream, AllFit, Opens, LastLiterals;
    var q := Stream(head, run, blocks);
    var s := q + [17, 0, 0] + rest;
    InStream(q, rest);
    StreamReads(s, head, run, blocks, cap);
    var ctx := AfterLiterals(LastLiterals(blocks, |head|));
    EofInverts(s, |q|, ctx);
    var f := Makes(head, blocks, cap);
    if f.Made? {
      DecodeEof(s, |q|, ctx, f.out, cap);
    }
  }

  lemma InStream(q: seq<byte>, rest: seq<byte>)
    ensures var s := q + [17, 0, 0] + rest; At(s, 0, q) && At(s, |q|, EOF_CODE)
  {
    var s := q + [17, 0, 0] + rest;
    assert s[0..|q|] == q;
    assert s[|q|..|q| + 3] == [17, 0, 0];
  }

  lemma DecodeEof(s: seq<byte>, pos: nat, ctx: Ctx, out: seq<byte>, cap: nat)
    requires pos + 3 <= |s| && StepAt(s, pos, ctx) == Eof(pos + 3)
    ensures Decode(s, pos, ctx, out, cap) == Result(if pos + 3 == |s| then 0 else -8, out)
  {
    hide StepAt;
  }

  /** A stream that stops after a match, without the end marker: -7. */
  lemma StreamUnended(head: seq<byte>, run: bool, blocks: seq<Block>, cap: nat)
    requires Opens(head, run) && AllFit(blocks, |head|) && LastLiterals(blocks, |head|) == 0
    ensures Decode(Stream(head, run, blocks), 0, Start, [], cap) ==
            match Makes(head, blocks, cap)
            case Made(o) => Result(-7, o)
            case Failed(code, o) => Result(code, o)
  {
    hide Makes, Stream, AllFit, Opens, LastLiterals;
    var s := Stream(head, run, blocks);
    assert s[0..|s|] == s;
    StreamReads(s, head, run, blocks, cap);
  }

  /** The reader at n literals of which no more than n are left in the input. */
  lemma DecodeStarves(s: seq<byte>, pos: nat, n: nat, part: seq<byte>, out: seq<byte>, cap: nat)
    requires n >= 1 && |part| <= n && At(s, pos, LiteralHeader(n) + part) && pos + |LiteralHeader(n) + part| == |s|
    ensures Decode(s, pos, AfterMatch(if n <= 3 then n else 0), out, cap) == Result(if |out| + n > cap then -5 else -4, out)
  {
    hide At, ReadCount, Counted, MatchStep, RunStep;
    if n >= 4 {
      AtParts(s, pos, LiteralHeader(n), part);
      HeaderReads(s, pos, n, Top);
    }
  }

  /** A stream that stops inside, or right after, the n literals of its last code: -4, or -5
      when there was no room for them. */
  lemma StreamStarves(head: seq<byte>, run: bool, blocks: seq<Block>, code: Code, n: nat, part: seq<byte>, cap: nat)
    requires Opens(head, run) && AllFit(blocks, |head|) && Fits(code, LastLiterals(blocks, |head|)) && 1 <= n && |part| <= n
    ensures var k := if n <= 3 then n else 0;
            var s := Stream(head, run, blocks) + (CodeBytes(code, LastLiterals(blocks, |head|), k) + (LiteralHeader(n) + part));
            Decode(s, 0, Start, [], cap) ==
            match Produce([Literal(head)] + Tokens(blocks) + [MatchOf(code)], [], cap)
            case Made(o) => Result(if |o| + n > cap then -5 else -4, o)
            case Failed(e, o) => Result(e, o)
  {
    hide Decode, Produce, Stream, AllFit, Opens, LastLiterals, CodeBytes, LiteralHeader, Fits, At;
    var q, last, k := Stream(head, run, blocks), LastLiterals(blocks, |head|), if n <= 3 then n else 0;
    var code', end := CodeBytes(code, last, k), LiteralHeader(n) + part;
    var s := q + (code' + end);
    ThreeParts(q, code', end);
    StreamReads(s, head, run, blocks, cap);
    ProduceParts([Literal(head)] + Tokens(blocks), [MatchOf(code)], [], cap);
    var f := Makes(head, blocks, cap);
    if f.Made? {
      CodeReads(s, |q|, code, last, k);
      DecodeNext(s, |q|, AfterLiterals(last), MatchOf(code), |q| + |code'|, AfterMatch(k), f.out, cap);
      var g := Produce([MatchOf(code)], f.out, cap);
      if g.Made? {
        DecodeStarves(s, |q| + |code'|, n, part, g.out, cap);
      }
    }
  }

  lemma ThreeParts(a: seq<byte>, b: seq<byte>, c: seq<byte>)
    ensures var s := a + (b + c); At(s, 0, a) && At(s, |a|, b) && At(s, |a| + |b|, c) && |s| == |a| + |b| + |c|
  {
    var s := a + (b + c);
    assert s[0..|a|] == a;
    assert s[|a|..|a| + |b|] == b;
    assert s[|a| + |b|..|a| + |b| + |c|] == c;
  }

  // ------------------------------------------------- what the compressor emits

  lemma {:induction false} ExtensionBytes(n: nat)
    requires n >= 1
    ensures Extension(n) == Zeros((n - 1) / 255) + [(n - 1) % 255 + 1]
    decreases n
  {
    if n > 255 {
      ExtensionBytes(n - 255);
      var z := (n - 1) / 255;
      assert (n - 256) / 255 == z - 1 && (n - 256) % 255 == (n - 1) % 255;
      assert Zeros(z) == [0] + Zeros(z - 1);
    }
  }

  /** The header of a run of n literals is the one of the format, for every n. */
  lemma RunCodeBytes(n: nat)
    requires n >= 4
    ensures RunCode(n) == if n <= 18 then [n - 3] else [0] + Zeros((n - 19) / 255) + [(n - 19) % 255 + 1]
  {
    hide Extension;
    if n > 18 {
      ExtensionBytes(n - 18);
    }
  }

  /** The compressor codes every match in the first of M2, M3 and M4 that holds it. */
  lemma MatchCodeBytes(off: nat, len: nat, before: nat, k: nat)
    requires 1 <= off <= 0xbfff && len >= 3 && k < 4
    ensures MatchCode(off, len, k) ==
            CodeBytes(if off <= 0x800 && len <= 8 then M2(off, len)
                      else if off <= 0x4000 then M3(off, len) else M4(off, len), before, k)
  {
    if off <= 0x800 && len <= 8 {
    } else if off <= 0x4000 {
      NearLongBytes(off, len, before, k);
    } else {
      FarLongBytes(off, len, before, k);
    }
  }

  lemma NearLongBytes(off: nat, len: nat, before: nat, k: nat)
    requires 1 <= off <= 0x4000 && len >= 3 && k < 4 && !(off <= 0x800 && len <= 8)
    ensures MatchCode(off, len, k) == CodeBytes(M3(off, len), before, k)
  {
    hide Marker, Counted;
    MarkerBytes(32, len, 33);
    assert LongOffset(off) / 64 < 256;
  }

  lemma FarLongBytes(off: nat, len: nat, before: nat, k: nat)
    requires 0x4000 < off <= 0xbfff && len >= 3 && k < 4
    ensures MatchCode(off, len, k) == CodeBytes(M4(off, len), before, k)
  {
    hide Marker, Counted;
    var x := off - 0x4000;
    OffsetBytes(x);
    assert x / 0x4000 == if off < 0x8000 then 0 else 1;
    if off < 0x8000 {
      MarkerBytes(16, len, 9);
    } else {
      MarkerBytes(24, len, 9);
    }
  }

  lemma MarkerBytes(marker: nat, len: nat, max: nat)
    requires len >= 3 && max >= 2 && marker + max - 2 < 256
    ensures Marker(marker, len, max) == Counted(marker, len - 2, max - 2)
  {
    hide Extension;
    if len > max {
      ExtensionBytes(len - max);
    }
  }

  lemma OffsetBytes(x: nat)
    requires x < 0x8000
    ensures x < 0x4000 ==> x / 64 % 256 == x / 64
    ensures x >= 0x4000 ==> x % 64 == (x - 0x4000) % 64 && x / 64 % 256 == (x - 0x4000) / 64
  {
  }
}
