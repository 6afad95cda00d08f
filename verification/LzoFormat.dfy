/** The LZO1X stream format: how bytes are read as tokens, and what tokens mean.
    The meaning is plain byte-at-a-time LZ77; nothing here knows how the
    decompressor copies or how the compressor chooses its matches. */
module LzoFormat {
  import opened Bits

  const M2_MAX_OFFSET: nat := 0x0800
  const M3_MAX_OFFSET: nat := 0x4000
  const M4_MAX_OFFSET: nat := 0xbfff
  const M2_MAX_LEN: nat := 8
  const M3_MAX_LEN: nat := 33
  const M4_MAX_LEN: nat := 9
  const M3_MARKER: nat := 32
  const M4_MARKER: nat := 16

  datatype Token =
    | Literal(data: seq<byte>)
    | Match(off: nat, len: nat)

  type low = n: nat | 1 <= n <= 3 witness 1

  /** What the reader expects next: the decoder's program point. */
  datatype Ctx =
    | Start            // nothing read yet
    | Top              // a literal run or a match
    | AfterRun         // a match; a byte below 16 is a far 3-byte match
    | Pending(n: low)  // literals counted by the low bits of the last match code
    | AfterShort       // a match; a byte below 16 is a near 2-byte match

  function AfterMatch(n: nat): Ctx
    requires n < 4
  {
    if n == 0 then Top else Pending(n)
  }

  datatype Count = Count(value: nat, pos: nat) | NoCount

  /** Zero bytes worth 255 each, closed by a non-zero byte. */
  function ReadExtension(s: seq<byte>, pos: nat): (c: Count)
    ensures c.Count? ==> pos < c.pos <= |s| && c.value >= 1
    decreases |s| - pos
  {
    if pos >= |s| then NoCount
    else if s[pos] != 0 then Count(s[pos], pos + 1)
    else
      match ReadExtension(s, pos + 1)
      case Count(v, p) => Count(255 + v, p)
      case NoCount => NoCount
  }

  /** A count held in the marker byte, or, when that field is 0, in extension bytes. */
  function ReadCount(s: seq<byte>, pos: nat, field: nat, base: nat): (c: Count)
    requires pos <= |s|
    ensures c.Count? ==> pos <= c.pos <= |s| && c.value >= 1
  {
    if field != 0 then Count(field, pos)
    else
      match ReadExtension(s, pos)
      case Count(v, p) => Count(base + v, p)
      case NoCount => NoCount
  }

  /** What reading one token finds. */
  datatype Step =
    | Next(tok: Token, pos: nat, ctx: Ctx)
    | Eof(pos: nat)    // the end marker
    | NoEof            // the input stops between tokens
    | Starved(n: nat)  // the input stops inside a count (n == 0) or a run of n literals
    | Cut              // the input stops inside a code, where the decoder does not look

  function LiteralStep(s: seq<byte>, pos: nat, n: nat, ctx: Ctx): (r: Step)
    requires pos <= |s|
    ensures r.Next? ==> r.pos == pos + n <= |s|
    ensures !r.Eof?
  {
    if pos + n <= |s| then Next(Literal(s[pos..pos + n]), pos + n, ctx) else Starved(n)
  }

  /** A match whose code is the two bytes at pos: `t`, then a byte of offset. */
  function ShortMatchStep(s: seq<byte>, pos: nat, nearest: nat, scale: nat, field: nat, len: nat): (r: Step)
    requires pos < |s|
    ensures r.Next? ==> r.pos == pos + 2 <= |s|
    ensures !r.Eof?
  {
    if pos + 2 <= |s| then
      Next(Match(nearest + field + s[pos + 1] * scale, len), pos + 2, AfterMatch(s[pos] % 4))
    else Cut
  }

  /** The little-endian 16 bits at `pos` without their low two bits. */
  function OffsetField(s: seq<byte>, pos: nat): nat
    requires pos + 2 <= |s|
  {
    var lo: nat, hi: nat := s[pos], s[pos + 1];
    (lo + 256 * hi) / 4
  }

  /** An M3 code, its count read up to `c`. */
  function M3Step(s: seq<byte>, c: Count): (r: Step)
    ensures r.Next? ==> c.Count? && r.pos == c.pos + 2 <= |s|
    ensures !r.Eof?
  {
    if c.NoCount? then Starved(0)
    else if c.pos + 2 > |s| then Cut
    else Next(Match(1 + OffsetField(s, c.pos), c.value + 2), c.pos + 2, AfterMatch(s[c.pos] % 4))
  }

  /** An M4 code or the end marker, its count read up to `c`; `high` is bit 14 of the offset. */
  function M4Step(s: seq<byte>, c: Count, high: nat): (r: Step)
    ensures r.Next? || r.Eof? ==> c.Count? && r.pos == c.pos + 2 <= |s|
  {
    if c.NoCount? then Starved(0)
    else if c.pos + 2 > |s| then Cut
    else
      var x := high * 0x4000 + OffsetField(s, c.pos);
      if x == 0 then Eof(c.pos + 2)
      else Next(Match(0x4000 + x, c.value + 2), c.pos + 2, AfterMatch(s[c.pos] % 4))
  }

  /** A code of 16 or more: M2, M3, M4 or the end marker. */
  function MatchStep(s: seq<byte>, pos: nat): (r: Step)
    requires pos < |s| && s[pos] >= 16
    ensures r.Next? || r.Eof? ==> pos < r.pos <= |s|
  {
    var t: nat := s[pos];
    if t >= 64 then ShortMatchStep(s, pos, 1, 8, t / 4 % 8, t / 32 + 1)
    else if t >= 32 then M3Step(s, ReadCount(s, pos + 1, t % 32, 31))
    else M4Step(s, ReadCount(s, pos + 1, t % 8, 7), t / 8 % 2)
  }

  /** A literal run of four or more. */
  function RunStep(s: seq<byte>, pos: nat): (r: Step)
    requires pos < |s|
    ensures r.Next? ==> pos < r.pos <= |s|
    ensures !r.Eof?
  {
    var c := ReadCount(s, pos + 1, s[pos], 15);
    if c.NoCount? then Starved(0) else LiteralStep(s, c.pos, c.value + 3, AfterRun)
  }

  /** Reads the token at `pos`. */
  function StepAt(s: seq<byte>, pos: nat, ctx: Ctx): (r: Step)
    requires pos <= |s|
    ensures r.Next? || r.Eof? ==> pos < r.pos <= |s|
  {
    if ctx.Pending? then LiteralStep(s, pos, ctx.n, AfterShort)
    else if pos == |s| then if ctx.Top? then NoEof else Cut
    else if ctx.AfterShort? && pos + 1 == |s| then NoEof
    else if ctx.Start? && s[pos] > 17 then
      var n := s[pos] - 17;
      LiteralStep(s, pos + 1, n, if n < 4 then AfterShort else AfterRun)
    else if s[pos] >= 16 then MatchStep(s, pos)
    else if ctx.AfterRun? then ShortMatchStep(s, pos, 1 + M2_MAX_OFFSET, 4, s[pos] / 4, 3)
    else if ctx.AfterShort? then ShortMatchStep(s, pos, 1, 4, s[pos] / 4, 2)
    else RunStep(s, pos)
  }

  // ------------------------------------------------------------------ meaning

  /** Appends `len` bytes, each a copy of the byte `off` places before it. */
  function CopyFrom(out: seq<byte>, off: nat, len: nat): (r: seq<byte>)
    requires 1 <= off <= |out|
    ensures |r| == |out| + len
    decreases len
  {
    if len == 0 then out else CopyFrom(out + [out[|out| - off]], off, len - 1)
  }

  datatype Applied = Done(out: seq<byte>) | Lookbehind | Overrun

  /** One token applied to the output, within `cap` bytes. */
  function Apply(out: seq<byte>, tok: Token, cap: nat): Applied {
    match tok
    case Literal(data) => if |out| + |data| > cap then Overrun else Done(out + data)
    case Match(off, len) =>
      if off == 0 || off > |out| then Lookbehind
      else if |out| + len > cap then Overrun
      else Done(CopyFrom(out, off, len))
  }

  const LZO_E_OK := 0
  const LZO_E_INPUT_OVERRUN := -4
  const LZO_E_OUTPUT_OVERRUN := -5
  const LZO_E_LOOKBEHIND_OVERRUN := -6
  const LZO_E_EOF_NOT_FOUND := -7
  const LZO_E_INPUT_NOT_CONSUMED := -8

  /** A return code with the output produced before it; OutOfRange when a code is cut off. */
  datatype Outcome = Result(code: int, out: seq<byte>) | OutOfRange

  function Starving(n: nat, out: seq<byte>, cap: nat): Outcome {
    Result(if |out| + n > cap then LZO_E_OUTPUT_OVERRUN else LZO_E_INPUT_OVERRUN, out)
  }

  /** The meaning of the stream from `pos` on, after `out`: one token at a time.
      Literals count as present only if something follows them. */
  function Decode(s: seq<byte>, pos: nat, ctx: Ctx, out: seq<byte>, cap: nat): Outcome
    requires pos <= |s|
    decreases |s| - pos
  {
    match StepAt(s, pos, ctx)
    case Cut => OutOfRange
    case NoEof => Result(LZO_E_EOF_NOT_FOUND, out)
    case Eof(p) => Result(if p == |s| then LZO_E_OK else LZO_E_INPUT_NOT_CONSUMED, out)
    case Starved(n) => Starving(n, out, cap)
    case Next(tok, p, c) =>
      if tok.Literal? && p == |s| then Starving(|tok.data|, out, cap)
      else
        match Apply(out, tok, cap)
        case Done(o) => Decode(s, p, c, o, cap)
        case Lookbehind => Result(LZO_E_LOOKBEHIND_OVERRUN, out)
        case Overrun => Result(LZO_E_OUTPUT_OVERRUN, out)
  }

  /** A copy is the only extension in which every new byte repeats the one `off` before it. */
  lemma {:induction false} CopyFromUnique(out: seq<byte>, off: nat, len: nat, r: seq<byte>)
    requires 1 <= off <= |out|
    requires |r| == |out| + len && r[..|out|] == out
    requires forall i | |out| <= i < |r| :: r[i] == r[i - off]
    ensures CopyFrom(out, off, len) == r
    decreases len
  {
    if len == 0 {
      assert r[..|out|] == r;
    } else {
      var o := out + [out[|out| - off]];
      assert r[|out|] == r[|out| - off] == out[|out| - off];
      assert r[..|out| + 1] == o;
      CopyFromUnique(o, off, len - 1, r);
    }
  }
}
