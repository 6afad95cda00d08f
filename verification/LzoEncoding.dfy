/** The codes the LZO1X-1 compressor emits, and the proof that the format reads
    each of them back as the run or match it was emitted for. */
module LzoEncoding {
  import opened Bits
  import opened LzoFormat

  /** The tail of a long count: 255-valued zero bytes, then the remainder 1..255. */
  function Extension(n: nat): (r: seq<byte>)
    requires n >= 1
    ensures |r| == (n - 1) / 255 + 1
  {
    if n > 255 then [0] + Extension(n - 255) else [n]
  }

  /** Header of a run of four or more literals. */
  function RunCode(n: nat): (r: seq<byte>)
    requires n >= 4
    ensures |r| >= 1 && r[0] < 16
  {
    if n <= 18 then [n - 3] else [0] + Extension(n - 18)
  }

  predicate Codable(off: nat, len: nat) {
    1 <= off <= M4_MAX_OFFSET && len >= 3
  }

  /** A marker byte with its count in the low bits, or after it. */
  function Marker(marker: nat, len: nat, max: nat): (r: seq<byte>)
    requires len >= 2 && max >= 2 && marker + max - 2 < 256
    ensures |r| >= 1
  {
    if len <= max then [marker + (len - 2)] else [marker] + Extension(len - max)
  }

  /** Marker and count bytes of an M3 or M4 code. */
  function LongMarker(off: nat, len: nat): (r: seq<byte>)
    requires Codable(off, len)
    ensures |r| >= 1
  {
    if off <= M3_MAX_OFFSET then Marker(M3_MARKER, len, M3_MAX_LEN)
    else
      var high: nat := (off - 0x4000) / 0x4000;
      Marker(M4_MARKER + high * 8, len, M4_MAX_LEN)
  }

  function LongOffset(off: nat): nat
    requires 1 <= off <= M4_MAX_OFFSET
  {
    if off <= M3_MAX_OFFSET then off - 1 else off - 0x4000
  }

  /** A match code whose two free bits hold `k`, the number of literals that follow it. */
  function MatchCode(off: nat, len: nat, k: nat): (r: seq<byte>)
    requires Codable(off, len) && k < 4
    ensures |r| >= 2
  {
    if off <= M2_MAX_OFFSET && len <= M2_MAX_LEN then
      [(len - 1) * 32 + (off - 1) % 8 * 4 + k, (off - 1) / 8]
    else
      var o := LongOffset(off);
      LongMarker(off, len) + [o % 64 * 4 + k, o / 64 % 256]
  }

  const EOF_CODE: seq<byte> := [M4_MARKER + 1, 0, 0]

  // --------------------------------------------------- reading the codes back

  /** `code` stands in `s` at `pos`. */
  predicate At(s: seq<byte>, pos: nat, code: seq<byte>) {
    pos + |code| <= |s| && s[pos..pos + |code|] == code
  }

  lemma AtParts(s: seq<byte>, pos: nat, a: seq<byte>, b: seq<byte>)
    requires At(s, pos, a + b)
    ensures At(s, pos, a) && At(s, pos + |a|, b)
  {
    var w := s[pos..pos + |a + b|];
    assert w[..|a|] == a;
    assert w[|a|..] == b;
  }

  lemma AtFirst(s: seq<byte>, pos: nat, code: seq<byte>)
    requires At(s, pos, code) && code != []
    ensures s[pos] == code[0]
  {
    assert s[pos] == s[pos..pos + |code|][0];
  }

  lemma {:induction false} ExtensionInverts(s: seq<byte>, pos: nat, n: nat)
    requires n >= 1 && At(s, pos, Extension(n))
    ensures ReadExtension(s, pos) == Count(n, pos + |Extension(n)|)
    decreases n
  {
    if n > 255 {
      AtParts(s, pos, [0], Extension(n - 255));
      assert s[pos..pos + 1][0] == s[pos];
      ExtensionInverts(s, pos + 1, n - 255);
    } else {
      assert s[pos..pos + 1][0] == s[pos];
    }
  }

  lemma RunInverts(s: seq<byte>, pos: nat, data: seq<byte>, ctx: Ctx)
    requires |data| >= 4 && (ctx.Start? || ctx.Top?)
    requires At(s, pos, RunCode(|data|) + data)
    ensures StepAt(s, pos, ctx) == Next(Literal(data), pos + |RunCode(|data|)| + |data|, AfterRun)
  {
    hide Extension, ReadExtension, MatchStep, ShortMatchStep;
    var n := |data|;
    AtParts(s, pos, RunCode(n), data);
    AtFirst(s, pos, RunCode(n));
    if n > 18 {
      AtParts(s, pos, [0], Extension(n - 18));
      ExtensionInverts(s, pos + 1, n - 18);
    }
  }

  lemma M2Fields(off: nat, len: nat, k: nat)
    requires Codable(off, len) && off <= M2_MAX_OFFSET && len <= M2_MAX_LEN && k < 4
    ensures var t := (len - 1) * 32 + (off - 1) % 8 * 4 + k;
            64 <= t < 256 && t / 32 + 1 == len && t % 4 == k && 1 + t / 4 % 8 + (off - 1) / 8 * 8 == off
  {
    var m := (off - 1) % 8;
    var t := (len - 1) * 32 + m * 4 + k;
    assert t / 4 == (len - 1) * 8 + m;
  }

  lemma M2Inverts(s: seq<byte>, pos: nat, off: nat, len: nat, k: nat)
    requires Codable(off, len) && off <= M2_MAX_OFFSET && len <= M2_MAX_LEN && k < 4
    requires At(s, pos, MatchCode(off, len, k))
    ensures s[pos] >= 16 && MatchStep(s, pos) == Next(Match(off, len), pos + 2, AfterMatch(k))
  {
    var code := MatchCode(off, len, k);
    assert s[pos] == s[pos..pos + 2][0] && s[pos + 1] == s[pos..pos + 2][1];
    M2Fields(off, len, k);
  }

  lemma MarkerInverts(s: seq<byte>, pos: nat, marker: nat, len: nat, max: nat)
    requires len >= 3 && max >= 2 && marker + max - 2 < 256 && At(s, pos, Marker(marker, len, max))
    ensures marker <= s[pos] <= marker + max - 2
    ensures ReadCount(s, pos + 1, s[pos] - marker, max - 2) == Count(len - 2, pos + |Marker(marker, len, max)|)
  {
    hide Extension, ReadExtension, At;
    AtFirst(s, pos, Marker(marker, len, max));
    if len > max {
      AtParts(s, pos, [marker], Extension(len - max));
      ExtensionInverts(s, pos + 1, len - max);
    }
  }

  lemma LongMarkerInverts(s: seq<byte>, pos: nat, off: nat, len: nat)
    requires Codable(off, len) && At(s, pos, LongMarker(off, len))
    ensures var t: nat := s[pos];
            16 <= t < 64 && (t >= 32 <==> off <= M3_MAX_OFFSET)
            && (t >= 32 ==> ReadCount(s, pos + 1, t % 32, 31) == Count(len - 2, pos + |LongMarker(off, len)|))
            && (t < 32 ==> ReadCount(s, pos + 1, t % 8, 7) == Count(len - 2, pos + |LongMarker(off, len)|)
                           && t / 8 % 2 == (off - 0x4000) / 0x4000)
  {
    hide Marker, ReadCount;
    if off <= M3_MAX_OFFSET {
      MarkerInverts(s, pos, M3_MARKER, len, M3_MAX_LEN);
    } else {
      var high := (off - 0x4000) / 0x4000;
      assert high <= 1;
      MarkerInverts(s, pos, M4_MARKER + high * 8, len, M4_MAX_LEN);
    }
  }

  lemma LongOffsetInverts(s: seq<byte>, pos: nat, off: nat, k: nat)
    requires 1 <= off <= M4_MAX_OFFSET && k < 4
    requires At(s, pos, [LongOffset(off) % 64 * 4 + k, LongOffset(off) / 64 % 256])
    ensures s[pos] % 4 == k && OffsetField(s, pos) == LongOffset(off) % 0x4000
  {
    hide LongOffset;
    var o := LongOffset(off);
    assert s[pos] == s[pos..pos + 2][0] && s[pos + 1] == s[pos..pos + 2][1];
    TwoBytes(o, k);
  }

  /** Fourteen bits over two bytes, above two free bits. */
  lemma TwoBytes(o: nat, k: nat)
    requires k < 4
    ensures (o % 64 * 4 + k) % 4 == k && (o % 64 * 4 + k + 256 * (o / 64 % 256)) / 4 == o % 0x4000
  {
    var c := o / 64;
    var a, b, q := o % 64, c % 256, c / 256;
    assert (a * 4 + k + 256 * b) / 4 == a + 64 * b;
    assert o == 64 * c + a && c == 256 * q + b;
    assert o == 0x4000 * q + (64 * b + a) && 64 * b + a < 0x4000;
  }

  /** Bit 14 and the bits below it. */
  lemma HighBit(x: nat)
    ensures x / 0x4000 * 0x4000 + x % 0x4000 == x
  {
  }

  lemma LongParts(s: seq<byte>, pos: nat, off: nat, len: nat, k: nat)
    requires Codable(off, len) && !(off <= M2_MAX_OFFSET && len <= M2_MAX_LEN) && k < 4
    requires At(s, pos, MatchCode(off, len, k))
    ensures var p := pos + |LongMarker(off, len)|;
            && |MatchCode(off, len, k)| == |LongMarker(off, len)| + 2 && At(s, pos, LongMarker(off, len))
            && p + 2 <= |s| && s[p] % 4 == k
            && if off <= M3_MAX_OFFSET then OffsetField(s, p) == off - 1
               else (off - 0x4000) / 0x4000 * 0x4000 + OffsetField(s, p) == off - 0x4000
  {
    hide LongMarker, OffsetField;
    var o := LongOffset(off);
    AtParts(s, pos, LongMarker(off, len), [o % 64 * 4 + k, o / 64 % 256]);
    LongOffsetInverts(s, pos + |LongMarker(off, len)|, off, k);
    HighBit(o);
  }

  lemma M3StepIs(s: seq<byte>, c: Count, off: nat, len: nat, k: nat)
    requires c.Count? && c.pos + 2 <= |s| && OffsetField(s, c.pos) == off - 1 && s[c.pos] % 4 == k && c.value == len - 2
    ensures M3Step(s, c) == Next(Match(off, len), c.pos + 2, AfterMatch(k))
  {
    hide OffsetField;
  }

  lemma M4StepIs(s: seq<byte>, c: Count, high: nat, off: nat, len: nat, k: nat)
    requires c.Count? && c.pos + 2 <= |s| && high * 0x4000 + OffsetField(s, c.pos) == off - 0x4000 > 0
    requires s[c.pos] % 4 == k && c.value == len - 2
    ensures M4Step(s, c, high) == Next(Match(off, len), c.pos + 2, AfterMatch(k))
  {
    hide OffsetField;
  }

  lemma LongInverts(s: seq<byte>, pos: nat, off: nat, len: nat, k: nat)
    requires Codable(off, len) && !(off <= M2_MAX_OFFSET && len <= M2_MAX_LEN) && k < 4
    requires At(s, pos, MatchCode(off, len, k))
    ensures s[pos] >= 16 && MatchStep(s, pos) == Next(Match(off, len), pos + |MatchCode(off, len, k)|, AfterMatch(k))
  {
    hide LongMarker, ReadCount, OffsetField, MatchCode, M3Step, M4Step;
    LongParts(s, pos, off, len, k);
    LongMarkerInverts(s, pos, off, len);
    var c := Count(len - 2, pos + |LongMarker(off, len)|);
    if off <= M3_MAX_OFFSET {
      M3StepIs(s, c, off, len, k);
    } else {
      M4StepIs(s, c, (off - 0x4000) / 0x4000, off, len, k);
    }
  }

  /** Offset, length and trailing-literal count all survive the code, which is never the end marker. */
  lemma MatchInverts(s: seq<byte>, pos: nat, off: nat, len: nat, k: nat, ctx: Ctx)
    requires Codable(off, len) && k < 4 && At(s, pos, MatchCode(off, len, k))
    requires ctx.Top? || ctx.AfterRun? || ctx.AfterShort?
    ensures StepAt(s, pos, ctx) == Next(Match(off, len), pos + |MatchCode(off, len, k)|, AfterMatch(k))
  {
    if off <= M2_MAX_OFFSET && len <= M2_MAX_LEN {
      M2Inverts(s, pos, off, len, k);
    } else {
      LongInverts(s, pos, off, len, k);
    }
  }

  lemma EofInverts(s: seq<byte>, pos: nat, ctx: Ctx)
    requires At(s, pos, EOF_CODE) && !ctx.Pending?
    ensures StepAt(s, pos, ctx) == Eof(pos + 3)
  {
    forall i: nat | i < 3 ensures s[pos + i] == EOF_CODE[i] {
      assert s[pos..pos + 3][i] == s[pos + i];
    }
  }

  // ------------------------------------------------------- prefixes of streams

  datatype Prefix = Prefix(toks: seq<Token>, ctx: Ctx) | NoPrefix

  /** The tokens of a stream cut between two tokens, and what is expected after the cut. */
  function ParsePrefix(s: seq<byte>, pos: nat, ctx: Ctx): Prefix
    requires pos <= |s|
    decreases |s| - pos
  {
    if pos == |s| then Prefix([], ctx)
    else
      match StepAt(s, pos, ctx)
      case Cut => NoPrefix
      case NoEof => NoPrefix
      case Starved(_) => NoPrefix
      case Eof(_) => NoPrefix
      case Next(tok, p, c) =>
        match ParsePrefix(s, p, c)
        case NoPrefix => NoPrefix
        case Prefix(toks, end) => Prefix([tok] + toks, end)
  }

  lemma {:induction false} ReadExtensionLocal(s: seq<byte>, r: seq<byte>, pos: nat)
    requires ReadExtension(s, pos).Count?
    ensures ReadExtension(s + r, pos) == ReadExtension(s, pos)
    decreases |s| - pos
  {
    assert (s + r)[pos] == s[pos];
    if s[pos] == 0 {
      ReadExtensionLocal(s, r, pos + 1);
    }
  }

  lemma CountLocal(s: seq<byte>, r: seq<byte>, pos: nat, field: nat, base: nat)
    requires pos <= |s| && ReadCount(s, pos, field, base).Count?
    ensures ReadCount(s + r, pos, field, base) == ReadCount(s, pos, field, base)
  {
    if field == 0 {
      ReadExtensionLocal(s, r, pos);
    }
  }

  lemma MatchStepLocal(s: seq<byte>, r: seq<byte>, pos: nat)
    requires pos < |s| && s[pos] >= 16 && MatchStep(s, pos).Next?
    ensures MatchStep(s + r, pos) == MatchStep(s, pos)
  {
    var t: nat := s[pos];
    if t >= 64 {
    } else if t >= 32 {
      CountLocal(s, r, pos + 1, t % 32, 31);
    } else {
      CountLocal(s, r, pos + 1, t % 8, 7);
    }
  }

  lemma LiteralStepLocal(s: seq<byte>, r: seq<byte>, pos: nat, n: nat, ctx: Ctx)
    requires pos <= |s| && LiteralStep(s, pos, n, ctx).Next?
    ensures LiteralStep(s + r, pos, n, ctx) == LiteralStep(s, pos, n, ctx)
  {
    assert (s + r)[pos..pos + n] == s[pos..pos + n];
  }

  /** A token already complete is not changed by what follows it. */
  lemma StepLocal(s: seq<byte>, r: seq<byte>, pos: nat, ctx: Ctx)
    requires pos <= |s| && StepAt(s, pos, ctx).Next?
    ensures StepAt(s + r, pos, ctx) == StepAt(s, pos, ctx)
  {
    assert (s + r)[pos] == s[pos];
    if ctx.Start? && s[pos] > 17 {
      var n := s[pos] - 17;
      LiteralStepLocal(s, r, pos + 1, n, if n < 4 then AfterShort else AfterRun);
    } else if ctx.Pending? {
      LiteralStepLocal(s, r, pos, ctx.n, AfterShort);
    } else if s[pos] >= 16 {
      MatchStepLocal(s, r, pos);
    } else if !ctx.AfterRun? && !ctx.AfterShort? {
      CountLocal(s, r, pos + 1, s[pos], 15);
      var c := ReadCount(s, pos + 1, s[pos], 15);
      LiteralStepLocal(s, r, c.pos, c.value + 3, AfterRun);
    }
  }

  function Run(out: seq<byte>, toks: seq<Token>, cap: nat): Applied
    decreases |toks|
  {
    if toks == [] then Done(out)
    else
      match Apply(out, toks[0], cap)
      case Done(o) => Run(o, toks[1..], cap)
      case Lookbehind => Lookbehind
      case Overrun => Overrun
  }

  lemma {:induction false} RunSnoc(out: seq<byte>, toks: seq<Token>, tok: Token, cap: nat)
    requires Run(out, toks, cap).Done?
    ensures Run(out, toks + [tok], cap) == Apply(Run(out, toks, cap).out, tok, cap)
    decreases |toks|
  {
    if toks == [] {
      assert toks + [tok] == [tok];
    } else {
      assert (toks + [tok])[1..] == toks[1..] + [tok];
      RunSnoc(Apply(out, toks[0], cap).out, toks[1..], tok, cap);
    }
  }

  /** Decoding goes through a prefix of whole tokens as its tokens run. */
  lemma {:induction false} DecodeContinues(s: seq<byte>, r: seq<byte>, pos: nat, ctx: Ctx, out: seq<byte>, cap: nat)
    requires pos <= |s| && r != [] && ParsePrefix(s, pos, ctx).Prefix?
    requires Run(out, ParsePrefix(s, pos, ctx).toks, cap).Done?
    ensures var p := ParsePrefix(s, pos, ctx);
            Decode(s + r, pos, ctx, out, cap) == Decode(s + r, |s|, p.ctx, Run(out, p.toks, cap).out, cap)
    decreases |s| - pos
  {
    if pos < |s| {
      var st := StepAt(s, pos, ctx);
      StepLocal(s, r, pos, ctx);
      DecodeContinues(s, r, st.pos, st.ctx, Apply(out, st.tok, cap).out, cap);
    }
  }

  /** One more token after a prefix. */
  lemma {:induction false} PrefixSnoc(s: seq<byte>, r: seq<byte>, pos: nat, ctx: Ctx, tok: Token, ctx': Ctx)
    requires pos <= |s| && r != [] && ParsePrefix(s, pos, ctx).Prefix?
    requires StepAt(s + r, |s|, ParsePrefix(s, pos, ctx).ctx) == Next(tok, |s + r|, ctx')
    ensures ParsePrefix(s + r, pos, ctx) == Prefix(ParsePrefix(s, pos, ctx).toks + [tok], ctx')
    decreases |s| - pos
  {
    if pos < |s| {
      var st := StepAt(s, pos, ctx);
      StepLocal(s, r, pos, ctx);
      PrefixSnoc(s, r, st.pos, st.ctx, tok, ctx');
    } else {
      assert ParsePrefix(s + r, |s + r|, ctx') == Prefix([], ctx');
    }
  }

  // ------------------------------------------------ what the compressor keeps

  /** C's `op[-2] |= t`, op being the end of p. */
  function Patch(p: seq<byte>, t: nat): (r: seq<byte>)
    requires |p| >= 2 && p[|p| - 2] % 4 == 0 && t < 4
    ensures |r| == |p|
  {
    p[|p| - 2 := p[|p| - 2] + t]
  }

  /** The bytes p end in a match code with free low bits, and whatever count is put there
      reads back as that many pending literals after the tokens `toks`. */
  ghost predicate EndsInMatch(p: seq<byte>, toks: seq<Token>) {
    && |p| >= 2 && p[|p| - 2] % 4 == 0
    && forall t: nat | t < 4 :: ParsePrefix(Patch(p, t), 0, Start) == Prefix(toks, AfterMatch(t))
  }

  lemma MatchCodePatch(q: seq<byte>, off: nat, len: nat, t: nat)
    requires Codable(off, len) && t < 4
    ensures var p := q + MatchCode(off, len, 0);
            p[|p| - 2] % 4 == 0 && Patch(p, t) == q + MatchCode(off, len, t)
  {
    if off <= M2_MAX_OFFSET && len <= M2_MAX_LEN {
      M2Fields(off, len, 0);
    }
  }

  /** A match after any prefix that allows one. */
  lemma AppendMatch(q: seq<byte>, toks: seq<Token>, ctx: Ctx, off: nat, len: nat)
    requires Codable(off, len) && (ctx.Top? || ctx.AfterRun? || ctx.AfterShort?)
    requires ParsePrefix(q, 0, Start) == Prefix(toks, ctx)
    ensures EndsInMatch(q + MatchCode(off, len, 0), toks + [Match(off, len)])
  {
    var p := q + MatchCode(off, len, 0);
    MatchCodePatch(q, off, len, 0);
    forall t: nat | t < 4
      ensures ParsePrefix(Patch(p, t), 0, Start) == Prefix(toks + [Match(off, len)], AfterMatch(t))
    {
      MatchCodePatch(q, off, len, t);
      MatchInverts(q + MatchCode(off, len, t), |q|, off, len, t, ctx);
      PrefixSnoc(q, MatchCode(off, len, t), 0, Start, Match(off, len), AfterMatch(t));
    }
  }

  /** Literals after p: patched into its last code, or as a run of their own. */
  function WithLiterals(p: seq<byte>, data: seq<byte>): (q: seq<byte>)
    requires 1 <= |data| <= 3 ==> |p| >= 2 && p[|p| - 2] % 4 == 0
  {
    if data == [] then p
    else if |data| <= 3 then Patch(p, |data|) + data
    else p + (RunCode(|data|) + data)
  }

  function LiteralToken(data: seq<byte>): seq<Token> {
    if data == [] then [] else [Literal(data)]
  }

  function AfterLiterals(n: nat): Ctx {
    if n == 0 then Top else if n <= 3 then AfterShort else AfterRun
  }

  /** Nothing emitted yet, or bytes that end in a match. */
  ghost predicate Whole(p: seq<byte>, toks: seq<Token>) {
    (p == [] && toks == []) || EndsInMatch(p, toks)
  }

  lemma AppendLiterals(p: seq<byte>, toks: seq<Token>, data: seq<byte>)
    requires Whole(p, toks) && (p == [] ==> |data| >= 4)
    ensures ParsePrefix(WithLiterals(p, data), 0, Start) == Prefix(toks + LiteralToken(data), AfterLiterals(|data|))
  {
    hide RunCode, MatchStep, ReadCount, ShortMatchStep;
    if data == [] {
      assert Patch(p, 0) == p && toks + [] == toks;
    } else if |data| <= 3 {
      var q := Patch(p, |data|);
      assert (q + data)[|q|..|q| + |data|] == data;
      PrefixSnoc(q, data, 0, Start, Literal(data), AfterShort);
    } else {
      var code := RunCode(|data|) + data;
      assert p != [] ==> Patch(p, 0) == p;
      RunInverts(p + code, |p|, data, if p == [] then Start else Top);
      PrefixSnoc(p, code, 0, Start, Literal(data), AfterRun);
    }
  }

  /** The bytes p are whole tokens that, with room, decode to `done`. */
  ghost predicate Emitted(p: seq<byte>, toks: seq<Token>, done: seq<byte>) {
    && Whole(p, toks)
    && (p == [] ==> done == [])
    && Run([], toks, |done|) == Done(done)
  }

  lemma {:induction false} CopyFromExtends(out: seq<byte>, off: nat, len: nat)
    requires 1 <= off <= |out|
    ensures out <= CopyFrom(out, off, len)
    decreases len
  {
    if len > 0 {
      CopyFromExtends(out + [out[|out| - off]], off, len - 1);
    }
  }

  /** Room beyond the result makes no difference. */
  lemma {:induction false} RunMoreRoom(out: seq<byte>, toks: seq<Token>, cap: nat, cap': nat)
    requires Run(out, toks, cap).Done? && cap' >= |Run(out, toks, cap).out|
    ensures Run(out, toks, cap') == Run(out, toks, cap)
    ensures out <= Run(out, toks, cap).out
    decreases |toks|
  {
    if toks != [] {
      var o := Apply(out, toks[0], cap).out;
      RunMoreRoom(o, toks[1..], cap, cap');
      if toks[0].Match? {
        CopyFromExtends(out, toks[0].off, toks[0].len);
      }
    }
  }

  /** Too little room stops the decoder with a prefix of the result. */
  lemma {:induction false} DecodeOverruns(s: seq<byte>, r: seq<byte>, pos: nat, ctx: Ctx, out: seq<byte>, cap: nat, cap': nat)
    requires pos <= |s| && r != [] && ParsePrefix(s, pos, ctx).Prefix?
    requires Run(out, ParsePrefix(s, pos, ctx).toks, cap).Done?
    requires |out| <= cap' < |Run(out, ParsePrefix(s, pos, ctx).toks, cap).out|
    ensures var d := Decode(s + r, pos, ctx, out, cap');
            d.Result? && d.code == LZO_E_OUTPUT_OVERRUN && d.out <= Run(out, ParsePrefix(s, pos, ctx).toks, cap).out
    decreases |s| - pos
  {
    var toks := ParsePrefix(s, pos, ctx).toks;
    RunMoreRoom(out, toks, cap, |Run(out, toks, cap).out|);
    if pos < |s| {
      var st := StepAt(s, pos, ctx);
      StepLocal(s, r, pos, ctx);
      var o := Apply(out, st.tok, cap).out;
      if |o| <= cap' {
        DecodeOverruns(s, r, st.pos, st.ctx, o, cap, cap');
      }
    }
  }

  /** The bytes `s` are a complete LZO1X stream for `data`: decoding succeeds exactly when there is room. */
  ghost predicate Encodes(s: seq<byte>, data: seq<byte>) {
    forall cap: nat ::
      var d := Decode(s, 0, Start, [], cap);
      d.Result? && if cap >= |data| then d == Result(LZO_E_OK, data)
                   else d.code == LZO_E_OUTPUT_OVERRUN && d.out <= data
  }

  /** A literal run and a match, emitted after whole tokens. */
  lemma EmitBlock(p: seq<byte>, toks: seq<Token>, done: seq<byte>, data: seq<byte>, off: nat, len: nat)
    requires Emitted(p, toks, done) && (p == [] ==> |data| >= 4)
    requires Codable(off, len) && off <= |done + data|
    ensures Emitted(WithLiterals(p, data) + MatchCode(off, len, 0),
                    toks + LiteralToken(data) + [Match(off, len)],
                    CopyFrom(done + data, off, len))
  {
    AppendLiterals(p, toks, data);
    AppendMatch(WithLiterals(p, data), toks + LiteralToken(data), AfterLiterals(|data|), off, len);
    var cap := |CopyFrom(done + data, off, len)|;
    RunLiterals(toks, done, data, cap);
    RunSnoc([], toks + LiteralToken(data), Match(off, len), cap);
  }

  lemma RunLiterals(toks: seq<Token>, done: seq<byte>, data: seq<byte>, cap: nat)
    requires Run([], toks, |done|) == Done(done) && cap >= |done + data|
    ensures Run([], toks + LiteralToken(data), cap) == Done(done + data)
  {
    RunMoreRoom([], toks, |done|, cap);
    if data == [] {
      assert toks + [] == toks && done + [] == done;
    } else {
      RunSnoc([], toks, Literal(data), cap);
    }
  }

  /** A prefix of whole tokens, closed by the end marker, is a stream for what the tokens produce. */
  lemma CloseStream(q: seq<byte>, toks: seq<Token>, ctx: Ctx, data: seq<byte>)
    requires ParsePrefix(q, 0, Start) == Prefix(toks, ctx) && !ctx.Pending?
    requires Run([], toks, |data|) == Done(data)
    ensures Encodes(q + EOF_CODE, data)
  {
    var s := q + EOF_CODE;
    assert s[|q|..|q| + 3] == EOF_CODE;
    EofInverts(s, |q|, ctx);
    forall cap: nat
      ensures var d := Decode(s, 0, Start, [], cap);
              d.Result? && if cap >= |data| then d == Result(LZO_E_OK, data)
                           else d.code == LZO_E_OUTPUT_OVERRUN && d.out <= data
    {
      if cap >= |data| {
        RunMoreRoom([], toks, |data|, cap);
        DecodeContinues(q, EOF_CODE, 0, Start, [], cap);
      } else {
        DecodeOverruns(q, EOF_CODE, 0, Start, [], |data|, cap);
      }
    }
  }

  /** The last literals: a lone run of up to 238 is counted by a first byte above 17. */
  function WithTail(p: seq<byte>, data: seq<byte>): seq<byte>
    requires p != [] && 1 <= |data| <= 3 ==> |p| >= 2 && p[|p| - 2] % 4 == 0
  {
    if p == [] && 1 <= |data| <= 238 then [17 + |data|] + data else WithLiterals(p, data)
  }

  lemma EmitTail(p: seq<byte>, toks: seq<Token>, done: seq<byte>, data: seq<byte>)
    requires Emitted(p, toks, done)
    ensures Encodes(WithTail(p, data) + EOF_CODE, done + data)
  {
    RunLiterals(toks, done, data, |done + data|);
    if p == [] && |data| <= 238 {
      if data == [] {
        CloseStream([], [], Start, []);
        assert done + data == [] && WithTail(p, data) == [];
      } else {
        var q := [17 + |data|] + data;
        assert q[1..1 + |data|] == data;
        var ctx := if |data| < 4 then AfterShort else AfterRun;
        assert ParsePrefix(q, |q|, ctx) == Prefix([], ctx);
        CloseStream(q, [Literal(data)], ctx, data);
        assert done + data == data;
      }
    } else {
      AppendLiterals(p, toks, data);
      CloseStream(WithLiterals(p, data), toks + LiteralToken(data), AfterLiterals(|data|), done + data);
    }
  }
}
