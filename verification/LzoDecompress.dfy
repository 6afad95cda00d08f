/** The decompressor, proved against the byte-at-a-time meaning of the format. */
module LzoDecompress {
  import opened Bits
  import opened LzoFormat

  // ------------------------------------------------------------------ copying

  /** One unaligned 32-bit load from the input and store to the output. */
  method Copy4In(src: seq<byte>, ip: nat, out: array<byte>, op: nat)
    requires ip + 4 <= |src| && op + 4 <= out.Length
    modifies out
    ensures out[..op + 4] == old(out[..op]) + src[ip..ip + 4]
    ensures out[op + 4..] == old(out[op + 4..])
  {
    out[op], out[op + 1], out[op + 2], out[op + 3] := src[ip], src[ip + 1], src[ip + 2], src[ip + 3];
  }

  /** One unaligned 32-bit load from the output already written and store after it. */
  method Copy4Within(out: array<byte>, op: nat, from: nat)
    requires from + 4 <= op && op + 4 <= out.Length
    modifies out
    ensures out[..op] == old(out[..op])
    ensures forall i | op <= i < op + 4 :: out[i] == out[i - (op - from)]
    ensures out[op + 4..] == old(out[op + 4..])
  {
    out[op], out[op + 1], out[op + 2], out[op + 3] := out[from], out[from + 1], out[from + 2], out[from + 3];
  }

  method CopyBytes(src: seq<byte>, ip: nat, out: array<byte>, op: nat, n: nat)
    requires ip + n <= |src| && op + n <= out.Length
    modifies out
    ensures out[..op + n] == old(out[..op]) + src[ip..ip + n]
    ensures out[op + n..] == old(out[op + n..])
  {
    var i := 0;
    while i < n
      invariant 0 <= i <= n
      invariant out[..op + i] == old(out[..op]) + src[ip..ip + i]
      invariant out[op + i..] == old(out[op + i..])
    {
      out[op + i] := src[ip + i];
      assert out[..op + i + 1] == out[..op + i] + [src[ip + i]];
      i := i + 1;
    }
  }

  /** A run of t + 3 literals: words first, then the one to three bytes left over. */
  method CopyRun(src: seq<byte>, ip0: nat, out: array<byte>, op0: nat, t0: nat)
    requires t0 >= 1 && ip0 + t0 + 3 <= |src| && op0 + t0 + 3 <= out.Length
    modifies out
    ensures out[..op0 + t0 + 3] == old(out[..op0]) + src[ip0..ip0 + t0 + 3]
    ensures out[op0 + t0 + 3..] == old(out[op0 + t0 + 3..])
  {
    ghost var head := out[..op0];
    Copy4In(src, ip0, out, op0);
    var ip, op, t := ip0 + 4, op0 + 4, t0 - 1;
    while t >= 4
      invariant ip - ip0 == op - op0 == t0 + 3 - t && t >= 0 && ip >= ip0
      invariant out[..op] == head + src[ip0..ip]
      invariant out[op..] == old(out[op..])
    {
      ghost var rest := out[op..];
      Copy4In(src, ip, out, op);
      RunGrows(head, src, ip0, ip, ip + 4);
      assert out[op + 4..] == rest[4..] == old(out[op..])[4..] == old(out[op + 4..]);
      ip, op, t := ip + 4, op + 4, t - 4;
    }
    ghost var rest := out[op..];
    CopyBytes(src, ip, out, op, t);
    RunGrows(head, src, ip0, ip, ip + t);
    assert out[op + t..] == rest[t..] == old(out[op..])[t..] == old(out[op + t..]);
  }

  lemma RunGrows(head: seq<byte>, src: seq<byte>, a: nat, b: nat, c: nat)
    requires a <= b <= c <= |src|
    ensures head + src[a..b] + src[b..c] == head + src[a..c]
  {
    assert src[a..b] + src[b..c] == src[a..c];
  }

  /** Periodic bytes one at a time, so that a match may overlap its own copy. */
  method CopyMatchBytes(out: array<byte>, op0: nat, from0: nat, n: nat)
    requires from0 < op0 && op0 + n <= out.Length
    modifies out
    ensures out[..op0] == old(out[..op0])
    ensures forall i | op0 <= i < op0 + n :: out[i] == out[i - (op0 - from0)]
    ensures out[op0 + n..] == old(out[op0 + n..])
  {
    var k := 0;
    while k < n
      invariant 0 <= k <= n
      invariant out[..op0] == old(out[..op0])
      invariant forall i | op0 <= i < op0 + k :: out[i] == out[i - (op0 - from0)]
      invariant out[op0 + k..] == old(out[op0 + k..])
    {
      out[op0 + k] := out[from0 + k];
      k := k + 1;
    }
  }

  /** A match of t + 2 bytes at `from`: by words when allowed, long and far enough, else by bytes. */
  method CopyMatch(out: array<byte>, op0: nat, from0: nat, t0: nat, words: bool)
    requires from0 < op0 && op0 + t0 + 2 <= out.Length
    modifies out
    ensures out[..op0 + t0 + 2] == CopyFrom(old(out[..op0]), op0 - from0, t0 + 2)
    ensures out[op0 + t0 + 2..] == old(out[op0 + t0 + 2..])
  {
    ghost var head, off := out[..op0], op0 - from0;
    if words && t0 >= 6 && op0 - from0 >= 4 {
      CopyMatchWords(out, op0, from0, t0);
    } else {
      CopyMatchBytes(out, op0, from0, t0 + 2);
    }
    ghost var r := out[..op0 + t0 + 2];
    assert r[..op0] == out[..op0] == head;
    assert forall i | op0 <= i < |r| :: r[i] == r[i - off];
    CopyFromUnique(head, off, t0 + 2, r);
  }

  /** The copy by words, then bytes for what is left. */
  method CopyMatchWords(out: array<byte>, op0: nat, from0: nat, t0: nat)
    requires from0 + 4 <= op0 && op0 + t0 + 2 <= out.Length && t0 >= 6
    modifies out
    ensures Periodic(out[..op0 + t0 + 2], old(out[..op0]), op0 - from0)
    ensures out[op0 + t0 + 2..] == old(out[op0 + t0 + 2..])
  {
    hide Periodic;
    ghost var head, off := out[..op0], op0 - from0;
    assert Periodic(head, head, off) by {
      PeriodicAlone(head, off);
    }
    Copy4Within(out, op0, from0);
    PeriodicMore(out[..op0 + 4], head, head, off);
    var op, from, t := op0 + 4, from0 + 4, t0 - 2;
    while t >= 4
      invariant op - op0 == from - from0 == t0 + 2 - t && t >= 0 && op >= op0
      invariant Periodic(out[..op], head, off)
      invariant out[op..] == old(out[op..])
    {
      ghost var before, rest := out[..op], out[op..];
      Copy4Within(out, op, from);
      PeriodicMore(out[..op + 4], before, head, off);
      assert out[op + 4..] == rest[4..] == old(out[op..])[4..] == old(out[op + 4..]);
      op, from, t := op + 4, from + 4, t - 4;
    }
    ghost var before, rest := out[..op], out[op..];
    CopyMatchBytes(out, op, from, t);
    PeriodicMore(out[..op + t], before, head, off);
    assert out[op + t..] == rest[t..] == old(out[op..])[t..] == old(out[op + t..]);
  }

  lemma PeriodicAlone(head: seq<byte>, off: nat)
    requires 0 < off <= |head|
    ensures Periodic(head, head, off)
  {
  }

  /** r is head, continued by repeating what is off bytes back. */
  ghost predicate Periodic(r: seq<byte>, head: seq<byte>, off: nat) {
    && 0 < off <= |head| <= |r| && r[..|head|] == head
    && forall i | |head| <= i < |r| :: r[i] == r[i - off]
  }

  lemma PeriodicMore(r: seq<byte>, before: seq<byte>, head: seq<byte>, off: nat)
    requires Periodic(before, head, off) && |before| <= |r| && r[..|before|] == before
    requires forall i | |before| <= i < |r| :: r[i] == r[i - off]
    ensures Periodic(r, head, off)
  {
    assert r[..|head|] == before[..|head|];
    forall i | |head| <= i < |r| ensures r[i] == r[i - off] {
      if i < |before| {
        assert r[i] == before[i] && r[i - off] == before[i - off];
      }
    }
  }

  // -------------------------------------------------------------- one token

  /** Carry on, or return with a code. */
  datatype Signal = Go | Stop(code: int)

  /** Reads a count in the marker byte or its extension bytes. */
  method ReadLength(src: seq<byte>, ip0: nat, field: nat, base: nat) returns (ok: bool, t: nat, ip: nat)
    requires ip0 <= |src|
    ensures ok == ReadCount(src, ip0, field, base).Count?
    ensures ok ==> ReadCount(src, ip0, field, base) == Count(t, ip)
  {
    t, ip := field, ip0;
    if t == 0 {
      if |src| - ip < 1 {
        return false, t, ip;
      }
      while src[ip] == 0
        invariant ip0 <= ip < |src|
        invariant ReadExtension(src, ip0).Count? == ReadExtension(src, ip).Count?
        invariant ReadExtension(src, ip).Count? ==>
                    ReadExtension(src, ip0) == Count(t + ReadExtension(src, ip).value, ReadExtension(src, ip).pos)
        decreases |src| - ip
      {
        t, ip := t + 255, ip + 1;
        if |src| - ip < 1 {
          return false, t, ip;
        }
      }
      t, ip := t + base + src[ip], ip + 1;
    }
    ok := true;
  }

  /** The lookbehind and room checks, then the copy of t + 2 bytes. */
  method FinishMatch(out: array<byte>, op0: nat, off: int, t: nat, cap: nat, words: bool) returns (s: Signal, op: nat)
    requires op0 <= cap <= out.Length && off >= 0
    modifies out
    ensures match Apply(old(out[..op0]), Match(off, t + 2), cap)
            case Done(o) => s == Go && op <= cap && out[..op] == o
            case Lookbehind => s == Stop(LZO_E_LOOKBEHIND_OVERRUN) && op == op0 && out[..op] == old(out[..op0])
            case Overrun => s == Stop(LZO_E_OUTPUT_OVERRUN) && op == op0 && out[..op] == old(out[..op0])
    ensures op0 <= op <= cap && out[op..] == old(out[op..])
  {
    op := op0;
    if op - off < 0 || op - off >= op {
      return Stop(LZO_E_LOOKBEHIND_OVERRUN), op;
    }
    if cap - op < t + 2 {
      return Stop(LZO_E_OUTPUT_OVERRUN), op;
    }
    CopyMatch(out, op, op - off, t, words);
    op := op + t + 2;
    s := Go;
  }

  /** The low two bits of the next-to-last byte read count the literals after a match. */
  function AfterCode(src: seq<byte>, ip: nat): Ctx
    requires 2 <= ip <= |src|
  {
    AfterMatch(src[ip - 2] % 4)
  }

  /** Executing the match (or end marker) `st` gave the signal `s`, input position `ip` and output `after`. */
  ghost predicate Executed(src: seq<byte>, st: Step, before: seq<byte>, cap: nat, s: Signal, ip: nat, after: seq<byte>)
  {
    match st
    case Next(tok, p, c) =>
      && tok.Match?
      && (match Apply(before, tok, cap)
          case Done(o) => s == Go && ip == p && 2 <= ip <= |src| && c == AfterCode(src, ip) && after == o
          case Lookbehind => s == Stop(LZO_E_LOOKBEHIND_OVERRUN) && after == before
          case Overrun => s == Stop(LZO_E_OUTPUT_OVERRUN) && after == before)
    case Eof(p) => s == Stop(if p == |src| then LZO_E_OK else LZO_E_INPUT_NOT_CONSUMED) && after == before
    case Starved(n) => n == 0 && s == Stop(LZO_E_INPUT_OVERRUN) && after == before
    case NoEof => false
    case Cut => false
  }

  /** A match coded in two bytes, the nearest offset being `nearest`. */
  method DoShortMatch(src: seq<byte>, pos: nat, out: array<byte>, op0: nat, cap: nat,
                      nearest: nat, scale: nat, field: nat, t: nat)
    returns (s: Signal, ip: nat, op: nat)
    requires op0 <= cap <= out.Length && pos + 2 <= |src|
    modifies out
    ensures op0 <= op <= cap && out[op..] == old(out[op..])
    ensures Executed(src, ShortMatchStep(src, pos, nearest, scale, field, t + 2), old(out[..op0]), cap, s, ip, out[..op])
  {
    var b: nat := src[pos + 1];
    ip := pos + 2;
    s, op := FinishMatch(out, op0, nearest + field + b * scale, t, cap, false);
  }

  method DoM3(src: seq<byte>, pos: nat, out: array<byte>, op0: nat, cap: nat) returns (s: Signal, ip: nat, op: nat)
    requires op0 <= cap <= out.Length && pos < |src| && 32 <= src[pos] < 64
    requires !MatchStep(src, pos).Cut?
    modifies out
    ensures op0 <= op <= cap && out[op..] == old(out[op..])
    ensures Executed(src, MatchStep(src, pos), old(out[..op0]), cap, s, ip, out[..op])
  {
    var ok, t;
    ok, t, ip := ReadLength(src, pos + 1, src[pos] % 32, 31);
    if !ok {
      return Stop(LZO_E_INPUT_OVERRUN), ip, op0;
    }
    var off := 1 + OffsetField(src, ip);
    ip := ip + 2;
    s, op := FinishMatch(out, op0, off, t, cap, true);
  }

  method DoM4(src: seq<byte>, pos: nat, out: array<byte>, op0: nat, cap: nat) returns (s: Signal, ip: nat, op: nat)
    requires op0 <= cap <= out.Length && pos < |src| && 16 <= src[pos] < 32
    requires !MatchStep(src, pos).Cut?
    modifies out
    ensures op0 <= op <= cap && out[op..] == old(out[op..])
    ensures Executed(src, MatchStep(src, pos), old(out[..op0]), cap, s, ip, out[..op])
  {
    hide ReadCount, OffsetField, CopyFrom, ShortMatchStep, M3Step;
    var ok, t;
    var high: nat := src[pos] / 8 % 2;
    ok, t, ip := ReadLength(src, pos + 1, src[pos] % 8, 7);
    if !ok {
      return Stop(LZO_E_INPUT_OVERRUN), ip, op0;
    }
    var off := high * 0x4000 + OffsetField(src, ip);
    ip := ip + 2;
    if off == 0 {
      s := Stop(if ip == |src| then LZO_E_OK
                else if ip < |src| then LZO_E_INPUT_NOT_CONSUMED
                else LZO_E_INPUT_OVERRUN);
      return s, ip, op0;
    }
    s, op := FinishMatch(out, op0, off + 0x4000, t, cap, true);
  }

  /** Label `match`: dispatch on t == src[pos], which is below 16 only after trailing literals. */
  method DoMatch(src: seq<byte>, pos: nat, out: array<byte>, op0: nat, cap: nat, ghost st: Step)
    returns (s: Signal, ip: nat, op: nat)
    requires op0 <= cap <= out.Length && pos < |src| && !st.Cut?
    requires src[pos] >= 16 ==> st == MatchStep(src, pos)
    requires src[pos] < 16 ==> st == ShortMatchStep(src, pos, 1, 4, src[pos] / 4, 2)
    modifies out
    ensures op0 <= op <= cap && out[op..] == old(out[op..])
    ensures Executed(src, st, old(out[..op0]), cap, s, ip, out[..op])
  {
    hide Executed;
    var t: nat := src[pos];
    if t >= 64 {
      s, ip, op := DoShortMatch(src, pos, out, op0, cap, 1, 8, t / 4 % 8, t / 32 - 1);
    } else if t >= 32 {
      s, ip, op := DoM3(src, pos, out, op0, cap);
    } else if t >= 16 {
      s, ip, op := DoM4(src, pos, out, op0, cap);
    } else {
      s, ip, op := DoShortMatch(src, pos, out, op0, cap, 1, 4, t / 4, 0);
    }
  }

  /** Checks for n literals at ip, and for something after them, then their copy. */
  method DoLiterals(src: seq<byte>, ip: nat, out: array<byte>, op0: nat, n: nat, cap: nat, words: bool)
    returns (s: Signal, op: nat)
    requires op0 <= cap <= out.Length && ip <= |src| && (words ==> n >= 4)
    modifies out
    ensures op0 <= op <= cap && out[op..] == old(out[op..])
    ensures ip + n < |src| && op0 + n <= cap ==> s == Go && out[..op] == old(out[..op0]) + src[ip..ip + n]
    ensures ip + n >= |src| || op0 + n > cap ==>
              s.Stop? && Starving(n, old(out[..op0]), cap) == Result(s.code, out[..op])
  {
    op := op0;
    if cap - op < n {
      return Stop(LZO_E_OUTPUT_OVERRUN), op;
    }
    if |src| - ip < n + 1 {
      return Stop(LZO_E_INPUT_OVERRUN), op;
    }
    if words {
      CopyRun(src, ip, out, op, n - 3);
    } else {
      CopyBytes(src, ip, out, op, n);
    }
    op := op + n;
    s := Go;
  }

  // ------------------------------------------------------------- the machine

  /** Going from one program point to another, or stopping, agrees with the meaning. */
  ghost predicate Agrees(src: seq<byte>, pos: nat, ctx: Ctx, before: seq<byte>, cap: nat,
                         s: Signal, pos': nat, ctx': Ctx, after: seq<byte>)
    requires pos <= |src|
  {
    match s
    case Go => pos < pos' <= |src| && Decode(src, pos, ctx, before, cap) == Decode(src, pos', ctx', after, cap)
    case Stop(code) => Decode(src, pos, ctx, before, cap) == Result(code, after)
  }

  lemma ExecutedAgrees(src: seq<byte>, pos: nat, ctx: Ctx, before: seq<byte>, cap: nat, s: Signal, ip: nat, after: seq<byte>)
    requires pos <= |src| && |before| <= cap && Executed(src, StepAt(src, pos, ctx), before, cap, s, ip, after)
    ensures s == Go ==> 2 <= ip <= |src|
    ensures Agrees(src, pos, ctx, before, cap, s, ip, if s == Go then AfterCode(src, ip) else Top, after)
  {
  }

  lemma LiteralsAgree(src: seq<byte>, pos: nat, ctx: Ctx, before: seq<byte>, cap: nat, ip: nat, n: nat, ctx': Ctx,
                      s: Signal, after: seq<byte>)
    requires pos <= |src| && |before| <= cap && pos <= ip <= |src| && pos < ip + n
    requires StepAt(src, pos, ctx) == LiteralStep(src, ip, n, ctx')
    requires ip + n < |src| && |before| + n <= cap ==> s == Go && after == before + src[ip..ip + n]
    requires ip + n >= |src| || |before| + n > cap ==> s.Stop? && Starving(n, before, cap) == Result(s.code, after)
    ensures s == Go ==> ip + n < |src|
    ensures Agrees(src, pos, ctx, before, cap, s, ip + n, ctx', after)
  {
  }

  lemma StarvedAgrees(src: seq<byte>, pos: nat, before: seq<byte>, cap: nat, ip: nat)
    requires pos < |src| && |before| <= cap && src[pos] < 16 && !ReadCount(src, pos + 1, src[pos], 15).Count?
    ensures Agrees(src, pos, Top, before, cap, Stop(LZO_E_INPUT_OVERRUN), ip, Top, before)
  {
  }

  /** The machine is past the start, and has seen that something follows the literals it copied. */
  ghost predicate Settled(src: seq<byte>, s: Signal, ip: nat, pc: Ctx) {
    pc != Start && (s == Go && (pc == AfterRun || pc == AfterShort) ==> ip < |src|)
  }

  /** The machine, here, is due to produce the outcome `want`. */
  ghost predicate Leads(src: seq<byte>, s: Signal, ip: nat, pc: Ctx, out: seq<byte>, cap: nat, want: Outcome) {
    match s
    case Go => ip <= |src| && Decode(src, ip, pc, out, cap) == want != OutOfRange
    case Stop(code) => want == Result(code, out)
  }

  /** A literal run at the top of the outer loop. */
  method AdvanceRun(src: seq<byte>, pos: nat, out: array<byte>, op0: nat, cap: nat)
    returns (s: Signal, ip: nat, op: nat, pc': Ctx)
    requires pos < |src| && op0 <= cap <= out.Length && src[pos] < 16
    modifies out
    ensures op0 <= op <= cap && out[op..] == old(out[op..])
    ensures Settled(src, s, ip, pc')
    ensures Agrees(src, pos, Top, old(out[..op0]), cap, s, ip, pc', out[..op])
  {
    hide Agrees;
    var ok, t;
    ok, t, ip := ReadLength(src, pos + 1, src[pos], 15);
    if !ok {
      StarvedAgrees(src, pos, out[..op0], cap, ip);
      return Stop(LZO_E_INPUT_OVERRUN), ip, op0, Top;
    }
    s, op := DoLiterals(src, ip, out, op0, t + 3, cap, true);
    LiteralsAgree(src, pos, Top, old(out[..op0]), cap, ip, t + 3, AfterRun, s, out[..op]);
    ip, pc' := ip + t + 3, AfterRun;
  }

  /** One token of the inner or outer loop. */
  method Advance(src: seq<byte>, pos: nat, pc: Ctx, out: array<byte>, op0: nat, cap: nat)
    returns (s: Signal, ip: nat, op: nat, pc': Ctx)
    requires pos < |src| && op0 <= cap <= out.Length
    requires pc != Start && !pc.Pending?
    requires !StepAt(src, pos, pc).Cut? && !StepAt(src, pos, pc).NoEof?
    modifies out
    ensures op0 <= op <= cap && out[op..] == old(out[op..])
    ensures Settled(src, s, ip, pc')
    ensures Agrees(src, pos, pc, old(out[..op0]), cap, s, ip, pc', out[..op])
  {
    hide Executed, MatchStep, Agrees, ReadCount;
    var t: nat := src[pos];
    if t >= 16 || pc == AfterShort {
      s, ip, op := DoMatch(src, pos, out, op0, cap, StepAt(src, pos, pc));
      ExecutedAgrees(src, pos, pc, old(out[..op0]), cap, s, ip, out[..op]);
      pc' := if s == Go then AfterCode(src, ip) else Top;
    } else if pc == AfterRun {
      s, ip, op := DoShortMatch(src, pos, out, op0, cap, 1 + M2_MAX_OFFSET, 4, t / 4, 1);
      ExecutedAgrees(src, pos, pc, old(out[..op0]), cap, s, ip, out[..op]);
      pc' := if s == Go then AfterCode(src, ip) else Top;
    } else {
      s, ip, op, pc' := AdvanceRun(src, pos, out, op0, cap);
    }
  }

  /** The first byte: above 17 it counts literals, else it is read as at Top. */
  method Begin(src: seq<byte>, out: array<byte>, cap: nat) returns (s: Signal, ip: nat, op: nat, pc: Ctx)
    requires cap <= out.Length && Decode(src, 0, Start, [], cap) != OutOfRange
    modifies out
    ensures op <= cap && out[op..] == old(out[op..])
    ensures Settled(src, s, ip, pc) && Leads(src, s, ip, pc, out[..op], cap, Decode(src, 0, Start, [], cap))
  {
    s, ip, op, pc := Go, 0, 0, Top;
    assert out[..0] == [];
    if src[ip] > 17 {
      var t: nat := src[ip] - 17;
      s, op := DoLiterals(src, 1, out, op, t, cap, false);
      ip, pc := 1 + t, if t < 4 then AfterShort else AfterRun;
      LiteralsAgree(src, 0, Start, [], cap, 1, t, pc, s, out[..op]);
    }
  }

  /** One turn of the machine at the program point `pc`. */
  method Tick(src: seq<byte>, pos: nat, pc: Ctx, out: array<byte>, op0: nat, cap: nat, ghost want: Outcome)
    returns (s: Signal, ip: nat, op: nat, pc': Ctx)
    requires op0 <= cap <= out.Length
    requires Settled(src, Go, pos, pc) && Leads(src, Go, pos, pc, out[..op0], cap, want)
    modifies out
    ensures op0 <= op <= cap && out[op..] == old(out[op..])
    ensures Settled(src, s, ip, pc') && Leads(src, s, ip, pc', out[..op], cap, want)
    ensures s == Go ==> pos < ip <= |src|
  {
    if pc.Pending? {
      s, op := DoLiterals(src, pos, out, op0, pc.n, cap, false);
      LiteralsAgree(src, pos, pc, old(out[..op0]), cap, pos, pc.n, AfterShort, s, out[..op]);
      ip, pc' := pos + pc.n, AfterShort;
    } else if (pc == Top && !(pos < |src|)) || (pc == AfterShort && !(pos + 1 < |src|)) {
      s, ip, op, pc' := Stop(LZO_E_EOF_NOT_FOUND), pos, op0, Top;
    } else {
      s, ip, op, pc' := Advance(src, pos, pc, out, op0, cap);
    }
  }

  /** Decodes `src` into the first `cap` bytes of `out`.  The only demand on `src` is that
      the decoder, which does not check for the second byte of a code, is never left
      without one. */
  method DecompressSafe(src: seq<byte>, out: array<byte>, cap: nat) returns (code: int, outLen: nat)
    requires cap <= out.Length
    requires Decode(src, 0, Start, [], cap) != OutOfRange
    modifies out
    ensures outLen <= cap && out[outLen..] == old(out[outLen..])
    ensures Decode(src, 0, Start, [], cap) == Result(code, out[..outLen])
  {
    ghost var want := Decode(src, 0, Start, [], cap);
    var s, ip: nat, op: nat, pc := Begin(src, out, cap);
    while s == Go
      invariant op <= cap && out[op..] == old(out[op..])
      invariant Settled(src, s, ip, pc)
      invariant Leads(src, s, ip, pc, out[..op], cap, want)
      decreases s == Go, if s == Go then |src| - ip else 0
    {
      ghost var op0, before := op, out[op..];
      s, ip, op, pc := Tick(src, ip, pc, out, op, cap, want);
      assert out[op..] == before[op - op0..];
    }
    return s.code, op;
  }
}
