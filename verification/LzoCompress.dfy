/** The LZO1X-1 compressor: a hash-dictionary match loop that emits codes in place. */
module LzoCompress {
  import opened Bits
  import opened LzoFormat
  import opened LzoEncoding

  const D_BITS: nat := 14
  const D_SIZE: nat := 0x4000

  // ------------------------------------------------------------------ hashing

  /** DX3(p, 5, 5, 6). */
  function Dx3(s: seq<byte>, p: nat): nat
    requires p + 3 < |s|
  {
    var top: nat := s[p + 3];
    Xor(Xor(Xor(top * 64, s[p + 2]) * 32, s[p + 1]) * 32, s[p])
  }

  function Hash(s: seq<byte>, p: nat): (d: nat)
    requires p + 3 < |s|
    ensures d < D_SIZE
  {
    0x21 * Dx3(s, p) / 32 % D_SIZE
  }

  /** The second slot tried: (dindex & (D_MASK & 0x7ff)) ^ (D_HIGH | 0x1f). */
  function Rehash(d: nat): (d': nat)
    ensures d' < D_SIZE
  {
    assert Pow2(14) == 0x4000;
    XorBound(d % 0x800, 0x201f, D_BITS);
    Xor(d % 0x800, 0x201f)
  }

  predicate InWindow(pos: int, ip: nat) {
    !(pos < 0) && !(ip == pos || ip - pos < 0 || ip - pos > M4_MAX_OFFSET)
  }

  /** `len` bytes at `ip` repeat those at `pos`. */
  predicate Repeats(s: seq<byte>, pos: nat, ip: nat, len: nat) {
    pos < ip && ip + len <= |s| && forall i | ip <= i < ip + len :: s[i] == s[i - (ip - pos)]
  }

  /** A candidate is close, or agrees on its fourth byte too. */
  predicate Promising(s: seq<byte>, pos: nat, ip: nat)
    requires pos <= ip && ip + 3 < |s|
  {
    ip - pos <= M2_MAX_OFFSET || s[pos + 3] == s[ip + 3]
  }

  /** A candidate worth taking: in the window, promising, and agreeing on three bytes. */
  predicate Takes(s: seq<byte>, m: int, ip: nat)
    requires ip + 3 < |s|
  {
    InWindow(m, ip) && Promising(s, m, ip) && Repeats(s, m, ip, 3)
  }

  /** The second slot is tried only if the first holds a far candidate that differs in its fourth byte. */
  function SlotOf(s: seq<byte>, dict: seq<int>, ip: nat): (d: nat)
    requires ip + 3 < |s| && |dict| == D_SIZE
    ensures d < D_SIZE
  {
    var d := Hash(s, ip);
    if InWindow(dict[d], ip) && !Promising(s, dict[d], ip) then Rehash(d) else d
  }

  /** Probes the dictionary at ip and records ip there.  Whatever the dictionary held,
      a match found is a real one, and a candidate worth taking is found. */
  method FindMatch(s: seq<byte>, dict: array<int>, ip: nat) returns (found: bool, pos: nat)
    requires ip + 3 < |s| && dict.Length == D_SIZE
    modifies dict
    ensures var d := SlotOf(s, old(dict[..]), ip);
            && dict[..] == old(dict[..])[d := ip]
            && (found <==> Takes(s, old(dict[..])[d], ip)) && (found ==> pos == old(dict[..])[d])
  {
    hide Hash, Rehash, Repeats;
    var d := Hash(s, ip);
    var m := dict[d];
    var try := false;
    if InWindow(m, ip) {
      if Promising(s, m, ip) {
        try := true;
      } else {
        d := Rehash(d);
        m := dict[d];
        try := InWindow(m, ip) && Promising(s, m, ip);
      }
    }
    found, pos := false, 0;
    if try {
      ThreeBytes(s, m, ip);
    }
    if try && s[m] == s[ip] && s[m + 1] == s[ip + 1] && s[m + 2] == s[ip + 2] {
      found, pos := true, m;
    }
    dict[d] := ip;
  }

  lemma ThreeBytes(s: seq<byte>, m: nat, ip: nat)
    requires m < ip && ip + 3 <= |s|
    ensures Repeats(s, m, ip, 3) <==> s[m] == s[ip] && s[m + 1] == s[ip + 1] && s[m + 2] == s[ip + 2]
  {
    var off := ip - m;
    assert s[ip - off] == s[m] && s[ip + 1 - off] == s[m + 1] && s[ip + 2 - off] == s[m + 2];
  }

  /** What is worth taking, in numbers. */
  lemma TakesExactly(s: seq<byte>, m: int, ip: nat)
    requires ip + 3 < |s|
    ensures Takes(s, m, ip) <==> && 0 <= m < ip && ip - m <= 0xbfff && s[m..m + 3] == s[ip..ip + 3]
                                 && (ip - m > 0x800 ==> s[m + 3] == s[ip + 3])
  {
    if 0 <= m < ip {
      ThreeBytes(s, m, ip);
      var a, b := s[m..m + 3], s[ip..ip + 3];
      assert a[0] == s[m] && a[1] == s[m + 1] && a[2] == s[m + 2];
      assert b[0] == s[ip] && b[1] == s[ip + 1] && b[2] == s[ip + 2];
    }
  }

  /** Four bytes recorded in their slot are found again at their next occurrence in the window. */
  lemma RepeatFound(s: seq<byte>, dict: seq<int>, m: nat, ip: nat)
    requires m < ip && ip - m <= 0xbfff && ip + 3 < |s| && s[m..m + 4] == s[ip..ip + 4]
    requires |dict| == D_SIZE && dict[Hash(s, m)] == m
    ensures SlotOf(s, dict, ip) == Hash(s, m) && Takes(s, m, ip)
  {
    hide Hash, Takes;
    FourBytes(s, m, ip);
    assert s[m..m + 3] == s[m..m + 4][..3] && s[ip..ip + 3] == s[ip..ip + 4][..3];
    TakesExactly(s, m, ip);
  }

  /** Equal bytes have equal hashes. */
  lemma FourBytes(s: seq<byte>, m: nat, ip: nat)
    requires m < ip && ip + 3 < |s| && s[m..m + 4] == s[ip..ip + 4]
    ensures Hash(s, m) == Hash(s, ip) && s[m + 3] == s[ip + 3]
  {
    hide Xor;
    var a, b := s[m..m + 4], s[ip..ip + 4];
    assert a[0] == s[m] && a[1] == s[m + 1] && a[2] == s[m + 2] && a[3] == s[m + 3];
    assert b[0] == s[ip] && b[1] == s[ip + 1] && b[2] == s[ip + 2] && b[3] == s[ip + 3];
  }

  /** Extends a match of three bytes as far as it goes. */
  method ExtendMatch(s: seq<byte>, pos: nat, ip: nat) returns (len: nat)
    requires Repeats(s, pos, ip, 3) && ip + M2_MAX_LEN < |s|
    ensures Repeats(s, pos, ip, len) && len >= 3
    ensures ip + len == |s| || s[pos + len] != s[ip + len]
  {
    len := 3;
    while len <= M2_MAX_LEN && s[pos + len] == s[ip + len]
      invariant 3 <= len <= M2_MAX_LEN + 1 && Repeats(s, pos, ip, len)
    {
      len := len + 1;
    }
    if len > M2_MAX_LEN {
      while ip + len < |s| && s[pos + len] == s[ip + len]
        invariant len >= 3 && Repeats(s, pos, ip, len)
      {
        len := len + 1;
      }
    }
  }

  // ----------------------------------------------------------------- emission

  method EmitByte(out: array<byte>, op: nat, b: byte) returns (op': nat)
    requires op < out.Length
    modifies out
    ensures op' == op + 1 && out[..op'] == old(out[..op]) + [b]
  {
    out[op] := b;
    op' := op + 1;
  }

  /** The 255-run of a long count. */
  method EmitExtension(out: array<byte>, op0: nat, n0: nat) returns (op: nat)
    requires n0 >= 1 && op0 + |Extension(n0)| <= out.Length
    modifies out
    ensures op == op0 + |Extension(n0)| && out[..op] == old(out[..op0]) + Extension(n0)
  {
    var n := n0;
    op := op0;
    while n > 255
      invariant 1 <= n && op0 <= op
      invariant op + |Extension(n)| == op0 + |Extension(n0)|
      invariant out[..op] + Extension(n) == old(out[..op0]) + Extension(n0)
    {
      ghost var before := out[..op];
      n := n - 255;
      op := EmitByte(out, op, 0);
      assert before + ([0] + Extension(n)) == (before + [0]) + Extension(n);
    }
    op := EmitByte(out, op, n);
  }

  method EmitCopy(s: seq<byte>, ii: nat, n: nat, out: array<byte>, op0: nat) returns (op: nat)
    requires ii + n <= |s| && op0 + n <= out.Length
    modifies out
    ensures op == op0 + n && out[..op] == old(out[..op0]) + s[ii..ii + n]
  {
    var k := 0;
    op := op0;
    while k < n
      invariant 0 <= k <= n && op == op0 + k
      invariant out[..op] == old(out[..op0]) + s[ii..ii + k]
    {
      op := EmitByte(out, op, s[ii + k]);
      k := k + 1;
    }
  }

  /** Or-ing a count into a code byte whose low two bits are free. */
  lemma OrLow(b: byte, t: nat)
    requires b % 4 == 0 && t < 4
    ensures Or(b, t) == b + t < 256
  {
    hide Or;
    assert Pow2(2) == 4;
    OrIsSum(b / 4, 2, t);
    assert b / 4 * 4 == b;
  }

  /** A marker byte whose count field is 0, and the count after it. */
  method EmitMarkerAndCount(out: array<byte>, op0: nat, b: byte, n: nat) returns (op: nat)
    requires n >= 1 && op0 + 1 + |Extension(n)| <= out.Length
    modifies out
    ensures op == op0 + 1 + |Extension(n)| && out[..op] == old(out[..op0]) + ([b] + Extension(n))
  {
    op := EmitByte(out, op0, b);
    op := EmitExtension(out, op, n);
    assert old(out[..op0]) + [b] + Extension(n) == old(out[..op0]) + ([b] + Extension(n));
  }

  /** Header of a run of four or more literals. */
  method EmitRunCode(out: array<byte>, op0: nat, t: nat) returns (op: nat)
    requires t >= 4 && op0 + |RunCode(t)| <= out.Length
    modifies out
    ensures op == op0 + |RunCode(t)| && out[..op] == old(out[..op0]) + RunCode(t)
  {
    hide Extension;
    if t <= 18 {
      op := EmitByte(out, op0, t - 3);
    } else {
      op := EmitMarkerAndCount(out, op0, 0, t - 18);
    }
  }

  /** C's `op[-2] |= t`. */
  method PatchCount(out: array<byte>, op: nat, t: nat)
    requires 2 <= op <= out.Length && out[op - 2] % 4 == 0 && t < 4
    modifies out
    ensures out[..op] == Patch(old(out[..op]), t)
  {
    OrLow(out[op - 2], t);
    out[op - 2] := Or(out[op - 2], t);
  }

  /** The literals s[ii..ii + t] after the codes already in out[..op0]. */
  method EmitLiterals(s: seq<byte>, ii: nat, t: nat, out: array<byte>, op0: nat) returns (op: nat)
    requires ii + t <= |s| && op0 <= out.Length
    requires 1 <= t <= 3 ==> op0 >= 2 && out[op0 - 2] % 4 == 0
    requires |WithLiterals(out[..op0], s[ii..ii + t])| <= out.Length
    modifies out
    ensures op == |WithLiterals(old(out[..op0]), s[ii..ii + t])|
    ensures out[..op] == WithLiterals(old(out[..op0]), s[ii..ii + t])
  {
    hide RunCode, Patch;
    op := op0;
    ghost var p, data := out[..op0], s[ii..ii + t];
    assert |data| == t;
    if t > 0 {
      if t <= 3 {
        PatchCount(out, op, t);
      } else {
        op := EmitRunCode(out, op, t);
        assert p + RunCode(t) + data == p + (RunCode(t) + data);
      }
      op := EmitCopy(s, ii, t, out, op);
    }
  }

  function M3Byte(x: nat): (b: byte)
    requires x < 32
    ensures b == M3_MARKER + x
  {
    assert Pow2(5) == 32;
    OrIsSum(1, 5, x);
    Or(M3_MARKER, x)
  }

  function M4Byte(high: nat, x: nat): (b: byte)
    requires high <= 1 && x < 8
    ensures b == M4_MARKER + high * 8 + x
  {
    assert Pow2(4) == 16 && Pow2(3) == 8;
    OrIsSum(1, 4, high * 8);
    OrIsSum(2 + high, 3, x);
    assert (2 + high) * 8 == 16 + high * 8;
    Or(Or(M4_MARKER, high * 8), x)
  }

  function M2Byte(len: nat, o: nat): (b: byte)
    requires 3 <= len <= M2_MAX_LEN
    ensures b == (len - 1) * 32 + o % 8 * 4
  {
    assert Pow2(5) == 32;
    OrIsSum(len - 1, 5, o % 8 * 4);
    Or((len - 1) * 32, o % 8 * 4)
  }

  method EmitM3Marker(out: array<byte>, op0: nat, off: nat, len: nat) returns (op: nat)
    requires Codable(off, len) && off <= M3_MAX_OFFSET && op0 + |LongMarker(off, len)| <= out.Length
    modifies out
    ensures op == op0 + |LongMarker(off, len)| && out[..op] == old(out[..op0]) + LongMarker(off, len)
  {
    if len <= M3_MAX_LEN {
      op := EmitByte(out, op0, M3Byte(len - 2));
    } else {
      op := EmitMarkerAndCount(out, op0, M3Byte(0), len - M3_MAX_LEN);
    }
  }

  method EmitM4Marker(out: array<byte>, op0: nat, off: nat, len: nat) returns (op: nat)
    requires Codable(off, len) && off > M3_MAX_OFFSET && op0 + |LongMarker(off, len)| <= out.Length
    modifies out
    ensures op == op0 + |LongMarker(off, len)| && out[..op] == old(out[..op0]) + LongMarker(off, len)
  {
    hide M4Byte, Extension;
    var high := (off - 0x4000) / 0x4000 % 2;
    if len <= M4_MAX_LEN {
      op := EmitByte(out, op0, M4Byte(high, len - 2));
    } else {
      op := EmitMarkerAndCount(out, op0, M4Byte(high, 0), len - M4_MAX_LEN);
    }
  }

  method EmitMatch(out: array<byte>, op0: nat, off: nat, len: nat) returns (op: nat)
    requires Codable(off, len) && op0 + |MatchCode(off, len, 0)| <= out.Length
    modifies out
    ensures op == op0 + |MatchCode(off, len, 0)| && out[..op] == old(out[..op0]) + MatchCode(off, len, 0)
  {
    if len <= M2_MAX_LEN && off <= M2_MAX_OFFSET {
      var o := off - 1;
      op := EmitTwo(out, op0, M2Byte(len, o), o / 8);
    } else {
      hide LongMarker;
      if off <= M3_MAX_OFFSET {
        op := EmitM3Marker(out, op0, off, len);
      } else {
        op := EmitM4Marker(out, op0, off, len);
      }
      var o := LongOffset(off);
      op := EmitTwo(out, op, o % 64 * 4, o / 64 % 256);
      assert old(out[..op0]) + LongMarker(off, len) + [o % 64 * 4, o / 64 % 256] == old(out[..op0]) + MatchCode(off, len, 0);
    }
  }

  method EmitTwo(out: array<byte>, op0: nat, a: byte, b: byte) returns (op: nat)
    requires op0 + 2 <= out.Length
    modifies out
    ensures op == op0 + 2 && out[..op] == old(out[..op0]) + [a, b]
  {
    op := EmitByte(out, op0, a);
    op := EmitByte(out, op, b);
  }

  // ---------------------------------------------------------------- expansion

  /** Bytes emitted for n bytes consumed, once a match has been emitted. */
  function Paid(n: nat): nat {
    n + n / 16
  }

  lemma RunCodeSize(n: nat)
    requires n >= 4
    ensures |RunCode(n)| <= 1 + n / 16
  {
  }

  /** Every match saves a byte: a far one because it is at least four long. */
  lemma MatchCodeSize(off: nat, len: nat)
    requires Codable(off, len) && (off <= M2_MAX_OFFSET || len >= 4)
    ensures |MatchCode(off, len, 0)| <= len - 1
  {
  }

  /** The byte a match saves pays for the header of the run before it. */
  lemma BlockSize(p: seq<byte>, n: nat, data: seq<byte>, off: nat, len: nat)
    requires |p| <= Paid(n) && (|data| <= 3 ==> |p| >= 2 && p[|p| - 2] % 4 == 0)
    requires Codable(off, len) && (off <= M2_MAX_OFFSET || len >= 4)
    ensures |WithLiterals(p, data)| + |MatchCode(off, len, 0)| <= Paid(n + |data| + len)
  {
    MatchCodeSize(off, len);
    if |data| >= 4 {
      RunCodeSize(|data|);
      assert n / 16 + |data| / 16 <= (n + |data| + len) / 16;
    }
  }

  lemma TailSize(p: seq<byte>, n: nat, data: seq<byte>)
    requires |p| <= Paid(n)
    requires p != [] && |data| <= 3 ==> |p| >= 2 && p[|p| - 2] % 4 == 0
    ensures |WithTail(p, data)| + 3 <= Paid(n + |data|) + 4
  {
    if |data| >= 4 {
      RunCodeSize(|data|);
      assert n / 16 + |data| / 16 <= (n + |data|) / 16;
    }
  }

  // ----------------------------------------------------------------- the loop

  /** What holds between matches: out[..op] stands for s[..ii], and there has been no gain. */
  ghost predicate Invariant(s: seq<byte>, ii: nat, p: seq<byte>, toks: seq<Token>) {
    ii <= |s| && Emitted(p, toks, s[..ii]) && |p| <= Paid(ii)
  }

  lemma NothingEmitted(s: seq<byte>)
    ensures Invariant(s, 0, [], [])
  {
  }

  /** Codes that end in a match leave room for a count. */
  lemma RoomForCount(s: seq<byte>, ii: nat, p: seq<byte>, toks: seq<Token>)
    requires Invariant(s, ii, p, toks) && p != []
    ensures |p| >= 2 && p[|p| - 2] % 4 == 0
  {
  }

  lemma BlockKeepsInvariant(s: seq<byte>, ii: nat, ip: nat, pos: nat, len: nat, p: seq<byte>, toks: seq<Token>)
    requires Invariant(s, ii, p, toks) && ii <= ip && (p == [] ==> ii + 4 <= ip)
    requires InWindow(pos, ip) && len >= 3 && Repeats(s, pos, ip, len) && (ip - pos <= M2_MAX_OFFSET || len >= 4)
    ensures p != [] ==> |p| >= 2 && p[|p| - 2] % 4 == 0
    ensures |WithLiterals(p, s[ii..ip]) + MatchCode(ip - pos, len, 0)| <= Paid(|s|)
    ensures Invariant(s, ip + len, WithLiterals(p, s[ii..ip]) + MatchCode(ip - pos, len, 0),
                      toks + LiteralToken(s[ii..ip]) + [Match(ip - pos, len)])
  {
    hide WithLiterals, MatchCode, LiteralToken, Emitted, CopyFrom;
    var off, data := ip - pos, s[ii..ip];
    if p != [] {
      RoomForCount(s, ii, p, toks);
    }
    BlockSize(p, ii, data, off, len);
    assert s[..ii] + data == s[..ip];
    EmitBlock(p, toks, s[..ii], data, off, len);
    assert s[..ip + len][..ip] == s[..ip];
    CopyFromUnique(s[..ip], off, len, s[..ip + len]);
  }

  // --------------------------------------------------------------- compression

  predicate Constant(s: seq<byte>) {
    forall i | 0 <= i < |s| :: s[i] == s[0]
  }

  /** Near the start every candidate is promising, so equal bytes meet in one slot. */
  lemma ConstantSlot(s: seq<byte>, dict: seq<int>, ip: nat)
    requires Constant(s) && 4 <= ip <= 5 && ip + 3 < |s| && |dict| == D_SIZE
    ensures SlotOf(s, dict, ip) == Hash(s, 4)
  {
    hide Xor;
  }

  lemma ConstantTakes(s: seq<byte>)
    requires Constant(s) && |s| > 8
    ensures Takes(s, 4, 5)
  {
  }

  /** Four or five literals, then one match to the end. */
  lemma ConstantSize(data: seq<byte>, off: nat, len: nat)
    requires 4 <= |data| <= 5 && 1 <= off <= 5 && len >= 3
    ensures |WithLiterals([], data) + MatchCode(off, len, 0)| <= (|data| + len) / 255 + 10
    ensures |data| + len <= 18 ==> |WithLiterals([], data) + MatchCode(off, len, 0)| <= |data| + 4
  {
    hide Extension;
  }

  /** The loop on equal bytes: at its first probe, at its second with the first recorded, or done. */
  ghost predicate OnConstant(s: seq<byte>, dict: seq<int>, ii: nat, ip: nat, op: nat) {
    |s| > 8 && |dict| == D_SIZE
    && (|| (ii == op == 0 && ip == 4)
        || (ii == op == 0 && ip == 5 && dict[Hash(s, 4)] == 4)
        || (ii == ip == |s| && op <= |s| / 255 + 10 && (|s| <= 18 ==> op <= 9)))
  }

  lemma ConstantProbe(s: seq<byte>, dict: seq<int>, ip: nat)
    requires Constant(s) && OnConstant(s, dict, 0, ip, 0) && 4 <= ip <= 5 && ip + 3 < |s|
    ensures ip == 5 ==> Takes(s, dict[SlotOf(s, dict, ip)], ip)
    ensures ip == 4 ==> OnConstant(s, dict[SlotOf(s, dict, ip) := ip], 0, 5, 0)
  {
    hide Hash, SlotOf, Takes;
    ConstantSlot(s, dict, ip);
    ConstantTakes(s);
  }

  lemma ConstantBlock(s: seq<byte>, dict: seq<int>, ip: nat, pos: nat, p: seq<byte>)
    requires Constant(s) && 4 <= ip <= 5 && ip + 3 <= |s| && |s| > 8 && |dict| == D_SIZE && InWindow(pos, ip)
    requires p == WithLiterals([], s[0..ip]) + MatchCode(ip - pos, |s| - ip, 0)
    ensures OnConstant(s, dict, |s|, |s|, |p|)
  {
    ConstantSize(s[0..ip], ip - pos, |s| - ip);
  }

  /** Pending literals, then a match code. */
  method EmitPair(s: seq<byte>, ii: nat, ip: nat, off: nat, len: nat, out: array<byte>, op0: nat) returns (op: nat)
    requires ii <= ip <= |s| && op0 <= out.Length && Codable(off, len)
    requires op0 == 0 ==> ii + 4 <= ip
    requires op0 > 0 ==> op0 >= 2 && out[op0 - 2] % 4 == 0
    requires |WithLiterals(out[..op0], s[ii..ip]) + MatchCode(off, len, 0)| <= out.Length
    modifies out
    ensures 0 < op <= out.Length
    ensures out[..op] == WithLiterals(old(out[..op0]), s[ii..ip]) + MatchCode(off, len, 0)
  {
    hide WithLiterals, MatchCode;
    ghost var q := WithLiterals(out[..op0], s[ii..ip]);
    assert s[ii..ii + (ip - ii)] == s[ii..ip];
    op := EmitLiterals(s, ii, ip - ii, out, op0);
    assert out[..op] == q;
    op := EmitMatch(out, op, off, len);
  }

  /** From label `match`: pending literals, then the match at `pos`. */
  method EmitBlockAt(s: seq<byte>, ii: nat, ip: nat, pos: nat, out: array<byte>, op0: nat, ghost toks: seq<Token>)
    returns (ip': nat, op: nat, ghost toks': seq<Token>)
    requires op0 <= out.Length && Paid(|s|) <= out.Length
    requires ii <= ip && ip + M2_MAX_LEN < |s| && (op0 == 0 ==> ii + 4 <= ip)
    requires InWindow(pos, ip) && Repeats(s, pos, ip, 3) && Promising(s, pos, ip)
    requires Invariant(s, ii, out[..op0], toks)
    requires op0 > 0 ==> op0 >= 2 && out[op0 - 2] % 4 == 0
    modifies out
    ensures ip + 3 <= ip' <= |s| && 0 < op <= out.Length
    ensures Invariant(s, ip', out[..op], toks')
    ensures out[..op] == WithLiterals(old(out[..op0]), s[ii..ip]) + MatchCode(ip - pos, ip' - ip, 0)
    ensures Constant(s) ==> ip' == |s|
  {
    hide Invariant, WithLiterals, MatchCode, LiteralToken, Paid;
    var len := ExtendMatch(s, pos, ip);
    assert s[ip + 3] == s[pos + 3] ==> len >= 4;
    BlockKeepsInvariant(s, ii, ip, pos, len, out[..op0], toks);
    op := EmitPair(s, ii, ip, ip - pos, len, out, op0);
    ip', toks' := ip + len, toks + LiteralToken(s[ii..ip]) + [Match(ip - pos, len)];
  }

  /** The same, seen from the loop. */
  method EmitFound(s: seq<byte>, ii: nat, ip: nat, pos: nat, out: array<byte>, op0: nat, ghost toks: seq<Token>,
                   ghost dict: seq<int>)
    returns (ip': nat, op: nat, ghost toks': seq<Token>)
    requires op0 <= out.Length && Paid(|s|) <= out.Length
    requires ii <= ip && ip + M2_MAX_LEN < |s| && (op0 == 0 ==> ii + 4 <= ip)
    requires Takes(s, pos, ip) && Invariant(s, ii, out[..op0], toks)
    requires Constant(s) ==> OnConstant(s, dict, ii, ip, op0)
    modifies out
    ensures ip + 3 <= ip' <= |s| && 0 < op <= out.Length
    ensures Invariant(s, ip', out[..op], toks')
    ensures Constant(s) ==> forall d: seq<int> | |d| == D_SIZE :: OnConstant(s, d, ip', ip', op)
  {
    hide Invariant, WithLiterals, MatchCode, Paid, Constant, Hash;
    if op0 > 0 {
      RoomForCount(s, ii, out[..op0], toks);
    }
    ghost var p := out[..op0];
    ip', op, toks' := EmitBlockAt(s, ii, ip, pos, out, op0, toks);
    if Constant(s) {
      assert p == [];
      forall d: seq<int> | |d| == D_SIZE ensures OnConstant(s, d, ip', ip', op) {
        ConstantBlock(s, d, ip, pos, out[..op]);
      }
    }
  }

  /** Compresses all but a tail of s, whose length it returns. */
  method DoCompress(s: seq<byte>, out: array<byte>, dict: array<int>)
    returns (outLen: nat, rest: nat, ghost toks: seq<Token>)
    requires |s| > M2_MAX_LEN + 5 && dict.Length == D_SIZE && Paid(|s|) <= out.Length
    modifies out, dict
    ensures rest <= |s| && outLen <= out.Length
    ensures Invariant(s, |s| - rest, out[..outLen], toks)
    ensures Constant(s) ==> if rest == 0 then outLen <= |s| / 255 + 10 && (|s| <= 18 ==> outLen <= 9)
                            else |s| <= 18 && rest == |s| && outLen == 0
  {
    var ipEnd := |s| - M2_MAX_LEN - 5;
    var ip, ii: nat, op: nat := 4, 0, 0;
    toks := [];
    assert out[..0] == [];
    NothingEmitted(s);
    var busy := true;
    while busy
      invariant ii <= ip <= |s| && op <= out.Length
      invariant busy ==> ip + M2_MAX_LEN < |s|
      invariant op == 0 ==> ii == 0 && ip >= 4
      invariant Invariant(s, ii, out[..op], toks)
      invariant Constant(s) ==> OnConstant(s, dict[..], ii, ip, op) && busy == (ip == 4 || (ip == 5 && |s| > 18))
      decreases busy, |s| - ip
    {
      ghost var slots := dict[..];
      var found, pos := FindMatch(s, dict, ip);
      if Constant(s) {
        ConstantProbe(s, slots, ip);
      }
      if found {
        ip, op, toks := EmitFound(s, ii, ip, pos, out, op, toks, slots);
        ii := ip;
      } else {
        ip := ip + 1;
      }
      busy := ip < ipEnd;
    }
    outLen, rest := op, |s| - ii;
  }

  lemma TailEncodes(s: seq<byte>, ii: nat, p: seq<byte>, toks: seq<Token>)
    requires Invariant(s, ii, p, toks)
    ensures p != [] ==> |p| >= 2 && p[|p| - 2] % 4 == 0
    ensures |WithTail(p, s[ii..])| + 3 <= Paid(|s|) + 4
    ensures Encodes(WithTail(p, s[ii..]) + EOF_CODE, s)
  {
    if p != [] {
      RoomForCount(s, ii, p, toks);
    }
    TailSize(p, ii, s[ii..]);
    EmitTail(p, toks, s[..ii], s[ii..]);
    assert s[..ii] + s[ii..] == s;
  }

  method EmitEof(out: array<byte>, op0: nat) returns (op: nat)
    requires op0 + 3 <= out.Length
    modifies out
    ensures op == op0 + 3 && out[..op] == old(out[..op0]) + EOF_CODE
  {
    op := EmitByte(out, op0, M4_MARKER + 1);
    op := EmitByte(out, op, 0);
    op := EmitByte(out, op, 0);
  }

  /** The last t bytes of s as literals. */
  method EmitTailLiterals(s: seq<byte>, t: nat, out: array<byte>, op0: nat) returns (op: nat)
    requires t <= |s| && op0 <= out.Length
    requires op0 > 0 ==> op0 >= 2 && out[op0 - 2] % 4 == 0
    requires |WithTail(out[..op0], s[|s| - t..])| <= out.Length
    modifies out
    ensures op == |WithTail(old(out[..op0]), s[|s| - t..])|
    ensures out[..op] == WithTail(old(out[..op0]), s[|s| - t..])
  {
    hide WithLiterals, WithTail;
    ghost var data := s[|s| - t..];
    assert data == s[|s| - t..|s| - t + t];
    TailCases(out[..op0], data);
    op := op0;
    if t == 0 {
      assert data == [];
    } else if op == 0 && t <= 238 {
      op := EmitShortStream(s, t, out);
    } else {
      op := EmitLiterals(s, |s| - t, t, out, op);
    }
  }

  lemma TailCases(p: seq<byte>, data: seq<byte>)
    requires p != [] && 1 <= |data| <= 3 ==> |p| >= 2 && p[|p| - 2] % 4 == 0
    ensures data == [] ==> WithTail(p, data) == p
    ensures p == [] && 1 <= |data| <= 238 ==> WithTail(p, data) == [17 + |data|] + data
    ensures data != [] && (p != [] || |data| > 238) ==> WithTail(p, data) == WithLiterals(p, data)
  {
  }

  /** A stream that is nothing but literals, their number in its first byte. */
  method EmitShortStream(s: seq<byte>, t: nat, out: array<byte>) returns (op: nat)
    requires 1 <= t <= |s| && t <= 238 && t + 1 <= out.Length
    modifies out
    ensures op == 1 + t && out[..op] == [17 + t] + s[|s| - t..]
  {
    op := EmitByte(out, 0, 17 + t);
    op := EmitCopy(s, |s| - t, t, out, op);
    assert s[|s| - t..] == s[|s| - t..|s| - t + t];
  }

  /** lzo1x_1_compress: for every input and every initial dictionary, the output is a
      complete LZO1X stream for the input, and barely longer than it. */
  method Compress(s: seq<byte>, out: array<byte>, dict: array<int>) returns (code: int, outLen: nat)
    requires dict.Length == D_SIZE && Paid(|s|) + 4 <= out.Length
    modifies out, dict
    ensures code == LZO_E_OK
    ensures outLen <= |s| + |s| / 16 + 4
    ensures Constant(s) ==> outLen <= if |s| <= 18 then |s| + 4 else |s| / 255 + 13
    ensures outLen <= out.Length && Encodes(out[..outLen], s)
  {
    hide Invariant, WithTail, Encodes;
    var op: nat, t: nat := 0, |s|;
    ghost var toks := [];
    assert out[..0] == [];
    NothingEmitted(s);
    if |s| > M2_MAX_LEN + 5 {
      op, t, toks := DoCompress(s, out, dict);
    }
    TailEncodes(s, |s| - t, out[..op], toks);
    TailCases(out[..op], s[|s| - t..]);
    op := EmitTailLiterals(s, t, out, op);
    op := EmitEof(out, op);
    code, outLen := LZO_E_OK, op;
  }
}
