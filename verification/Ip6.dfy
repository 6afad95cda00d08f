/** ip4_string and ip6_compressed_string: the loops that produce the texts of Ip6Text. */
module Ip6 {
  import opened Bits
  import opened CType
  import opened Digits
  import opened Ip6Text

  /** Adding an item at the end of a join. */
  lemma {:induction false} JoinSnoc(items: seq<string>, x: string, sep: char)
    ensures Join(items + [x], sep) == if items == [] then x else Join(items, sep) + ([sep] + x)
    decreases |items|
  {
    if items == [] {
      assert items + [x] == [x];
    } else if |items| == 1 {
      assert (items + [x])[1..] == [x];
    } else {
      assert (items + [x])[1..] == items[1..] + [x];
      JoinSnoc(items[1..], x, sep);
    }
  }

  lemma JoinNext(items: seq<string>, from: nat, i: nat, sep: char)
    requires from <= i < |items|
    ensures Join(items[from..i + 1], sep) == if from == i then items[i] else Join(items[from..i], sep) + ([sep] + items[i])
  {
    assert items[from..i + 1] == items[from..i] + [items[i]];
    JoinSnoc(items[from..i], items[i], sep);
  }

  // ---------------------------------------------------------------------- IPv4

  /** One byte in decimal, with leading zeros to three places if asked for. */
  function Quad(b: byte, leading: bool): string {
    var s := Decimal(b);
    if leading && |s| < 3 then Fill('0', 3 - |s|) + s else s
  }

  function Quads(addr: seq<byte>, leading: bool, backwards: bool): (r: seq<string>)
    requires |addr| == 4
    ensures |r| == 4 && forall i | 0 <= i < 4 :: r[i] == Quad(addr[if backwards then 3 - i else i], leading)
  {
    seq(4, i requires 0 <= i < 4 => Quad(addr[if backwards then 3 - i else i], leading))
  }

  lemma DecimalLength(b: byte)
    ensures 1 <= |Decimal(b)| <= 3 && Dec(b) == Backwards(b, 10, false) && Reverse(Dec(b)) == Decimal(b)
  {
    assert Power(8, 3) == 512;
    NumeralLength(b, 10, false, 3);
    BackwardsReversed(b, 10, false);
  }

  method PutQuad(buf: array<char>, p0: nat, b: byte, leading: bool) returns (p: nat)
    requires p0 + 3 <= buf.Length
    modifies buf
    ensures p0 < p <= p0 + 3 && buf[..p] == old(buf[..p0]) + Quad(b, leading)
  {
    hide Decimal, Dec, Reverse;
    var temp := new char[3];
    DecimalLength(b);
    var digits := PutDecTrunc(temp, 0, b);
    var tmp := temp[..digits];
    assert tmp == Dec(b);
    ghost var zeros := if leading && |tmp| < 3 then Fill('0', 3 - |tmp|) else "";
    p := PutZeros(buf, p0, digits, leading);
    p := PutReversed(buf, p, tmp);
    assert old(buf[..p0]) + zeros + Decimal(b) == old(buf[..p0]) + (zeros + Decimal(b));
    assert zeros + Decimal(b) == Quad(b, leading);
  }

  /** The zeros before a number of fewer than three digits. */
  method PutZeros(buf: array<char>, p0: nat, digits: nat, leading: bool) returns (p: nat)
    requires 1 <= digits && p0 + 3 <= buf.Length
    modifies buf
    ensures var zeros := if leading && digits < 3 then Fill('0', 3 - digits) else "";
            p == p0 + |zeros| && buf[..p] == old(buf[..p0]) + zeros
  {
    p := p0;
    if leading {
      if digits < 3 {
        p := PutChar(buf, p, '0');
        assert Fill('0', 1) == "0";
      }
      if digits < 2 {
        p := PutChar(buf, p, '0');
        assert Fill('0', 2) == "0" + "0";
      }
    }
  }

  method PutReversed(buf: array<char>, p0: nat, tmp: seq<char>) returns (p: nat)
    requires p0 + |tmp| <= buf.Length
    modifies buf
    ensures p == p0 + |tmp| && buf[..p] == old(buf[..p0]) + Reverse(tmp)
  {
    var digits := |tmp|;
    p := p0;
    while digits > 0
      invariant 0 <= digits <= |tmp| && p == p0 + |tmp| - digits
      invariant buf[..p] == old(buf[..p0]) + Reverse(tmp)[..|tmp| - digits]
    {
      ReverseAt(tmp, |tmp| - digits);
      digits := digits - 1;
      p := PutChar(buf, p, tmp[digits]);
    }
    assert Reverse(tmp)[..|tmp|] == Reverse(tmp);
  }

  /** A quad, and a dot unless it is the last. */
  method PutDottedQuad(buf: array<char>, p0: nat, b: byte, leading: bool, last: bool) returns (p: nat)
    requires p0 + (if last then 3 else 4) <= buf.Length
    modifies buf
    ensures p0 < p <= p0 + (if last then 3 else 4)
    ensures buf[..p] == old(buf[..p0]) + (Quad(b, leading) + (if last then "" else "."))
  {
    hide Quad;
    p := PutQuad(buf, p0, b, leading);
    if !last {
      p := PutChar(buf, p, '.');
    }
  }

  /** ip4_string: four decimal bytes separated by dots, in either order. */
  method Ip4String(buf: array<char>, p0: nat, addr: seq<byte>, leading: bool, backwards: bool) returns (p: nat)
    requires |addr| == 4 && p0 + 16 <= buf.Length
    modifies buf
    ensures p0 < p <= p0 + 15 && buf[..p] == old(buf[..p0]) + Join(Quads(addr, leading, backwards), '.') && buf[p] == NUL
  {
    hide *;
    ghost var items, b0 := Quads(addr, leading, backwards), buf[..p0];
    ghost var t := "";
    assert b0 + t == b0;
    var i, index := 0, if backwards then 3 else 0;
    p := p0;
    DotStart(items);
    while i < 4
      invariant 0 <= i <= 4 && index == (if backwards then 3 - i else i)
      invariant p0 <= p <= p0 + 4 * i && (i == 4 ==> p0 < p <= p0 + 15)
      invariant buf[..p] == b0 + t && DotSoFar(items, i, t)
    {
      DotMore(items, i, t);
      p := PutDottedQuad(buf, p, addr[index], leading, i == 3);
      t := t + (items[i] + (if i == 3 then "" else "."));
      index, i := if backwards then index - 1 else index + 1, i + 1;
    }
    DotEnd(items, t);
    buf[p] := NUL;
    assert buf[..p] == b0 + t;
  }

  /** The first i of four items, each followed by a dot but the last. */
  predicate DotSoFar(items: seq<string>, i: nat, t: string)
    requires i <= |items| == 4
  {
    if i == 0 then t == "" else if i < 4 then t == Join(items[0..i], '.') + "." else t == Join(items[0..i], '.')
  }

  lemma DotStart(items: seq<string>)
    requires |items| == 4
    ensures DotSoFar(items, 0, "")
  {
  }

  lemma DotMore(items: seq<string>, i: nat, t: string)
    requires i < |items| == 4 && DotSoFar(items, i, t)
    ensures DotSoFar(items, i + 1, t + (items[i] + (if i == 3 then "" else ".")))
  {
    hide Join;
    JoinNext(items, 0, i, '.');
    var j, x := Join(items[0..i], '.'), items[i];
    if i == 0 {
      assert t + (x + ".") == x + ".";
    } else if i < 3 {
      assert j + "." + (x + ".") == j + (['.'] + x) + ".";
    } else {
      assert j + "." + (x + "") == j + (['.'] + x);
    }
  }

  lemma DotEnd(items: seq<string>, t: string)
    requires |items| == 4 && DotSoFar(items, 4, t)
    ensures t == Join(items, '.')
  {
    assert items[0..4] == items;
  }

  // ---------------------------------------------------------------------- IPv6

  /** The run lengths, one inner loop per position. */
  method ZeroLengths(g: seq<u16>, range: nat) returns (z: seq<nat>)
    requires range <= |g| == 8
    ensures |z| == 8 && forall i | 0 <= i < range :: z[i] == ZeroRun(g, i, range)
  {
    var zerolength := new nat[8](_ => 0);
    for i := 0 to range
      invariant forall k | 0 <= k < i :: zerolength[k] == ZeroRun(g, k, range)
      invariant forall k | i <= k < 8 :: zerolength[k] == 0
    {
      var j := i;
      while j < range && g[j] == 0
        invariant i <= j <= range && zerolength[i] == j - i
        invariant ZeroRun(g, i, range) == j - i + ZeroRun(g, j, range)
        invariant forall k | 0 <= k < i :: zerolength[k] == ZeroRun(g, k, range)
        invariant forall k | i < k < 8 :: zerolength[k] == 0
      {
        zerolength[i], j := zerolength[i] + 1, j + 1;
      }
    }
    z := zerolength[..];
  }

  /** The position of the longest run, or -1. */
  method LongestRun(g: seq<u16>, range: nat) returns (colonpos: int, longest: nat)
    requires range <= |g| == 8
    ensures var b := BestGap(g, range, range);
            longest == Length(b) && colonpos == if b.Gap? then b.at else -1
  {
    var z := ZeroLengths(g, range);
    colonpos, longest := -1, 1;
    for i := 0 to range
      invariant var b := BestGap(g, range, i); longest == Length(b) && colonpos == if b.Gap? then b.at else -1
    {
      if z[i] > longest {
        longest, colonpos := z[i], i;
      }
    }
  }

  /** pack_hex_byte. */
  method PackHexByte(buf: array<char>, p0: nat, b: byte) returns (p: nat)
    requires p0 + 2 <= buf.Length
    modifies buf
    ensures p == p0 + 2 && buf[..p] == old(buf[..p0]) + [DigitChar(b / 16, true), DigitChar(b % 16, true)]
  {
    p := PutChar(buf, p0, DigitChar(b / 16, true));
    p := PutChar(buf, p, DigitChar(b % 16, true));
  }

  lemma HexUnfold(w: nat)
    ensures w < 16 ==> Numeral(w, 16, true) == [DigitChar(w, true)]
    ensures w >= 16 ==> Numeral(w, 16, true) == Numeral(w / 16, 16, true) + [DigitChar(w % 16, true)]
  {
  }

  /** A group byte by byte is its numeral. */
  lemma HexDigits(w: u16)
    ensures var hi, lo := w / 256, w % 256;
            && (hi > 0x0f ==> Hex(w) == [DigitChar(hi / 16, true), DigitChar(hi % 16, true)] + [DigitChar(lo / 16, true), DigitChar(lo % 16, true)])
            && (0 < hi <= 0x0f ==> Hex(w) == [DigitChar(hi, true)] + [DigitChar(lo / 16, true), DigitChar(lo % 16, true)])
            && (hi == 0 && lo > 0x0f ==> Hex(w) == [DigitChar(lo / 16, true), DigitChar(lo % 16, true)])
            && (hi == 0 && lo <= 0x0f ==> Hex(w) == [DigitChar(lo, true)])
    ensures 1 <= |Hex(w)| <= 4
  {
    hide Numeral, DigitChar;
    HexUnfold(w);
    HexUnfold(w / 16);
    HexUnfold(w / 16 / 16);
    HexUnfold(w / 16 / 16 / 16);
    assert w / 256 == w / 16 / 16;
    assert w % 256 == w / 16 % 16 * 16 + w % 16;
  }

  /** One group in hexadecimal without leading zeros. */
  method PutGroup(buf: array<char>, p0: nat, w: u16) returns (p: nat)
    requires p0 + 4 <= buf.Length
    modifies buf
    ensures p == p0 + |Hex(w)| <= p0 + 4 && buf[..p] == old(buf[..p0]) + Hex(w)
  {
    hide Numeral, DigitChar, Hex;
    HexDigits(w);
    var hi, lo := w / 256, w % 256;
    if hi != 0 {
      if hi > 0x0f {
        p := PackHexByte(buf, p0, hi);
      } else {
        p := PutChar(buf, p0, DigitChar(hi, true));
      }
      p := PackHexByte(buf, p, lo);
    } else if lo > 0x0f {
      p := PackHexByte(buf, p0, lo);
    } else {
      p := PutChar(buf, p0, DigitChar(lo, true));
    }
  }

  /** What is in the buffer after i groups: text before and including a `::`, then the
      groups since `from` joined by colons. */
  predicate SoFar(items: seq<string>, base: string, from: nat, i: nat, t: string) {
    from <= i <= |items| && t == base + Join(items[from..i], ':')
  }

  lemma SoFarNext(items: seq<string>, base: string, from: nat, i: nat, t: string)
    requires SoFar(items, base, from, i, t) && i < |items|
    ensures SoFar(items, base, from, i + 1, t + ((if i > from then ":" else "") + items[i]))
  {
    hide Join;
    JoinNext(items, from, i, ':');
    var j := Join(items[from..i], ':');
    if i > from {
      assert base + j + (":" + items[i]) == base + (j + ([':'] + items[i]));
    } else {
      assert items[from..i] == [];
      JoinEmpty(':');
      assert base + "" + ("" + items[i]) == base + items[i];
    }
  }

  lemma JoinEmpty(sep: char)
    ensures Join([], sep) == ""
  {
  }

  lemma SoFarStart(items: seq<string>, base: string, i: nat)
    requires i <= |items|
    ensures SoFar(items, base, i, i, base)
  {
    assert items[i..i] == [];
    assert base + "" == base;
  }

  /** A colon if one is due, then a group. */
  method PutNextGroup(buf: array<char>, p0: nat, needcolon: bool, w: u16) returns (p: nat)
    requires p0 + (if needcolon then 5 else 4) <= buf.Length
    modifies buf
    ensures p <= p0 + (if needcolon then 5 else 4)
    ensures buf[..p] == old(buf[..p0]) + ((if needcolon then ":" else "") + Hex(w))
  {
    hide Hex;
    p := p0;
    if needcolon {
      p := PutChar(buf, p, ':');
    }
    p := PutGroup(buf, p, w);
  }

  /** The emission loop over the groups. */
  method PutGroups(buf: array<char>, g: seq<u16>, range: nat, colonpos: int, longest: nat, ghost items: seq<string>)
    returns (p: nat, needcolon: bool, ghost base: string, ghost from: nat)
    requires |g| == 8 && range <= 8 && buf.Length == 46 && range <= |items|
    requires forall i | 0 <= i < range :: items[i] == Hex(g[i])
    requires colonpos == -1 || (0 <= colonpos && 2 <= longest && colonpos + longest <= range)
    modifies buf
    ensures p <= 5 * range - (if needcolon then 1 else 0) && needcolon == (range > from)
    ensures SoFar(items, base, from, range, buf[..p])
    ensures if colonpos == -1 then base == "" && from == 0
            else base == Join(items[..colonpos], ':') + "::" && from == colonpos + longest
  {
    hide Join, Hex, SoFar;
    var i := 0;
    p, needcolon, base, from := 0, false, "", 0;
    assert buf[..0] == "";
    SoFarStart(items, "", 0);
    while i < range
      invariant from <= i <= range && needcolon == (i > from)
      invariant p <= 5 * i - (if needcolon then 1 else 0) && p <= buf.Length
      invariant SoFar(items, base, from, i, buf[..p])
      invariant colonpos == -1 || i <= colonpos ==> base == "" && from == 0
      invariant colonpos != -1 && i > colonpos ==> base == Join(items[..colonpos], ':') + "::" && from == colonpos + longest
    {
      if i == colonpos {
        WholeSoFar(items, i, buf[..p]);
        base := Join(items[..i], ':') + "::";
        p := PutDouble(buf, p, needcolon || i == 0);
        needcolon := false;
        i := i + longest;
        from := i;
        SoFarStart(items, base, i);
      } else {
        SoFarNext(items, base, from, i, buf[..p]);
        p := PutNextGroup(buf, p, needcolon, g[i]);
        needcolon := true;
        i := i + 1;
      }
    }
  }

  method PutDouble(buf: array<char>, p0: nat, two: bool) returns (p: nat)
    requires p0 + 2 <= buf.Length
    modifies buf
    ensures p == p0 + (if two then 2 else 1) && buf[..p] == old(buf[..p0]) + (if two then "::" else ":")
  {
    p := p0;
    if two {
      p := PutChar(buf, p, ':');
    }
    p := PutChar(buf, p, ':');
  }

  lemma WholeSoFar(items: seq<string>, i: nat, t: string)
    requires SoFar(items, "", 0, i, t)
    ensures t == Join(items[..i], ':')
  {
    assert items[0..i] == items[..i];
  }

  lemma QuadsAreDotted(hi: u16, lo: u16)
    ensures Join(Quads([hi / 256, hi % 256, lo / 256, lo % 256], false, false), '.') == Dotted(hi, lo)
  {
    hide Join, Decimal;
    assert Quads([hi / 256, hi % 256, lo / 256, lo % 256], false, false)
        == [Decimal(hi / 256), Decimal(hi % 256), Decimal(lo / 256), Decimal(lo % 256)];
  }

  /** The groups and, for v4, the dotted quad, put together as the text. */
  lemma SoFarIsText(g: seq<u16>, v4: bool, base: string, from: nat, t: string)
    requires |g| == 8 && SoFar(Items(g, v4), base, from, |Items(g, v4)|, t)
    requires var b := BestGap(g, Range(v4), Range(v4));
             if b.Gap? then base == Join(Items(g, v4)[..b.at], ':') + "::" && from == b.at + b.len
             else base == "" && from == 0
    ensures t == Text(g, v4)
  {
    hide Join, Items, BestGap;
    var items := Items(g, v4);
    assert items[from..|items|] == items[from..];
    if from == 0 {
      assert items[0..] == items;
    }
  }

  /** The IPv4 tail. */
  method PutTail(buf: array<char>, p0: nat, needcolon: bool, hi: u16, lo: u16) returns (p: nat)
    requires buf.Length == 46 && p0 <= 30 - (if needcolon then 1 else 0)
    modifies buf
    ensures p <= 45 && buf[..p] == old(buf[..p0]) + ((if needcolon then ":" else "") + Dotted(hi, lo)) && buf[p] == NUL
  {
    hide Dotted, Join, Quads;
    ghost var head, colon := buf[..p0], if needcolon then ":" else "";
    p := p0;
    if needcolon {
      p := PutChar(buf, p, ':');
    }
    assert buf[..p] == head + colon;
    QuadsAreDotted(hi, lo);
    p := Ip4String(buf, p, [hi / 256, hi % 256, lo / 256, lo % 256], false, false);
    assert head + colon + Dotted(hi, lo) == head + (colon + Dotted(hi, lo));
  }

  /** ip6_compressed_string, into the 46 bytes its caller provides. */
  method CompressedString(buf: array<char>, g: seq<u16>, v4: bool) returns (p: nat)
    requires |g| == 8 && buf.Length == 46
    modifies buf
    ensures p <= 45 && buf[..p] == Text(g, v4) && buf[p] == NUL
  {
    hide Text, Items, SoFar, Hex, Dotted, BestGap;
    var range := Range(v4);
    var colonpos, longest := LongestRun(g, range);
    ghost var items := Items(g, v4);
    assert (forall i | 0 <= i < range :: items[i] == Hex(g[i])) && (v4 ==> items[6] == Dotted(g[6], g[7])) by {
      ItemsAre(g, v4);
    }
    GapLength(g, range);
    var needcolon;
    ghost var base, from;
    p, needcolon, base, from := PutGroups(buf, g, range, colonpos, longest, items);
    ghost var done := buf[..p];
    if v4 {
      SoFarNext(items, base, from, 6, buf[..p]);
      p := PutTail(buf, p, needcolon, g[6], g[7]);
    } else {
      buf[p] := NUL;
      assert buf[..p] == done;
    }
    SoFarIsText(g, v4, base, from, buf[..p]);
  }

  lemma ItemsAre(g: seq<u16>, v4: bool)
    requires |g| == 8
    ensures forall i | 0 <= i < Range(v4) :: Items(g, v4)[i] == Hex(g[i])
    ensures v4 ==> Items(g, v4)[6] == Dotted(g[6], g[7])
  {
  }

  lemma GapLength(g: seq<u16>, range: nat)
    requires range <= |g|
    ensures var b := BestGap(g, range, range); b.Gap? ==> b.len >= 2
  {
    BestGapIsLongest(g, range, range);
  }
}
