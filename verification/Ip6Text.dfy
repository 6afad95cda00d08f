/** The compressed text form of IPv6 addresses, and how to read it. */
module Ip6Text {
  import opened CType
  import opened Digits

  type u16 = x: int | 0 <= x < 0x10000

  // ------------------------------------------------------- the run to compress

  /** How many groups in a row, from i on, are zero. */
  function ZeroRun(g: seq<u16>, i: nat, range: nat): (n: nat)
    requires i <= range <= |g|
    ensures i + n <= range && forall k | i <= k < i + n :: g[k] == 0
    ensures i + n < range ==> g[i + n] != 0
    decreases range - i
  {
    if i < range && g[i] == 0 then 1 + ZeroRun(g, i + 1, range) else 0
  }

  datatype Gap = Gap(at: nat, len: nat) | NoGap

  /** A single zero group is not worth compressing. */
  function Length(gap: Gap): nat {
    if gap.Gap? then gap.len else 1
  }

  /** The run chosen among those that start before n. */
  function BestGap(g: seq<u16>, range: nat, n: nat): (b: Gap)
    requires n <= range <= |g|
    ensures b.Gap? ==> b.at + b.len <= range
  {
    if n == 0 then NoGap
    else
      var b := BestGap(g, range, n - 1);
      var z := ZeroRun(g, n - 1, range);
      if z > Length(b) then Gap(n - 1, z) else b
  }

  /** The chosen run is of two or more zero groups, is as long as any, and is the first such;
      without one, no two adjacent groups are zero. */
  lemma {:induction false} BestGapIsLongest(g: seq<u16>, range: nat, n: nat)
    requires n <= range <= |g|
    ensures var b := BestGap(g, range, n);
            && (b.Gap? ==> b.at < n && b.len >= 2 && b.len == ZeroRun(g, b.at, range)
                           && forall i | 0 <= i < b.at :: ZeroRun(g, i, range) < b.len)
            && forall i | 0 <= i < n :: ZeroRun(g, i, range) <= Length(b)
  {
    if n > 0 {
      BestGapIsLongest(g, range, n - 1);
    }
  }

  // ------------------------------------------------------------------ the text

  function Join(items: seq<string>, sep: char): string {
    if items == [] then ""
    else if |items| == 1 then items[0]
    else items[0] + ([sep] + Join(items[1..], sep))
  }

  /** Lower-case hexadecimal without leading zeros. */
  function Hex(w: u16): string {
    Numeral(w, 16, true)
  }

  function Hexes(g: seq<u16>): (r: seq<string>)
    ensures |r| == |g| && forall i | 0 <= i < |g| :: r[i] == Hex(g[i])
  {
    seq(|g|, i requires 0 <= i < |g| => Hex(g[i]))
  }

  function Decimal(b: nat): string {
    Numeral(b, 10, false)
  }

  /** Two groups as four decimal bytes. */
  function Dotted(hi: u16, lo: u16): string {
    Join([Decimal(hi / 256), Decimal(hi % 256), Decimal(lo / 256), Decimal(lo % 256)], '.')
  }

  function Range(v4: bool): nat {
    if v4 then 6 else 8
  }

  /** What stands between colons: groups, and perhaps an IPv4 address for the last two. */
  function Items(g: seq<u16>, v4: bool): (r: seq<string>)
    requires |g| == 8
    ensures |r| == if v4 then 7 else 8
  {
    Hexes(g[..Range(v4)]) + (if v4 then [Dotted(g[6], g[7])] else [])
  }

  function Text(g: seq<u16>, v4: bool): string
    requires |g| == 8
  {
    var items := Items(g, v4);
    match BestGap(g, Range(v4), Range(v4))
    case NoGap => Join(items, ':')
    case Gap(at, len) =>
      BestGapIsLongest(g, Range(v4), Range(v4));
      Join(items[..at], ':') + "::" + Join(items[at + len..], ':')
  }

  // --------------------------------------------------------------- reading it

  function Split(s: string, sep: char): (r: seq<string>)
    ensures |r| >= 1
  {
    if s == "" then [""]
    else
      var r := Split(s[1..], sep);
      if s[0] == sep then [""] + r else [[s[0]] + r[0]] + r[1..]
  }

  /** The position of the first `::`, or the length. */
  function FindDouble(s: string): (k: nat)
    ensures k <= |s| && (k < |s| ==> k + 1 < |s| && s[k] == s[k + 1] == ':')
  {
    if |s| < 2 then |s|
    else if s[0] == ':' && s[1] == ':' then 0
    else
      var k := FindDouble(s[1..]);
      1 + k
  }

  predicate AllDigits(s: string) {
    forall i | 0 <= i < |s| :: IsXDigit(s[i])
  }

  function Read(s: string, base: nat): nat {
    if AllDigits(s) then Value(s, base) else 0
  }

  function ReadItem(s: string): seq<nat> {
    var p := Split(s, '.');
    if |p| == 4 then [Read(p[0], 10) * 256 + Read(p[1], 10), Read(p[2], 10) * 256 + Read(p[3], 10)]
    else [Read(s, 16)]
  }

  function ReadItems(items: seq<string>): seq<nat> {
    if items == [] then [] else ReadItem(items[0]) + ReadItems(items[1..])
  }

  function Fields(s: string): seq<string> {
    if s == "" then [] else Split(s, ':')
  }

  function Zeros16(n: int): (r: seq<nat>)
    ensures |r| == (if n < 0 then 0 else n) && forall i | 0 <= i < |r| :: r[i] == 0
  {
    if n <= 0 then [] else seq(n, _ => 0)
  }

  /** Zero groups between those on the left and those on the right, up to eight in all. */
  function Filled(l: seq<nat>, r: seq<nat>): seq<nat> {
    l + Zeros16(8 - |l| - |r|) + r
  }

  /** The eight groups a text stands for: `::` makes up for the groups left out. */
  function Expand(s: string): seq<nat> {
    var k := FindDouble(s);
    if k == |s| then ReadItems(Fields(s))
    else Filled(ReadItems(Fields(s[..k])), ReadItems(Fields(s[k + 2..])))
  }

  // ------------------------------------------------------- joins and splittings

  predicate Free(s: string, c: char) {
    forall i | 0 <= i < |s| :: s[i] != c
  }

  predicate Items1(items: seq<string>, sep: char) {
    forall i | 0 <= i < |items| :: items[i] != "" && Free(items[i], sep)
  }

  lemma {:induction false} SplitFirst(a: string, sep: char, rest: string)
    requires Free(a, sep)
    ensures Split(a, sep) == [a] && Split(a + ([sep] + rest), sep) == [a] + Split(rest, sep)
    decreases |a|
  {
    var s := a + ([sep] + rest);
    if a == "" {
      assert s == [sep] + rest;
      assert s[1..] == rest;
    } else {
      SplitFirst(a[1..], sep, rest);
      assert s[1..] == a[1..] + ([sep] + rest);
      assert a == [a[0]] + a[1..];
    }
  }

  lemma {:induction false} SplitJoin(items: seq<string>, sep: char)
    requires items != [] && Items1(items, sep)
    ensures Split(Join(items, sep), sep) == items
    decreases |items|
  {
    if |items| == 1 {
      SplitFirst(items[0], sep, "");
      assert items == [items[0]];
    } else {
      SplitJoin(items[1..], sep);
      SplitFirst(items[0], sep, Join(items[1..], sep));
      assert items == [items[0]] + items[1..];
    }
  }

  lemma {:induction false} FieldsJoin(items: seq<string>)
    requires Items1(items, ':')
    ensures Fields(Join(items, ':')) == items
  {
    if items != [] {
      SplitJoin(items, ':');
    }
  }

  /** No `::` anywhere, and no `:` at either end. */
  predicate Single(s: string) {
    && (s != "" ==> s[0] != ':' && s[|s| - 1] != ':')
    && forall i | 0 < i < |s| :: !(s[i - 1] == ':' && s[i] == ':')
  }

  lemma {:induction false} JoinSingle(items: seq<string>)
    requires Items1(items, ':')
    ensures Single(Join(items, ':')) && (items != [] ==> Join(items, ':') != "")
    decreases |items|
  {
    if |items| >= 2 {
      var r := Join(items[1..], ':');
      JoinSingle(items[1..]);
      var s := items[0] + ([':'] + r);
      forall i | 0 < i < |s| ensures !(s[i - 1] == ':' && s[i] == ':') {
        var n := |items[0]|;
        if i > n + 1 {
          assert s[i] == r[i - n - 1] && s[i - 1] == r[i - n - 2];
        }
      }
    }
  }

  lemma {:induction false} FindNone(s: string)
    requires forall i | 0 < i < |s| :: !(s[i - 1] == ':' && s[i] == ':')
    ensures FindDouble(s) == |s|
  {
    if |s| >= 2 {
      assert !(s[1 - 1] == ':' && s[1] == ':');
      forall i | 0 < i < |s[1..]| ensures !(s[1..][i - 1] == ':' && s[1..][i] == ':') {
        assert s[1..][i] == s[i + 1] && s[1..][i - 1] == s[i + 1 - 1];
      }
      FindNone(s[1..]);
    }
  }

  /** The first `::` after a text without one. */
  lemma {:induction false} FindTail(a: string, r: string)
    requires a != "" && a[|a| - 1] != ':' && forall i | 0 < i < |a| :: !(a[i - 1] == ':' && a[i] == ':')
    ensures FindDouble(a + ("::" + r)) == |a|
    decreases |a|
  {
    var s := a + ("::" + r);
    assert s[1..] == a[1..] + ("::" + r);
    if |a| == 1 {
      assert s[1..] == "::" + r;
      assert FindDouble("::" + r) == 0;
    } else {
      assert !(a[1 - 1] == ':' && a[1] == ':');
      forall i | 0 < i < |a[1..]| ensures !(a[1..][i - 1] == ':' && a[1..][i] == ':') {
        assert a[1..][i] == a[i + 1] && a[1..][i - 1] == a[i + 1 - 1];
      }
      FindTail(a[1..], r);
    }
  }

  lemma FindFirst(a: string, r: string)
    requires Single(a)
    ensures FindDouble(a + ("::" + r)) == |a|
  {
    if a == "" {
      assert a + ("::" + r) == "::" + r;
    } else {
      FindTail(a, r);
    }
  }

  // ---------------------------------------------------- items read back as groups

  lemma NumeralFree(n: nat, base: nat, small: bool, c: char)
    requires IsBase(base) && !IsXDigit(c)
    ensures Free(Numeral(n, base, small), c) && AllDigits(Numeral(n, base, small))
    ensures Read(Numeral(n, base, small), base) == n
  {
    NumeralValue(n, base, small);
  }

  lemma HexReads(w: u16)
    ensures Hex(w) != "" && Free(Hex(w), ':') && ReadItem(Hex(w)) == [w]
  {
    NumeralFree(w, 16, true, ':');
    NumeralFree(w, 16, true, '.');
    SplitFirst(Hex(w), '.', "");
  }

  /** Groups are written in lower case, without leading zeros (sections 4.1 and 4.3 of RFC 5952). */
  lemma HexLower(w: u16)
    ensures forall c | c in Hex(w) :: '0' <= c <= '9' || 'a' <= c <= 'f'
    ensures 1 <= |Hex(w)| <= 4 && (Hex(w)[0] == '0' <==> w == 0)
  {
    NumeralCase(w, 16, true);
    NumeralLeads(w, 16, true);
    HexLength(w);
  }

  lemma HexLength(w: u16)
    ensures 1 <= |Hex(w)| <= 4
  {
    hide DigitChar;
    var a, b, c := Rest(w, 16), Rest(Rest(w, 16), 16), Rest(Rest(Rest(w, 16), 16), 16);
    assert a < 4096 && b < 256 && c < 16;
    assert |Numeral(c, 16, true)| == 1;
    assert |Numeral(b, 16, true)| <= 2;
    assert |Numeral(a, 16, true)| <= 3;
  }

  lemma {:induction false} JoinFree(items: seq<string>, sep: char, c: char)
    requires sep != c && forall i | 0 <= i < |items| :: Free(items[i], c)
    ensures Free(Join(items, sep), c)
    decreases |items|
  {
    if |items| >= 2 {
      JoinFree(items[1..], sep, c);
    }
  }

  lemma DottedReads(hi: u16, lo: u16)
    ensures Dotted(hi, lo) != "" && Free(Dotted(hi, lo), ':') && ReadItem(Dotted(hi, lo)) == [hi, lo]
  {
    hide Decimal, Join, Split, Free;
    var d := [Decimal(hi / 256), Decimal(hi % 256), Decimal(lo / 256), Decimal(lo % 256)];
    DecimalReads(hi / 256);
    DecimalReads(hi % 256);
    DecimalReads(lo / 256);
    DecimalReads(lo % 256);
    JoinFree(d, '.', ':');
    SplitJoin(d, '.');
    JoinNonempty(d, '.');
  }

  lemma DecimalReads(b: nat)
    ensures Decimal(b) != "" && Free(Decimal(b), ':') && Free(Decimal(b), '.') && Read(Decimal(b), 10) == b
  {
    NumeralFree(b, 10, false, ':');
    NumeralFree(b, 10, false, '.');
  }

  lemma JoinNonempty(items: seq<string>, sep: char)
    requires items != [] && items[0] != ""
    ensures Join(items, sep) != ""
  {
  }

  lemma {:induction false} ReadConcat(a: seq<string>, b: seq<string>)
    ensures ReadItems(a + b) == ReadItems(a) + ReadItems(b)
    decreases |a|
  {
    if a == [] {
      assert a + b == b;
    } else {
      assert (a + b)[1..] == a[1..] + b;
      ReadConcat(a[1..], b);
    }
  }

  lemma {:induction false} HexesRead(g: seq<u16>)
    ensures ReadItems(Hexes(g)) == g
    decreases |g|
  {
    hide ReadItem, Hex;
    if g != [] {
      HexReads(g[0]);
      assert Hexes(g)[1..] == Hexes(g[1..]);
      HexesRead(g[1..]);
    }
  }

  lemma ItemsProper(g: seq<u16>, v4: bool)
    requires |g| == 8
    ensures Items1(Items(g, v4), ':')
  {
    hide Dotted, Hex, Free;
    DottedReads(g[6], g[7]);
    forall i | 0 <= i < Range(v4) ensures Items(g, v4)[i] != "" && Free(Items(g, v4)[i], ':') {
      HexReads(g[i]);
    }
  }

  /** Any cut of the items within the groups reads as the same cut of the address. */
  lemma ItemsRead(g: seq<u16>, v4: bool, i: nat)
    requires |g| == 8 && i <= Range(v4)
    ensures ReadItems(Items(g, v4)[..i]) == g[..i] && ReadItems(Items(g, v4)[i..]) == g[i..]
  {
    hide Dotted, Hex, ReadItem;
    var items := Items(g, v4);
    assert items[..i] == Hexes(g[..i]);
    HexesRead(g[..i]);
    HexesRead(g[i..Range(v4)]);
    if v4 {
      var d := [Dotted(g[6], g[7])];
      assert items[i..] == Hexes(g[i..6]) + d;
      ReadConcat(Hexes(g[i..6]), d);
      DottedReads(g[6], g[7]);
      assert d[1..] == [] && ReadItems(d) == ReadItem(d[0]) + ReadItems(d[1..]);
      assert g[i..6] + [g[6], g[7]] == g[i..];
    } else {
      assert items[i..] == Hexes(g[i..8]) && g[i..8] == g[i..];
    }
  }

  /** What `::` between two joins expands to. */
  lemma ExpandGap(l: seq<string>, r: seq<string>)
    requires Items1(l, ':') && Items1(r, ':')
    ensures Expand(Join(l, ':') + "::" + Join(r, ':')) == Filled(ReadItems(l), ReadItems(r))
  {
    hide Join, Fields, ReadItems, FindDouble, Items1, Filled, Expand;
    var a, b := Join(l, ':'), Join(r, ':');
    JoinProper(l);
    JoinProper(r);
    FindFirst(a, b);
    Halves(a, b);
    ExpandAt(a + "::" + b, a, b);
  }

  lemma ExpandAt(s: string, a: string, b: string)
    requires |s| == |a| + 2 + |b| && FindDouble(s) == |a| && s[..|a|] == a && s[|a| + 2..] == b
    ensures Expand(s) == Filled(ReadItems(Fields(a)), ReadItems(Fields(b)))
  {
    hide Fields, ReadItems, FindDouble, Filled;
    var k := FindDouble(s);
    assert k < |s| && s[..k] == a && s[k + 2..] == b;
  }

  lemma Halves(a: string, b: string)
    ensures var s := a + "::" + b;
            s == a + ("::" + b) && |s| == |a| + 2 + |b| && s[..|a|] == a && s[|a| + 2..] == b
  {
  }

  lemma ExpandWhole(items: seq<string>)
    requires Items1(items, ':')
    ensures Expand(Join(items, ':')) == ReadItems(items)
  {
    JoinProper(items);
  }

  /** The text determines the address: expanding it gives back all eight groups. */
  lemma TextExpands(g: seq<u16>, v4: bool)
    requires |g| == 8
    ensures Expand(Text(g, v4)) == g
  {
    hide Items, Join, Expand, ReadItems, Items1, BestGap;
    var items, n := Items(g, v4), Range(v4);
    ItemsProper(g, v4);
    var b := BestGap(g, n, n);
    if b == NoGap {
      ExpandWhole(items);
      ItemsRead(g, v4, 0);
      assert items[0..] == items && g[0..] == g;
    } else {
      PartsProper(items, b.at, b.at + b.len);
      ItemsRead(g, v4, b.at);
      ItemsRead(g, v4, b.at + b.len);
      ExpandGap(items[..b.at], items[b.at + b.len..]);
      GapFills(g, n, b);
    }
  }

  /** The groups left out are zero. */
  lemma GapFills(g: seq<u16>, n: nat, b: Gap)
    requires |g| == 8 && n <= 8 && b == BestGap(g, n, n) && b.Gap?
    ensures g[..b.at] + Zeros16(8 - |g[..b.at]| - |g[b.at + b.len..]|) + g[b.at + b.len..] == g
  {
    BestGapIsLongest(g, n, n);
    assert forall k | b.at <= k < b.at + b.len :: g[k] == 0;
  }

  lemma PartsProper(items: seq<string>, i: nat, j: nat)
    requires Items1(items, ':') && i <= j <= |items|
    ensures Items1(items[..i], ':') && Items1(items[j..], ':')
  {
  }

  lemma JoinProper(items: seq<string>)
    requires Items1(items, ':')
    ensures Single(Join(items, ':')) && FindDouble(Join(items, ':')) == |Join(items, ':')|
    ensures Fields(Join(items, ':')) == items
  {
    JoinSingle(items);
    FindNone(Join(items, ':'));
    FieldsJoin(items);
  }

  /** Between two texts without a double or outer colon, the joining `::` is the only double colon. */
  lemma DoubleBetween(l: string, r: string, i: nat)
    requires Single(l) && Single(r) && 0 < i < |l + "::" + r|
    ensures var s := l + "::" + r; s[i - 1] == s[i] == ':' <==> i - 1 == |l|
  {
    var s := l + "::" + r;
    if i < |l| {
      assert s[i] == l[i] && s[i - 1] == l[i - 1];
    } else if i == |l| {
      assert s[i - 1] == l[i - 1] != ':';
    } else if i == |l| + 1 {
      assert s[i - 1] == s[i] == ':';
    } else if i == |l| + 2 {
      assert s[i] == r[0] != ':';
    } else {
      assert s[i] == r[i - |l| - 2] && s[i - 1] == r[i - |l| - 3];
    }
  }

  /** At most one `::`: two colons in a row stand exactly where the chosen run was, if there was one. */
  lemma OneDouble(g: seq<u16>, v4: bool, i: nat)
    requires |g| == 8 && 0 < i < |Text(g, v4)|
    ensures var b := BestGap(g, Range(v4), Range(v4));
            Text(g, v4)[i - 1] == Text(g, v4)[i] == ':' <==> b.Gap? && i - 1 == |Join(Items(g, v4)[..b.at], ':')|
  {
    hide Items, Join, Items1, Single;
    var items, n := Items(g, v4), Range(v4);
    ItemsProper(g, v4);
    BestGapIsLongest(g, n, n);
    var b := BestGap(g, n, n);
    if b == NoGap {
      JoinSingle(items);
      NoDouble(Join(items, ':'), i);
    } else {
      PartsProper(items, b.at, b.at + b.len);
      JoinSingle(items[..b.at]);
      JoinSingle(items[b.at + b.len..]);
      DoubleBetween(Join(items[..b.at], ':'), Join(items[b.at + b.len..], ':'), i);
    }
  }

  lemma NoDouble(s: string, i: nat)
    requires Single(s) && 0 < i < |s|
    ensures !(s[i - 1] == s[i] == ':')
  {
  }
}
