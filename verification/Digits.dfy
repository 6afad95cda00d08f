/** Numerals, and the division-free decimal conversion. */
module Digits {
  import opened Bits
  import opened CType

  function Fill(c: char, n: nat): (s: string)
    ensures |s| == n && forall i | 0 <= i < n :: s[i] == c
  {
    seq(n, _ => c)
  }

  function DigitChar(d: nat, small: bool): (c: char)
    requires d < 16
  {
    if d < 10 then ('0' as int + d) as char
    else if small then ('a' as int + d - 10) as char
    else ('A' as int + d - 10) as char
  }

  /** The bases printf knows. */
  predicate IsBase(base: nat) {
    base == 8 || base == 10 || base == 16
  }

  function Last(n: nat, base: nat): (d: nat)
    requires IsBase(base)
    ensures d < base
  {
    if base == 8 then n % 8 else if base == 10 then n % 10 else n % 16
  }

  function Rest(n: nat, base: nat): (q: nat)
    requires IsBase(base)
    ensures n >= base ==> 1 <= q < n
  {
    if base == 8 then n / 8 else if base == 10 then n / 10 else n / 16
  }

  lemma RestLast(n: nat, base: nat)
    requires IsBase(base)
    ensures Rest(n, base) * base + Last(n, base) == n
  {
  }

  /** The numeral of n in `base`, most significant digit first, without leading zeros. */
  function Numeral(n: nat, base: nat, small: bool): (s: string)
    requires IsBase(base)
    ensures |s| >= 1
    decreases n
  {
    if n < base then [DigitChar(n, small)]
    else Numeral(Rest(n, base), base, small) + [DigitChar(Last(n, base), small)]
  }

  /** The same digits, least significant first. */
  function Backwards(n: nat, base: nat, small: bool): (s: string)
    requires IsBase(base)
    ensures |s| >= 1
    decreases n
  {
    if n < base then [DigitChar(n, small)]
    else [DigitChar(Last(n, base), small)] + Backwards(Rest(n, base), base, small)
  }

  function Reverse(s: string): (r: string)
    ensures |r| == |s|
  {
    if s == [] then [] else Reverse(s[1..]) + [s[0]]
  }

  lemma {:induction false} ReverseAt(s: string, k: nat)
    requires k < |s|
    ensures Reverse(s)[k] == s[|s| - 1 - k]
  {
    if k < |s| - 1 {
      ReverseAt(s[1..], k);
    }
  }

  lemma {:induction false} BackwardsReversed(n: nat, base: nat, small: bool)
    requires IsBase(base)
    ensures Reverse(Backwards(n, base, small)) == Numeral(n, base, small)
    decreases n
  {
    var s := Backwards(n, base, small);
    if n >= base {
      BackwardsReversed(Rest(n, base), base, small);
      assert s[1..] == Backwards(Rest(n, base), base, small);
    } else {
      assert s[1..] == [];
    }
  }

  function DigitValue(c: char): nat
    requires IsXDigit(c)
  {
    if c <= '9' then c as int - '0' as int
    else if c <= 'F' then c as int - 'A' as int + 10
    else c as int - 'a' as int + 10
  }

  /** What a numeral stands for. */
  function Value(s: string, base: nat): nat
    requires forall i | 0 <= i < |s| :: IsXDigit(s[i])
  {
    if s == [] then 0
    else
      assert IsXDigit(s[|s| - 1]);
      Value(s[..|s| - 1], base) * base + DigitValue(s[|s| - 1])
  }

  predicate IsNumeral(s: string, base: nat) {
    forall i | 0 <= i < |s| :: IsXDigit(s[i]) && DigitValue(s[i]) < base
  }

  lemma ValueSnoc(t: string, c: char, base: nat)
    requires IsNumeral(t, base) && IsXDigit(c) && DigitValue(c) < base
    ensures IsNumeral(t + [c], base) && Value(t + [c], base) == Value(t, base) * base + DigitValue(c)
  {
    assert (t + [c])[..|t|] == t;
  }

  /** A numeral has digits below its base and stands for its number. */
  lemma {:induction false} NumeralValue(n: nat, base: nat, small: bool)
    requires IsBase(base)
    ensures IsNumeral(Numeral(n, base, small), base)
    ensures Value(Numeral(n, base, small), base) == n
    decreases n
  {
    hide Value, DigitValue, DigitChar, IsXDigit, Last, Rest;
    if n < base {
      DigitStandsFor(n, small);
      EmptyNumeral(base);
      ValueSnoc([], DigitChar(n, small), base);
      assert [] + [DigitChar(n, small)] == Numeral(n, base, small);
    } else {
      NumeralValue(Rest(n, base), base, small);
      RestLast(n, base);
      DigitStandsFor(Last(n, base), small);
      ValueSnoc(Numeral(Rest(n, base), base, small), DigitChar(Last(n, base), small), base);
    }
  }

  lemma DigitStandsFor(d: nat, small: bool)
    requires d < 16
    ensures IsXDigit(DigitChar(d, small)) && DigitValue(DigitChar(d, small)) == d
  {
  }

  lemma EmptyNumeral(base: nat)
    ensures IsNumeral([], base) && Value([], base) * base == 0
  {
  }

  /** A numeral has no leading zero. */
  lemma {:induction false} NumeralLeads(n: nat, base: nat, small: bool)
    requires IsBase(base)
    ensures Numeral(n, base, small)[0] == '0' <==> n == 0
    decreases n
  {
    if n >= base {
      NumeralLeads(Rest(n, base), base, small);
    }
  }

  /** The characters of numerals: letters are of the case asked for, and decimals have none. */
  predicate IsDigitOf(c: char, base: nat, small: bool) {
    || (base == 8 && '0' <= c <= '7') || (base != 8 && '0' <= c <= '9')
    || (base == 16 && if small then 'a' <= c <= 'f' else 'A' <= c <= 'F')
  }

  lemma {:induction false} NumeralCase(n: nat, base: nat, small: bool)
    requires IsBase(base)
    ensures forall c | c in Numeral(n, base, small) :: IsDigitOf(c, base, small)
    decreases n
  {
    if n >= base {
      NumeralCase(Rest(n, base), base, small);
    }
  }

  // ---------------------------------------------------------- decimal digits

  function Dec(n: nat): string {
    Backwards(n, 10, false)
  }

  /** Five digits, least significant first, with zeros at the end if need be. */
  function Five(n: nat): (s: string)
    ensures |s| == 5
  {
    var n1 := n / 10;
    var n2 := n1 / 10;
    var n3 := n2 / 10;
    [DigitChar(n % 10, false), DigitChar(n1 % 10, false), DigitChar(n2 % 10, false),
     DigitChar(n3 % 10, false), DigitChar(n3 / 10 % 10, false)]
  }

  /** (x * 0xcd) >> 11 is division by ten over the ranges that arise. */
  lemma TenByCd(x: nat)
    requires x < 1024
    ensures x * 0xcd / 2048 == x / 10
  {
  }

  /** (x * 0xd) >> 7 is division by ten only up to 68. */
  lemma TenByD(x: nat)
    requires x <= 68
    ensures x * 0xd / 128 == x / 10
  {
  }

  lemma SixteensSplit(q: nat, d1: nat, d2: nat, d3: nat)
    requires q <= 99999 && d1 == q / 16 % 16 && d2 == q / 256 % 16 && d3 == q / 4096
    ensures q == 4096 * d3 + 256 * d2 + 16 * d1 + q % 16
    ensures d3 <= 24
  {
    assert q / 256 == q / 16 / 16;
    assert q / 4096 == q / 256 / 16;
  }

  lemma TenSplit(q: nat, d: nat, r: nat)
    requires q == d + 10 * r
    ensures q % 10 == d % 10 && q / 10 == d / 10 + r
  {
  }

  method PutChar(buf: array<char>, at: nat, c: char) returns (end: nat)
    requires at < buf.Length
    modifies buf
    ensures end == at + 1 && buf[..end] == old(buf[..at]) + [c]
  {
    buf[at] := c;
    end := at + 1;
  }

  /** Dec one digit at a time. */
  lemma DecStep(n: nat, d: nat, r: nat)
    requires d == n % 10 && r == n / 10
    ensures r == 0 ==> Dec(n) == [DigitChar(d, false)]
    ensures r != 0 ==> Dec(n) == [DigitChar(d, false)] + Dec(r)
  {
  }

  /** One digit split off by multiply and shift, as put_dec_trunc and put_dec_full do it:
      x carries the number n as n == x + 10 * more. */
  method SplitDigit(x: nat, factor: nat, shift: nat, ghost n: nat, ghost more: nat) returns (q: nat, d: nat)
    requires (factor == 0xcd && shift == 2048 && x < 1024) || (factor == 0xd && shift == 128 && x <= 68)
    requires n == x + 10 * more
    ensures d == n % 10 && q + more == n / 10 && q == x / 10
  {
    TenSplit(n, x, more);
    if factor == 0xcd {
      TenByCd(x);
    } else {
      TenByD(x);
    }
    q := x * factor / shift;
    d := x - 10 * q;
  }

  /** put_dec_trunc: one to five digits. */
  method PutDecTrunc(buf: array<char>, at: nat, q0: nat) returns (end: nat)
    requires q0 <= 99999 && at + |Dec(q0)| <= buf.Length
    modifies buf
    ensures end == at + |Dec(q0)| && buf[..end] == old(buf[..at]) + Dec(q0)
  {
    var d1, d2, d3 := q0 / 16 % 16, q0 / 256 % 16, q0 / 4096;
    SixteensSplit(q0, d1, d2, d3);
    var d0 := 6 * (d3 + d2 + d1) + q0 % 16;
    var q;
    q, d0 := SplitDigit(d0, 0xcd, 2048, q0, 9 * d3 + 25 * d2 + d1 + 400 * d3);
    ghost var n := q0 / 10;
    DecStep(q0, d0, n);
    end := PutChar(buf, at, DigitChar(d0, false));
    d1 := q + 9 * d3 + 5 * d2 + d1;
    if d1 != 0 {
      ghost var p := buf[..end];
      end := PutFrom2(buf, end, d1, d2, d3, n);
      assert p + Dec(n) == old(buf[..at]) + ([DigitChar(d0, false)] + Dec(n));
    }
  }

  /** The second digit and on. */
  method PutFrom2(buf: array<char>, at: nat, x: nat, d2: nat, d3: nat, ghost n: nat) returns (end: nat)
    requires at + |Dec(n)| <= buf.Length && 0 < x <= 339 && d2 < 16 && d3 <= 24 && n <= 9999
    requires n == x + 10 * (2 * d2 + 40 * d3)
    modifies buf
    ensures end == at + |Dec(n)| && buf[..end] == old(buf[..at]) + Dec(n)
  {
    var q, d := SplitDigit(x, 0xcd, 2048, n, 2 * d2 + 40 * d3);
    ghost var n' := n / 10;
    DecStep(n, d, n');
    end := PutChar(buf, at, DigitChar(d, false));
    var y := q + 2 * d2;
    if y != 0 || d3 != 0 {
      ghost var p := buf[..end];
      end := PutFrom3(buf, end, y, d3, n');
      assert p + Dec(n') == old(buf[..at]) + ([DigitChar(d, false)] + Dec(n'));
    }
  }

  /** The third digit and on. */
  method PutFrom3(buf: array<char>, at: nat, x: nat, d3: nat, ghost n: nat) returns (end: nat)
    requires at + |Dec(n)| <= buf.Length && x <= 63 && d3 <= 24 && 0 < n <= 999
    requires n == x + 10 * (4 * d3)
    modifies buf
    ensures end == at + |Dec(n)| && buf[..end] == old(buf[..at]) + Dec(n)
  {
    var q, d := SplitDigit(x, 0xd, 128, n, 4 * d3);
    ghost var n' := n / 10;
    DecStep(n, d, n');
    end := PutChar(buf, at, DigitChar(d, false));
    var y := q + 4 * d3;
    if y != 0 {
      ghost var p, c := buf[..end], DigitChar(d, false);
      q, d := SplitDigit(y, 0xcd, 2048, n', 0);
      DecStep(n', d, q);
      end := PutChar(buf, end, DigitChar(d, false));
      if q != 0 {
        DecStep(q, q, 0);
        end := PutChar(buf, end, DigitChar(q, false));
      }
      assert buf[..end] == p + Dec(n');
      assert p + Dec(n') == old(buf[..at]) + ([c] + Dec(n'));
    }
  }

  /** The carry chain of put_dec_full. */
  method FiveDigits(q0: nat) returns (d0: nat, d1: nat, d2: nat, d3: nat, q: nat)
    requires q0 <= 99999
    ensures d0 == q0 % 10 && d1 == q0 / 10 % 10 && d2 == q0 / 10 / 10 % 10 && d3 == q0 / 10 / 10 / 10 % 10
    ensures q == q0 / 10 / 10 / 10 / 10 < 10
  {
    ghost var n1 := q0 / 10;
    ghost var n2 := n1 / 10;
    ghost var n3 := n2 / 10;
    d1, d2, d3 := q0 / 16 % 16, q0 / 256 % 16, q0 / 4096;
    SixteensSplit(q0, d1, d2, d3);
    d0 := 6 * (d3 + d2 + d1) + q0 % 16;
    q, d0 := SplitDigit(d0, 0xcd, 2048, q0, 9 * d3 + 25 * d2 + d1 + 400 * d3);
    d1 := q + 9 * d3 + 5 * d2 + d1;
    q, d1 := SplitDigit(d1, 0xcd, 2048, n1, 2 * d2 + 40 * d3);
    d2 := q + 2 * d2;
    q, d2 := SplitDigit(d2, 0xd, 128, n2, 4 * d3);
    d3 := q + 4 * d3;
    q, d3 := SplitDigit(d3, 0xcd, 2048, n3, 0);
  }

  /** put_dec_full: always five digits. */
  method PutDecFull(buf: array<char>, at: nat, q0: nat) returns (end: nat)
    requires q0 <= 99999 && at + 5 <= buf.Length
    modifies buf
    ensures end == at + 5 && buf[..end] == old(buf[..at]) + Five(q0)
  {
    var d0, d1, d2, d3, d4 := FiveDigits(q0);
    end := PutChar(buf, at, DigitChar(d0, false));
    end := PutChar(buf, end, DigitChar(d1, false));
    end := PutChar(buf, end, DigitChar(d2, false));
    end := PutChar(buf, end, DigitChar(d3, false));
    end := PutChar(buf, end, DigitChar(d4, false));
  }

  /** put_dec_full writes what put_dec_trunc writes, and zeros up to five places. */
  lemma FivePadsDec(q: nat)
    requires q <= 99999
    ensures |Dec(q)| <= 5 && Five(q) == Dec(q) + Fill('0', 5 - |Dec(q)|)
  {
    hide Dec, DigitChar;
    assert DigitChar(0, false) == '0' by { ZeroDigit(); }
    var n1 := q / 10;
    var n2 := n1 / 10;
    var n3 := n2 / 10;
    var n4 := n3 / 10;
    DecStep(q, q % 10, n1);
    if n1 != 0 {
      DecStep(n1, n1 % 10, n2);
      if n2 != 0 {
        DecStep(n2, n2 % 10, n3);
        if n3 != 0 {
          DecStep(n3, n3 % 10, n4);
          if n4 != 0 {
            DecStep(n4, n4, 0);
          }
        }
      }
    }
  }

  lemma ZeroDigit()
    ensures DigitChar(0, false) == '0'
  {
  }

  /** A number of more than five digits is five digits and then the rest. */
  lemma DecSplit(n: nat)
    requires n >= 100000
    ensures Dec(n) == Five(n % 100000) + Dec(n / 100000)
  {
    hide Dec, DigitChar;
    var n1 := n / 10;
    var n2 := n1 / 10;
    var n3 := n2 / 10;
    var n4 := n3 / 10;
    DecStep(n, n % 10, n1);
    DecStep(n1, n1 % 10, n2);
    DecStep(n2, n2 % 10, n3);
    DecStep(n3, n3 % 10, n4);
    DecStep(n4, n4 % 10, n4 / 10);
    FiveOfRest(n);
    assert Dec(n) == [DigitChar(n % 10, false)] + ([DigitChar(n1 % 10, false)] + ([DigitChar(n2 % 10, false)]
                  + ([DigitChar(n3 % 10, false)] + ([DigitChar(n4 % 10, false)] + Dec(n4 / 10)))));
  }

  lemma FiveOfRest(n: nat)
    ensures Five(n % 100000) == Five(n)
    ensures n / 10 / 10 / 10 / 10 / 10 == n / 100000
  {
    var q, m := n / 100000, n % 100000;
    hide DigitChar;
    DropTens(m, 10000 * q);
    DropTens(m / 10, 1000 * q);
    DropTens(m / 10 / 10, 100 * q);
    DropTens(m / 10 / 10 / 10, 10 * q);
    DropTens(m / 10 / 10 / 10 / 10, q);
    assert n == m + 10 * (10000 * q);
    assert m / 10 / 10 / 10 / 10 / 10 == 0;
  }

  lemma DropTens(m: nat, c: nat)
    ensures (m + 10 * c) / 10 == m / 10 + c && (m + 10 * c) % 10 == m % 10
  {
  }

  /** put_dec: five digits at a time, then what is left. */
  method PutDec(buf: array<char>, at: nat, num: nat) returns (end: nat)
    requires at + |Dec(num)| <= buf.Length
    modifies buf
    ensures end == at + |Dec(num)| && buf[..end] == old(buf[..at]) + Dec(num)
  {
    var n := num;
    end := at;
    while n >= 100000
      invariant at <= end && end + |Dec(n)| == at + |Dec(num)|
      invariant buf[..end] + Dec(n) == old(buf[..at]) + Dec(num)
      decreases n
    {
      ghost var before := buf[..end];
      DecSplit(n);
      var rem := n % 100000;
      end := PutDecFull(buf, end, rem);
      assert before + Five(rem) + Dec(n / 100000) == before + (Five(rem) + Dec(n / 100000));
      n := n / 100000;
    }
    end := PutDecTrunc(buf, end, n);
  }

  /** A number below base^k has at most k digits. */
  lemma {:induction false} DecLength(n: nat, k: nat)
    requires k >= 1 && n < Power(10, k)
    ensures |Dec(n)| <= k
  {
    DecStep(n, n % 10, n / 10);
    if n >= 10 {
      assert k > 1;
      DecLength(n / 10, k - 1);
    }
  }

  /** A 64-bit number has at most 20 decimal digits. */
  lemma Dec64(n: u64)
    ensures |Dec(n)| <= 20
  {
    assert Power(10, 10) == 10_000_000_000;
    assert Power(10, 20) == 100_000_000_000_000_000_000;
    DecLength(n, 20);
  }

  lemma {:induction false} NumeralLength(n: nat, base: nat, small: bool, k: nat)
    requires IsBase(base) && k >= 1 && n < Power(8, k)
    ensures |Numeral(n, base, small)| <= k
  {
    if n >= base {
      assert k > 1;
      NumeralLength(Rest(n, base), base, small, k - 1);
    }
  }

  /** A 64-bit number has at most 22 digits in any of the bases. */
  lemma Numeral64(n: u64, base: nat, small: bool)
    requires IsBase(base)
    ensures |Numeral(n, base, small)| <= 22
  {
    assert Power(8, 11) == 0x2_0000_0000;
    assert Power(8, 22) == 0x4_0000_0000_0000_0000;
    NumeralLength(n, base, small, 22);
  }
}
