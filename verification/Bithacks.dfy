/** Population counts by casting out 63s and 255s, and the lowest zero bit. */
module Bithacks {
  import opened Bits
  import opened CType

  /** C's `a & b`. */
  function And(a: nat, b: nat): nat
    decreases a + b
  {
    if a == 0 || b == 0 then 0
    else 2 * And(a / 2, b / 2) + (if a % 2 == 1 && b % 2 == 1 then 1 else 0)
  }

  /** count_1s, in 32-bit arithmetic. */
  function CountOnes32(c1: nat): nat {
    var c2 := And(c1 / 2, 0xdb6db6db);
    var c3 := (c1 - c2 - And(c2 / 2, 0xdb6db6db)) % TWO32;
    And((c3 + c3 / 8) % TWO32, 0xc71c71c7) % 63
  }

  /** count_1s_64, in 64-bit arithmetic. */
  function CountOnes64(c1: nat): nat {
    var c2 := And(c1 / 2, 0x7777_7777_7777_7777);
    var c3 := And(c1 / 4, 0x3333_3333_3333_3333);
    var c4 := And(c1 / 8, 0x1111_1111_1111_1111);
    var c := (c1 - c2 - c3 - c4) % TWO64;
    And((c + c / 16) % TWO64, 0x0f0f_0f0f_0f0f_0f0f) % 255
  }

  /** last_0_pos. */
  function LastZeroPos(x: nat): int {
    CountOnes32(Xor((x + 1) % TWO32, x)) - 1
  }

  /** set_last_0. */
  function SetLastZero(x: nat): nat {
    Or(x, (x + 1) % TWO32)
  }

  /** C's `x >> s` of a value that is not negative. */
  function Shr(x: nat, s: nat): nat {
    if s == 0 then x else Shr(x / 2, s - 1)
  }

  /** `x |= x >> s`. */
  function OrShr(x: nat, s: nat): nat {
    Or(x, Shr(x, s))
  }

  /** The five or-assignments that pow2roundup and pow2rounddown share. */
  function Smear(x: nat): nat {
    OrShr(OrShr(OrShr(OrShr(OrShr(x, 1), 2), 4), 8), 16)
  }

  /** pow2roundup, before the result is cut to an int. */
  function RoundUp(x: int): int {
    if x <= 0 then 0 else Smear(x - 1) + 1
  }

  /** pow2rounddown. */
  function RoundDown(x: int): int {
    if x <= 0 then 0 else Shr(Smear(x), 1) + 1
  }

  // ------------------------------------------------------------ specifications

  /** The number of one bits. */
  function Ones(x: nat): nat {
    if x == 0 then 0 else x % 2 + Ones(x / 2)
  }

  /** The index of the lowest zero bit. */
  function LowestZero(x: nat): nat {
    if x % 2 == 0 then 0 else 1 + LowestZero(x / 2)
  }

  // -------------------------------------------------------- casting out digits

  function DigitSum(z: nat, base: nat): nat
    requires base >= 2
  {
    if z == 0 then 0 else z % base + DigitSum(z / base, base)
  }

  /** A number differs from its digit sum by a multiple of base - 1. */
  lemma {:induction false} CastingOut(z: nat, base: nat) returns (k: nat)
    requires base >= 2
    ensures z == DigitSum(z, base) + k * (base - 1)
  {
    if z == 0 {
      k := 0;
    } else {
      var j := CastingOut(z / base, base);
      k := z / base + j;
      Carry(z / base, z % base, base, DigitSum(z / base, base), j);
    }
  }

  lemma Carry(q: nat, d: nat, base: nat, sum: nat, j: nat)
    requires q == sum + j * (base - 1)
    ensures q * base + d == d + sum + (q + j) * (base - 1)
  {
    assert q * base == q * (base - 1) + q;
    assert (q + j) * (base - 1) == q * (base - 1) + j * (base - 1);
  }

  /** Hence the remainder is the digit sum, if that is small enough. */
  lemma {:induction false} Remainder63(z: nat)
    requires DigitSum(z, 64) < 63
    ensures z % 63 == DigitSum(z, 64)
  {
    hide DigitSum;
    var k := CastingOut(z, 64);
    assert z == DigitSum(z, 64) + 63 * k;
  }

  lemma {:induction false} Remainder255(z: nat)
    requires DigitSum(z, 256) < 255
    ensures z % 255 == DigitSum(z, 256)
  {
    hide DigitSum;
    var k := CastingOut(z, 256);
    assert z == DigitSum(z, 256) + 255 * k;
  }

  // ------------------------------------------------------- masks digit by digit

  lemma {:induction false} AndDouble(a: nat, d: nat, b: nat, e: nat)
    requires d < 2 && e < 2
    ensures And(2 * a + d, 2 * b + e) == 2 * And(a, b) + if d == 1 && e == 1 then 1 else 0
  {
    assert (2 * a + d) / 2 == a && (2 * b + e) / 2 == b;
  }

  // A mask digit is a run of ones (its bits are kept) below a run of zeros (its
  // bits are dropped).

  lemma Keep4(a: nat, d: nat, m: nat)
    requires d < 4
    ensures And(4 * a + d, 4 * m + 3) == 4 * And(a, m) + d
  {
    hide And;
    AndDouble(a, d / 2, m, 1);
    AndDouble(2 * a + d / 2, d % 2, 2 * m + 1, 1);
  }

  lemma Keep8(a: nat, d: nat, m: nat)
    requires d < 8
    ensures And(8 * a + d, 8 * m + 7) == 8 * And(a, m) + d
  {
    hide And;
    AndDouble(a, d / 4, m, 1);
    Keep4(2 * a + d / 4, d % 4, 2 * m + 1);
  }

  lemma Keep16(a: nat, d: nat, m: nat)
    requires d < 16
    ensures And(16 * a + d, 16 * m + 15) == 16 * And(a, m) + d
  {
    hide And;
    AndDouble(a, d / 8, m, 1);
    Keep8(2 * a + d / 8, d % 8, 2 * m + 1);
  }

  lemma Drop4(a: nat, d: nat, m: nat)
    requires d < 4
    ensures And(4 * a + d, 4 * m) == 4 * And(a, m)
  {
    hide And;
    AndDouble(a, d / 2, m, 0);
    AndDouble(2 * a + d / 2, d % 2, 2 * m, 0);
  }

  lemma Drop8(a: nat, d: nat, m: nat)
    requires d < 8
    ensures And(8 * a + d, 8 * m) == 8 * And(a, m)
  {
    hide And;
    AndDouble(a, d / 4, m, 0);
    Drop4(2 * a + d / 4, d % 4, 2 * m);
  }

  lemma Drop16(a: nat, d: nat, m: nat)
    requires d < 16
    ensures And(16 * a + d, 16 * m) == 16 * And(a, m)
  {
    hide And;
    AndDouble(a, d / 8, m, 0);
    Drop8(2 * a + d / 8, d % 8, 2 * m);
  }

  // -------------------------------------------- 32 bits: octal digits, in pairs

  /** The first c2: every octal digit halved. */
  function Halved(x: nat): nat {
    if x == 0 then 0 else x % 8 / 2 + 8 * Halved(x / 8)
  }

  function Pop3(d: nat): (p: nat)
    requires d < 8
    ensures p <= 3
  {
    d - d / 2 - d / 4
  }

  /** The second c2: the number of ones of every octal digit. */
  function Octal(x: nat): nat {
    if x == 0 then 0 else Pop3(x % 8) + 8 * Octal(x / 8)
  }

  /** The masked sum: the number of ones of every six bits. */
  function Sixes(x: nat): nat {
    if x == 0 then 0 else Pop3(x % 8) + Pop3(x / 8 % 8) + 64 * Sixes(x / 64)
  }

  /** 033333333333 is Threes(11). */
  function Threes(n: nat): nat {
    if n == 0 then 0 else 3 + 8 * Threes(n - 1)
  }

  /** 030707070707 is Sevens(5). */
  function Sevens(n: nat): nat {
    if n == 0 then 3 else 7 + 64 * Sevens(n - 1)
  }

  lemma {:induction false} AndThrees(x: nat, n: nat)
    requires x < Power(8, n)
    ensures And(x / 2, Threes(n)) == Halved(x)
    decreases n
  {
    if n > 0 {
      var q, d := x / 8, x % 8;
      AndThrees(q, n - 1);
      hide And;
      AndOctalDigit(q, d, Threes(n - 1));
    } else {
      assert And(0, 0) == 0;
    }
  }

  lemma AndOctalDigit(q: nat, d: nat, m: nat)
    requires d < 8
    ensures And((8 * q + d) / 2, 8 * m + 3) == 8 * And(q / 2, m) + d / 2
  {
    hide And;
    assert (8 * q + d) / 2 == 8 * (q / 2) + 4 * (q % 2) + d / 2;
    Keep4(2 * (q / 2) + q % 2, d / 2, 2 * m);
    AndDouble(q / 2, q % 2, m, 0);
  }

  lemma HalvedStep(q: nat, d: nat)
    requires d < 8
    ensures Halved(8 * q + d) == d / 2 + 8 * Halved(q)
  {
    assert (8 * q + d) / 8 == q && (8 * q + d) % 8 == d;
  }

  lemma ThreeParts(d: nat)
    requires d < 8
    ensures d == d / 2 + d / 2 / 2 + Pop3(d)
  {
  }

  lemma {:induction false} OctalCount(x: nat)
    ensures x == Halved(x) + Halved(Halved(x)) + Octal(x)
  {
    if x != 0 {
      var q, d := x / 8, x % 8;
      OctalCount(q);
      hide Halved, Octal, Pop3;
      HalvedStep(q, d);
      HalvedStep(Halved(q), d / 2);
      OctalStep(q, d);
      ThreeParts(d);
    }
  }

  lemma {:induction false} OctalBound(x: nat, n: nat)
    requires x < 4 * Power(8, n)
    ensures 2 * Octal(x) < 5 * Power(8, n)
    decreases n
  {
    if n > 0 {
      OctalBound(x / 8, n - 1);
    }
  }

  lemma OctalStep(q: nat, d: nat)
    requires d < 8
    ensures Octal(8 * q + d) == Pop3(d) + 8 * Octal(q)
  {
    assert (8 * q + d) / 8 == q && (8 * q + d) % 8 == d;
  }

  lemma OctalLow(x: nat)
    ensures Octal(x) % 8 <= 3
  {
    hide Octal, Pop3;
    OctalStep(x / 8, x % 8);
  }

  lemma SixesStep(q: nat, e: nat, d: nat)
    requires d < 8 && e < 8
    ensures Sixes(64 * q + 8 * e + d) == Pop3(d) + Pop3(e) + 64 * Sixes(q)
  {
    var x := 64 * q + 8 * e + d;
    assert x == 8 * (8 * q + e) + d;
    assert x / 8 == 8 * q + e && x % 8 == d;
    assert (8 * q + e) % 8 == e;
    assert x / 64 == q;
  }

  lemma {:induction false} AndSevens(x: nat, n: nat)
    requires x < 4 * Power(64, n)
    ensures And(Octal(x) + Octal(x) / 8, Sevens(n)) == Sixes(x)
    decreases n
  {
    hide And, Octal, Sixes, Pop3;
    if n > 0 {
      AndSevens(x / 64, n - 1);
      Pairs(x);
      SevensStep(x / 64, x / 8 % 8, x % 8, Sevens(n - 1));
    } else {
      SevensBase(x);
    }
  }

  lemma SevensBase(x: nat)
    requires x < 4
    ensures And(Octal(x) + Octal(x) / 8, 3) == Sixes(x)
  {
    hide *;
    OneDigit(x);
    var p := Octal(x);
    assert p / 8 == 0;
    Keep4(0, p, 0);
    AndDouble(0, 0, 0, 0);
  }

  lemma OneDigit(x: nat)
    requires x < 4
    ensures Octal(x) == Sixes(x) < 4
  {
    assert x / 8 == 0 && x / 64 == 0 && x % 8 == x;
  }

  lemma Pairs(x: nat)
    ensures x == 64 * (x / 64) + 8 * (x / 8 % 8) + x % 8
  {
    var y := x / 8;
    assert x == 8 * y + x % 8 && y == 8 * (y / 8) + y % 8;
    assert y / 8 == x / 64;
  }

  lemma SevensStep(q: nat, e: nat, d: nat, m: nat)
    requires d < 8 && e < 8
    requires And(Octal(q) + Octal(q) / 8, m) == Sixes(q)
    ensures
      var x := 64 * q + 8 * e + d;
      And(Octal(x) + Octal(x) / 8, 7 + 64 * m) == Sixes(x)
  {
    hide And, Octal, Sixes, Pop3;
    OctalLow(q);
    OctalStep(q, e);
    OctalStep(8 * q + e, d);
    assert 8 * (8 * q + e) + d == 64 * q + 8 * e + d;
    SixesStep(q, e, d);
    AndSixBits(Octal(q), Pop3(e), Pop3(d), m);
  }

  /** The low octal digit of the sum is kept, the other dropped; no carry leaves the pair. */
  lemma AndSixBits(r: nat, e: nat, d: nat, m: nat)
    requires r % 8 <= 3 && e <= 3 && d <= 3
    ensures
      var y := d + 8 * e + 64 * r;
      And(y + y / 8, 7 + 64 * m) == d + e + 64 * And(r + r / 8, m)
  {
    hide And;
    var y := d + 8 * e + 64 * r;
    assert y / 8 == e + 8 * r;
    assert y + y / 8 == 8 * (8 * (r + r / 8) + e + r % 8) + (d + e);
    Keep8(8 * (r + r / 8) + e + r % 8, d + e, 8 * m);
    Drop8(r + r / 8, e + r % 8, m);
  }

  lemma OnesOctal(x: nat)
    ensures Ones(x) == Pop3(x % 8) + Ones(x / 8)
  {
    hide Ones;
    OnesOctalDigit(x / 8, x % 8);
  }

  lemma OnesOctalDigit(q: nat, d: nat)
    requires d < 8
    ensures Ones(8 * q + d) == Pop3(d) + Ones(q)
  {
    hide Ones, Or, Xor, LowestZero;
    BitAtATime(q, d / 4, 0, 0);
    BitAtATime(2 * q + d / 4, d / 2 % 2, 0, 0);
    BitAtATime(4 * q + d / 2, d % 2, 0, 0);
    assert 2 * (2 * q + d / 4) + d / 2 % 2 == 4 * q + d / 2;
  }

  lemma {:induction false} SixesSum(x: nat)
    ensures DigitSum(Sixes(x), 64) == Ones(x)
  {
    if x != 0 {
      SixesSum(x / 64);
      OnesOctal(x);
      OnesOctal(x / 8);
      assert x / 8 / 8 == x / 64;
      var z, low := Sixes(x), Pop3(x % 8) + Pop3(x / 8 % 8);
      assert z / 64 == Sixes(x / 64) && z % 64 == low;
      hide Ones, Sixes;
      assert DigitSum(z, 64) == low + DigitSum(z / 64, 64);
    }
  }

  lemma {:induction false} OnesBound(x: nat, n: nat)
    requires x < Pow2(n)
    ensures Ones(x) <= n
  {
    if n > 0 {
      OnesBound(x / 2, n - 1);
    }
  }

  lemma Constants32()
    ensures Threes(11) == 0xdb6db6db && Sevens(5) == 0xc71c71c7
    ensures Power(8, 11) == 2 * TWO32 && 4 * Power(8, 10) == TWO32 && 4 * Power(64, 5) == TWO32
    ensures Pow2(32) == TWO32
  {
    assert Power(64, 3) == 0x4_0000;
    assert Power(8, 4) == 0x1000;
    assert Power(8, 7) == 0x20_0000;
    assert Power(8, 10) == 0x4000_0000;
    assert Pow2(8) == 256;
    assert Pow2(16) == 65536;
    assert Pow2(24) == 0x100_0000;
  }

  /** The two masked shifts take every octal digit to its number of ones. */
  lemma Difference32(x: nat)
    requires x < TWO32
    ensures And(x / 2, 0xdb6db6db) == Halved(x) && And(Halved(x) / 2, 0xdb6db6db) == Halved(Halved(x))
    ensures (x - Halved(x) - Halved(Halved(x))) % TWO32 == Octal(x)
  {
    hide Power, Threes, Sevens, Halved, Octal, And, Pow2;
    Constants32();
    OctalCount(x);
    AndThrees(x, 11);
    AndThrees(Halved(x), 11);
  }

  /** The masked sum, which does not overflow, takes every six bits to theirs. */
  lemma Sum32(x: nat)
    requires x < TWO32
    ensures And((Octal(x) + Octal(x) / 8) % TWO32, 0xc71c71c7) == Sixes(x)
  {
    hide Power, Threes, Sevens, Octal, Sixes, And, Pow2;
    Constants32();
    OctalBound(x, 10);
    AndSevens(x, 5);
  }

  /** count_1s counts the ones of every 32-bit word. */
  lemma Counts32(x: nat)
    requires x < TWO32
    ensures CountOnes32(x) == Ones(x)
  {
    hide Ones, Halved, Octal, Sixes, And, Pow2, DigitSum;
    Difference32(x);
    Sum32(x);
    SixesSum(x);
    assert x < Pow2(32) by { Constants32(); }
    OnesBound(x, 32);
    Remainder63(Sixes(x));
  }

  // ---------------------------------------- 64 bits: hexadecimal digits, in pairs

  /** c2, c3 and c4: every hexadecimal digit divided by 2, 4 and 8. */
  function Shifted(x: nat, k: nat): nat
    requires k == 2 || k == 4 || k == 8
  {
    if x == 0 then 0 else x % 16 / k + 16 * Shifted(x / 16, k)
  }

  function Pop4(d: nat): (p: nat)
    requires d < 16
    ensures p <= 4
  {
    d - d / 2 - d / 4 - d / 8
  }

  /** The difference: the number of ones of every hexadecimal digit. */
  function Hex(x: nat): nat {
    if x == 0 then 0 else Pop4(x % 16) + 16 * Hex(x / 16)
  }

  /** The masked sum: the number of ones of every byte. */
  function Octets(x: nat): nat {
    if x == 0 then 0 else Pop4(x % 16) + Pop4(x / 16 % 16) + 256 * Octets(x / 256)
  }

  /** The masks of n equal digits: 0x77...7, 0x33...3 and 0x11...1 for k = 2, 4 and 8. */
  function Repeated(n: nat, k: nat): nat
    requires k == 2 || k == 4 || k == 8
  {
    if n == 0 then 0 else 16 / k - 1 + 16 * Repeated(n - 1, k)
  }

  /** 0x0f0f...0f. */
  function Fifteens(n: nat): nat {
    if n == 0 then 0 else 15 + 256 * Fifteens(n - 1)
  }

  lemma {:induction false} AndRepeated(x: nat, n: nat, k: nat)
    requires k == 2 || k == 4 || k == 8
    requires x < Power(16, n)
    ensures And(x / k, Repeated(n, k)) == Shifted(x, k)
    decreases n
  {
    if n > 0 {
      AndRepeated(x / 16, n - 1, k);
      hide And;
      AndHexDigit(x / 16, x % 16, Repeated(n - 1, k), k);
    } else {
      assert And(0, 0) == 0;
    }
  }

  lemma AndHexDigit(q: nat, d: nat, m: nat, k: nat)
    requires k == 2 || k == 4 || k == 8
    requires d < 16
    ensures And((16 * q + d) / k, 16 * m + (16 / k - 1)) == 16 * And(q / k, m) + d / k
  {
    hide *;
    if k == 2 {
      assert (16 * q + d) / 2 == 8 * (2 * (q / 2) + q % 2) + d / 2;
      Keep8(2 * (q / 2) + q % 2, d / 2, 2 * m);
      AndDouble(q / 2, q % 2, m, 0);
    } else if k == 4 {
      assert (16 * q + d) / 4 == 4 * (4 * (q / 4) + q % 4) + d / 4;
      Keep4(4 * (q / 4) + q % 4, d / 4, 4 * m);
      Drop4(q / 4, q % 4, m);
    } else {
      assert (16 * q + d) / 8 == 2 * (8 * (q / 8) + q % 8) + d / 8;
      AndDouble(8 * (q / 8) + q % 8, d / 8, 8 * m, 1);
      Drop8(q / 8, q % 8, m);
    }
  }

  lemma {:induction false} HexCount(x: nat)
    ensures x == Shifted(x, 2) + Shifted(x, 4) + Shifted(x, 8) + Hex(x)
  {
    if x != 0 {
      HexCount(x / 16);
    }
  }

  lemma {:induction false} HexBound(x: nat, n: nat)
    requires x < Power(16, n)
    ensures 3 * Hex(x) < 2 * Power(16, n)
    decreases n
  {
    if n > 0 {
      HexBound(x / 16, n - 1);
    }
  }

  lemma HexStep(q: nat, d: nat)
    requires d < 16
    ensures Hex(16 * q + d) == Pop4(d) + 16 * Hex(q)
  {
    assert (16 * q + d) / 16 == q && (16 * q + d) % 16 == d;
  }

  lemma HexLow(x: nat)
    ensures Hex(x) % 16 <= 4
  {
    hide Hex, Pop4;
    HexStep(x / 16, x % 16);
  }

  lemma OctetsStep(q: nat, e: nat, d: nat)
    requires d < 16 && e < 16
    ensures Octets(256 * q + 16 * e + d) == Pop4(d) + Pop4(e) + 256 * Octets(q)
  {
    var x := 256 * q + 16 * e + d;
    assert x == 16 * (16 * q + e) + d;
    assert x / 16 == 16 * q + e && x % 16 == d;
    assert (16 * q + e) % 16 == e;
    assert x / 256 == q;
  }

  lemma {:induction false} AndFifteens(x: nat, n: nat)
    requires x < Power(256, n)
    ensures And(Hex(x) + Hex(x) / 16, Fifteens(n)) == Octets(x)
    decreases n
  {
    hide And, Pop4;
    if n > 0 {
      AndFifteens(x / 256, n - 1);
      hide Hex, Octets;
      HexPairs(x);
      FifteensStep(x / 256, x / 16 % 16, x % 16, Fifteens(n - 1));
    } else {
      assert And(0, 0) == 0 by { AndDouble(0, 0, 0, 0); }
    }
  }

  lemma HexPairs(x: nat)
    ensures x == 256 * (x / 256) + 16 * (x / 16 % 16) + x % 16
  {
    var y := x / 16;
    assert x == 16 * y + x % 16 && y == 16 * (y / 16) + y % 16;
    assert y / 16 == x / 256;
  }

  lemma FifteensStep(q: nat, e: nat, d: nat, m: nat)
    requires d < 16 && e < 16
    requires And(Hex(q) + Hex(q) / 16, m) == Octets(q)
    ensures
      var x := 256 * q + 16 * e + d;
      And(Hex(x) + Hex(x) / 16, 15 + 256 * m) == Octets(x)
  {
    hide And, Hex, Octets, Pop4;
    HexLow(q);
    HexStep(q, e);
    HexStep(16 * q + e, d);
    assert 16 * (16 * q + e) + d == 256 * q + 16 * e + d;
    OctetsStep(q, e, d);
    AndEightBits(Hex(q), Pop4(e), Pop4(d), m);
  }

  lemma AndEightBits(r: nat, e: nat, d: nat, m: nat)
    requires r % 16 <= 4 && e <= 4 && d <= 4
    ensures
      var y := d + 16 * e + 256 * r;
      And(y + y / 16, 15 + 256 * m) == d + e + 256 * And(r + r / 16, m)
  {
    hide And;
    var y := d + 16 * e + 256 * r;
    assert y / 16 == e + 16 * r;
    assert y + y / 16 == 16 * (16 * (r + r / 16) + e + r % 16) + (d + e);
    Keep16(16 * (r + r / 16) + e + r % 16, d + e, 16 * m);
    Drop16(r + r / 16, e + r % 16, m);
  }

  lemma OnesHex(x: nat)
    ensures Ones(x) == Pop4(x % 16) + Ones(x / 16)
  {
    hide Ones;
    OnesHexDigit(x / 16, x % 16);
  }

  lemma OnesHexDigit(q: nat, d: nat)
    requires d < 16
    ensures Ones(16 * q + d) == Pop4(d) + Ones(q)
  {
    hide Ones, Or, Xor, LowestZero;
    BitAtATime(q, d / 8, 0, 0);
    OnesOctalDigit(2 * q + d / 8, d % 8);
    assert 8 * (2 * q + d / 8) + d % 8 == 16 * q + d;
  }

  lemma {:induction false} OctetsSum(x: nat)
    ensures DigitSum(Octets(x), 256) == Ones(x)
  {
    if x != 0 {
      OctetsSum(x / 256);
      OnesHex(x);
      OnesHex(x / 16);
      assert x / 16 / 16 == x / 256;
      var z, low := Octets(x), Pop4(x % 16) + Pop4(x / 16 % 16);
      assert z / 256 == Octets(x / 256) && z % 256 == low;
      hide Ones, Octets;
      assert DigitSum(z, 256) == low + DigitSum(z / 256, 256);
    }
  }

  lemma {:induction false} RepeatedOnes(n: nat, k: nat)
    requires k == 2 || k == 4 || k == 8
    ensures Repeated(n, k) == (16 / k - 1) * Repeated(n, 8)
  {
    if n > 0 {
      RepeatedOnes(n - 1, k);
    }
  }

  lemma RepeatedMasks()
    ensures Repeated(16, 2) == 0x7777_7777_7777_7777
    ensures Repeated(16, 4) == 0x3333_3333_3333_3333
    ensures Repeated(16, 8) == 0x1111_1111_1111_1111
  {
    assert Repeated(4, 8) == 0x1111;
    assert Repeated(8, 8) == 0x1111_1111;
    assert Repeated(12, 8) == 0x1111_1111_1111;
    assert Repeated(16, 8) == 0x1111_1111_1111_1111;
    hide Repeated;
    RepeatedOnes(16, 2);
    RepeatedOnes(16, 4);
  }

  lemma Constants64()
    ensures Fifteens(8) == 0x0f0f_0f0f_0f0f_0f0f
    ensures Power(16, 16) == TWO64 && Power(256, 8) == TWO64
    ensures Pow2(64) == TWO64
  {
    assert Fifteens(4) == 0x0f0f_0f0f;
    assert Power(256, 4) == TWO32;
    assert Power(16, 4) == 0x1_0000;
    assert Power(16, 8) == TWO32;
    assert Power(16, 12) == 0x1_0000_0000_0000;
    assert Pow2(32) == TWO32 by { Constants32(); }
    assert Pow2(40) == 0x100_0000_0000;
    assert Pow2(48) == 0x1_0000_0000_0000;
    assert Pow2(56) == 0x100_0000_0000_0000;
  }

  lemma Difference64(x: nat)
    requires x < TWO64
    ensures And(x / 2, 0x7777_7777_7777_7777) == Shifted(x, 2)
    ensures And(x / 4, 0x3333_3333_3333_3333) == Shifted(x, 4)
    ensures And(x / 8, 0x1111_1111_1111_1111) == Shifted(x, 8)
    ensures (x - Shifted(x, 2) - Shifted(x, 4) - Shifted(x, 8)) % TWO64 == Hex(x)
  {
    hide Power, Repeated, Fifteens, Shifted, Hex, And, Pow2;
    Constants64();
    RepeatedMasks();
    AndRepeated(x, 16, 2);
    AndRepeated(x, 16, 4);
    AndRepeated(x, 16, 8);
    HexCount(x);
  }

  lemma Sum64(x: nat)
    requires x < TWO64
    ensures And((Hex(x) + Hex(x) / 16) % TWO64, 0x0f0f_0f0f_0f0f_0f0f) == Octets(x)
  {
    hide Power, Fifteens, Hex, Octets, And, Pow2;
    Constants64();
    HexBound(x, 16);
    AndFifteens(x, 8);
  }

  /** count_1s_64 counts the ones of every 64-bit word. */
  lemma Counts64(x: nat)
    requires x < TWO64
    ensures CountOnes64(x) == Ones(x)
  {
    hide Ones, Shifted, Hex, Octets, And, Pow2, DigitSum;
    Difference64(x);
    Sum64(x);
    OctetsSum(x);
    assert x < Pow2(64) by { Constants64(); }
    OnesBound(x, 64);
    Remainder255(Octets(x));
  }

  // ------------------------------------------------------------- the lowest zero

  /** The meaning of LowestZero: a zero above that many ones. */
  lemma {:induction false} LowestZeroIs(x: nat) returns (q: nat)
    ensures x == q * Pow2(LowestZero(x) + 1) + Pow2(LowestZero(x)) - 1
  {
    if x % 2 == 0 {
      q := x / 2;
    } else {
      q := LowestZeroIs(x / 2);
      var p := Pow2(LowestZero(x / 2) + 1);
      assert q * (2 * p) == 2 * (q * p);
    }
  }

  lemma {:induction false} XorSelf(x: nat)
    ensures Xor(x, x) == 0 && Or(x, x) == x && Xor(0, x) == x && Or(x, 0) == x
  {
    if x != 0 {
      XorSelf(x / 2);
    }
  }

  lemma {:induction false} BitAtATime(a: nat, d: nat, b: nat, e: nat)
    requires d < 2 && e < 2
    ensures Xor(2 * a + d, 2 * b + e) == 2 * Xor(a, b) + if d == e then 0 else 1
    ensures Or(2 * a + d, 2 * b + e) == 2 * Or(a, b) + if d == 0 == e then 0 else 1
    ensures Ones(2 * a + d) == Ones(a) + d
    ensures LowestZero(2 * a + d) == if d == 0 then 0 else 1 + LowestZero(a)
  {
    assert (2 * a + d) / 2 == a && (2 * b + e) / 2 == b;
    assert (2 * a + d) % 2 == d && (2 * b + e) % 2 == e;
  }

  lemma {:induction false} FlipsLowest(x: nat)
    ensures Ones(Xor(x + 1, x)) == LowestZero(x) + 1
    ensures Or(x, x + 1) == x + Pow2(LowestZero(x))
  {
    hide Ones, Xor, Or, LowestZero;
    var a := x / 2;
    if x % 2 == 0 {
      XorSelf(a);
      BitAtATime(a, 1, a, 0);
      BitAtATime(a, 0, a, 1);
      BitAtATime(0, 1, 0, 0);
      assert Ones(0) == 0 by { OnesOfOnes(0); }
    } else {
      FlipsLowest(a);
      BitAtATime(a + 1, 0, a, 1);
      BitAtATime(a, 1, a + 1, 0);
      BitAtATime(Xor(a + 1, a), 1, 0, 0);
    }
  }

  lemma {:induction false} OnesOfOnes(k: nat)
    ensures LowestZero(Pow2(k) - 1) == k && Ones(Pow2(k) - 1) == k
  {
    if k > 0 {
      OnesOfOnes(k - 1);
      assert (Pow2(k) - 1) / 2 == Pow2(k - 1) - 1;
    }
  }

  lemma AllOnesWraps(x: nat)
    requires x == TWO32 - 1
    ensures CountOnes32(Xor(0, x)) == 32 && LowestZero(x) == 32
  {
    hide Ones, Xor, LowestZero, CountOnes32, Pow2;
    Constants32();
    XorSelf(x);
    OnesOfOnes(32);
    Counts32(x);
  }

  /** last_0_pos finds the lowest zero of every word but the one that has none. */
  lemma FindsLowestZero(x: nat)
    requires x < TWO32
    ensures LastZeroPos(x) == LowestZero(x) <==> x != TWO32 - 1
    ensures x == TWO32 - 1 ==> LastZeroPos(x) == 31
  {
    hide Ones, Xor, LowestZero, CountOnes32, Pow2;
    if x + 1 < TWO32 {
      FlipsLowest(x);
      assert Pow2(32) == TWO32 by { Constants32(); }
      XorBound(x + 1, x, 32);
      Counts32(Xor(x + 1, x));
    } else {
      AllOnesWraps(x);
    }
  }

  /** set_last_0 sets exactly that bit. */
  lemma SetsLowestZero(x: nat)
    requires x < TWO32
    ensures SetLastZero(x) == if x == TWO32 - 1 then x else x + Pow2(LowestZero(x))
  {
    hide Or, Pow2, LowestZero;
    if x + 1 < TWO32 {
      FlipsLowest(x);
    } else {
      XorSelf(x);
    }
  }

  // --------------------------------------------------------------- powers of two

  predicate Bit(x: nat, i: nat) {
    if i == 0 then x % 2 == 1 else Bit(x / 2, i - 1)
  }

  lemma {:induction false} BitOr(a: nat, b: nat, i: nat)
    ensures Bit(Or(a, b), i) <==> Bit(a, i) || Bit(b, i)
    decreases i
  {
    hide Or, Xor, Ones, LowestZero;
    if i > 0 {
      BitOr(a / 2, b / 2, i - 1);
    }
    BitAtATime(a / 2, a % 2, b / 2, b % 2);
  }

  lemma {:induction false} BitShr(x: nat, s: nat, i: nat)
    ensures Bit(Shr(x, s), i) == Bit(x, i + s)
    decreases s
  {
    if s > 0 {
      BitShr(x / 2, s - 1, i);
    }
  }

  lemma {:induction false} OrShrBound(a: nat, b: nat, s: nat, k: nat)
    requires a < Pow2(k) && b < Pow2(k)
    ensures Or(a, b) < Pow2(k) && Shr(b, s) <= b
    decreases k + s
  {
    if k > 0 {
      OrShrBound(a / 2, b / 2, 0, k - 1);
    }
    if s > 0 {
      assert b / 2 < Pow2(k);
      OrShrBound(0, b / 2, s - 1, k);
    }
  }

  /** x has k bits and its n highest are ones. */
  ghost predicate Filled(x: nat, k: nat, n: nat) {
    && x < Pow2(k)
    && forall i: nat :: k - n <= i < k ==> Bit(x, i)
  }

  lemma Widens(x: nat, k: nat, n: nat)
    requires Filled(x, k, n)
    ensures Filled(OrShr(x, n), k, 2 * n)
  {
    hide Bit, Or, Shr, Pow2;
    OrShrBound(0, x, n, k);
    OrShrBound(x, Shr(x, n), 0, k);
    forall i: nat | k - 2 * n <= i < k
      ensures Bit(OrShr(x, n), i)
    {
      BitOr(x, Shr(x, n), i);
      BitShr(x, n, i);
    }
  }

  lemma {:induction false} FullIsOnes(x: nat, k: nat)
    requires Filled(x, k, k)
    ensures x == Pow2(k) - 1
    decreases k
  {
    if k > 0 {
      forall i: nat | i < k - 1
        ensures Bit(x / 2, i)
      {
        assert Bit(x, i + 1);
      }
      FullIsOnes(x / 2, k - 1);
      assert Bit(x, 0);
    }
  }

  lemma {:induction false} HighestBit(x: nat) returns (k: nat)
    requires x > 0
    ensures Pow2(k) <= x < Pow2(k + 1) && Bit(x, k)
  {
    if x == 1 {
      k := 0;
    } else {
      k := HighestBit(x / 2);
      k := k + 1;
    }
  }

  lemma SmearIs(x: nat, k: nat)
    requires 0 < k <= 32 && Pow2(k - 1) <= x < Pow2(k) && Bit(x, k - 1)
    ensures Smear(x) == Pow2(k) - 1
  {
    hide Bit, Or, Shr, Pow2, OrShr;
    var a := OrShr(x, 1);
    var b := OrShr(a, 2);
    var c := OrShr(b, 4);
    var d := OrShr(c, 8);
    Widens(x, k, 1);
    Widens(a, k, 2);
    Widens(b, k, 4);
    Widens(c, k, 8);
    Widens(d, k, 16);
    FullIsOnes(OrShr(d, 16), k);
  }

  lemma {:induction false} Pow2Monotone(j: nat, k: nat)
    requires j <= k
    ensures Pow2(j) <= Pow2(k)
  {
    if j < k {
      Pow2Monotone(j, k - 1);
    }
  }

  lemma WordBits(x: nat, k: nat)
    requires Pow2(k) <= x < TWO32
    ensures k < 32
  {
    Constants32();
    if k >= 32 {
      Pow2Monotone(32, k);
      assert false;
    }
  }

  lemma NoPowerBetween(k: nat)
    ensures Pow2(k) <= TWO32 / 4 || Pow2(k) >= TWO32 / 2
  {
    assert Pow2(32) == 4 * Pow2(30) && Pow2(31) == 2 * Pow2(30);
    Constants32();
    if k <= 30 {
      Pow2Monotone(k, 30);
    } else {
      Pow2Monotone(31, k);
    }
  }

  /** pow2roundup gives the least power of two that is not below x, which is an int up to 2^30. */
  lemma RoundsUp(x: int) returns (k: nat)
    requires 0 < x < TWO32 / 2
    ensures RoundUp(x) == Pow2(k) && x <= Pow2(k) < 2 * x
    ensures RoundUp(x) < TWO32 / 2 <==> x <= TWO32 / 4
  {
    if x == 1 {
      k := 0;
      assert Smear(0) == 0;
    } else {
      k := HighestBit(x - 1);
      WordBits(x - 1, k);
      k := k + 1;
      SmearIs(x - 1, k);
    }
    NoPowerBetween(k);
  }

  /** pow2rounddown gives the greatest power of two that is not above x. */
  lemma RoundsDown(x: int) returns (k: nat)
    requires 0 < x < TWO32 / 2
    ensures RoundDown(x) == Pow2(k) && Pow2(k) <= x < 2 * Pow2(k)
  {
    k := HighestBit(x);
    WordBits(x, k);
    SmearIs(x, k + 1);
    hide Smear, Bit, Pow2, Shr;
    HalfOnes(k);
  }

  lemma HalfOnes(k: nat)
    ensures Shr(Pow2(k + 1) - 1, 1) == Pow2(k) - 1 && Pow2(k + 1) == 2 * Pow2(k)
  {
    assert (2 * Pow2(k) - 1) / 2 == Pow2(k) - 1;
  }
}
