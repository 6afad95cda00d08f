/** Bytes, and the C bit operators on unbounded naturals that the models need. */
module Bits {

  type byte = x: int | 0 <= x < 256

  function Pow2(k: nat): (p: nat)
    ensures p >= 1
  {
    if k == 0 then 1 else 2 * Pow2(k - 1)
  }

  function Power(base: nat, n: nat): nat {
    if n == 0 then 1 else base * Power(base, n - 1)
  }

  /** C's `a | b`. */
  function Or(a: nat, b: nat): nat
    decreases a + b
  {
    if a == 0 && b == 0 then 0
    else 2 * Or(a / 2, b / 2) + (if a % 2 == 1 || b % 2 == 1 then 1 else 0)
  }

  /** C's `a ^ b`. */
  function Xor(a: nat, b: nat): nat
    decreases a + b
  {
    if a == 0 && b == 0 then 0
    else 2 * Xor(a / 2, b / 2) + (if a % 2 != b % 2 then 1 else 0)
  }

  /** Or-ing bits below position k into a multiple of 2^k is addition. */
  lemma {:induction false} OrIsSum(c: nat, k: nat, b: nat)
    requires b < Pow2(k)
    ensures Or(c * Pow2(k), b) == c * Pow2(k) + b
    decreases k, c
  {
    var a := c * Pow2(k);
    if k == 0 {
      assert a == c;
      if c != 0 {
        OrIsSum(c / 2, 0, 0);
        assert Or((c / 2) * Pow2(0), 0) == c / 2;
      }
    } else {
      assert a == 2 * (c * Pow2(k - 1));
      OrIsSum(c, k - 1, b / 2);
      assert a / 2 == c * Pow2(k - 1);
    }
  }

  /** Exclusive-or does not leave the range of its operands. */
  lemma {:induction false} XorBound(a: nat, b: nat, k: nat)
    requires a < Pow2(k) && b < Pow2(k)
    ensures Xor(a, b) < Pow2(k)
  {
    if k > 0 {
      XorBound(a / 2, b / 2, k - 1);
    }
  }

  /** Quotient and remainder are the only ones. */
  lemma ModIs(x: nat, q: int, off: nat, r: nat)
    requires r < off && x == off * q + r
    ensures x % off == r
  {
    var d := x / off - q;
    assert off * d == off * (x / off) - off * q;
    assert off * d == r - x % off;
    if d >= 1 || d <= -1 {
      assert false;
    }
  }

  lemma ModStep(j: nat, off: nat)
    requires 1 <= off <= j
    ensures (j - off) % off == j % off
  {
    var q, r := j / off, j % off;
    assert j == off * q + r;
    assert off * (q - 1) == off * q - off;
    ModIs(j - off, q - 1, off, r);
  }

  lemma DivIs(x: nat, q: nat, off: nat, r: nat)
    requires r < off && x == off * q + r
    ensures x / off == q
  {
    ModIs(x, q, off, r);
    var d := x / off - q;
    assert off * d == off * (x / off) - off * q;
    if d >= 1 || d <= -1 {
      assert false;
    }
  }

  lemma {:induction false} PowerPositive(base: nat, n: nat)
    requires base >= 1
    ensures Power(base, n) >= 1
  {
    if n > 0 {
      PowerPositive(base, n - 1);
    }
  }

  /** Dividing by 256 and then by p. */
  lemma DivTwice(v: nat, p: nat)
    requires p >= 1
    ensures v / 256 / p == v / (256 * p)
    ensures v % (256 * p) % 256 == v % 256 && v % (256 * p) / 256 == v / 256 % p
  {
    var a, b := v / 256, v % 256;
    var q, r := a / p, a % p;
    assert a == p * q + r;
    assert v == 256 * (p * q + r) + b == (256 * p) * q + (256 * r + b);
    DivIs(v, q, 256 * p, 256 * r + b);
    ModIs(v, q, 256 * p, 256 * r + b);
  }
}
