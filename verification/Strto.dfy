/** simple_strtoull and its relatives. */
module Strto {
  import opened CType
  import opened Digits

  function GuessBase(s: string, pos: nat): nat {
    if CharAt(s, pos) == '0' then
      if EitherCase(CharAt(s, pos + 1), 'x') && IsXDigit(CharAt(s, pos + 2)) then 16 else 8
    else 10
  }

  function BaseFor(s: string, pos: nat, base: nat): nat {
    if base == 0 then GuessBase(s, pos) else base
  }

  /** Past the 0x that base 16 allows. */
  function StartFor(s: string, pos: nat, base: nat): (p: nat)
    ensures pos <= p
  {
    if BaseFor(s, pos, base) == 16 && CharAt(s, pos) == '0' && EitherCase(CharAt(s, pos + 1), 'x') then pos + 2 else pos
  }

  function RunEnd(s: string, pos: nat, base: nat): (e: nat)
    ensures pos <= e && (e == pos || e <= |s|)
    ensures forall i | pos <= i < e :: IsXDigit(s[i]) && DigitValue(s[i]) < base
    ensures !(IsXDigit(CharAt(s, e)) && DigitValue(CharAt(s, e)) < base)
    decreases if pos <= |s| then |s| - pos else 0
  {
    if IsXDigit(CharAt(s, pos)) && DigitValue(CharAt(s, pos)) < base then RunEnd(s, pos + 1, base) else pos
  }

  /** The digits from p to e, none if p is past the end. */
  function Run(s: string, p: nat, e: nat): string
    requires p == e || p <= e <= |s|
  {
    if p == e then "" else s[p..e]
  }

  datatype Parsed = Parsed(value: u64, end: nat)

  /** simple_strtoull: the value, modulo 2^64, of the digits, and where they end. */
  function ParseUnsigned(s: string, pos: nat, base: nat): Parsed {
    var b, p := BaseFor(s, pos, base), StartFor(s, pos, base);
    var e := RunEnd(s, p, b);
    Parsed(Value(Run(s, p, e), b) % TWO64, e)
  }

  /** simple_strtol and simple_strtoll, long being 64 bits. */
  function ParseSigned(s: string, pos: nat, base: nat): Parsed {
    if CharAt(s, pos) == '-' then
      var r := ParseUnsigned(s, pos + 1, base);
      var v: int := r.value;
      Parsed(ToU64(-v), r.end)
    else ParseUnsigned(s, pos, base)
  }

  /** Reducing early does not change a Horner step modulo 2^64. */
  lemma HornerMod(x: nat, b: nat, d: nat)
    ensures (x % TWO64 * b + d) % TWO64 == (x * b + d) % TWO64
  {
    var q, r := x / TWO64, x % TWO64;
    var t := q * b;
    assert x * b == t * TWO64 + r * b by {
      assert x == q * TWO64 + r;
      assert (q * TWO64 + r) * b == q * TWO64 * b + r * b;
      assert q * TWO64 * b == q * b * TWO64;
    }
    var y := r * b + d;
    assert (t * TWO64 + y) % TWO64 == y % TWO64;
  }

  lemma RunText(s: string, start: nat, cp: nat)
    requires start <= cp < |s|
    ensures Run(s, start, cp + 1) == Run(s, start, cp) + [s[cp]]
  {
  }

  lemma RunSnoc(s: string, start: nat, cp: nat, base: nat)
    requires start <= cp < |s| && forall i | start <= i <= cp :: IsXDigit(s[i])
    ensures Value(Run(s, start, cp + 1), base) == Value(Run(s, start, cp), base) * base + DigitValue(s[cp])
  {
    assert Run(s, start, cp + 1)[..cp - start] == Run(s, start, cp);
  }

  /** One more digit read. */
  lemma OneMore(s: string, start: nat, cp: nat, base: nat, result: u64)
    requires start <= cp < |s| && forall i | start <= i <= cp :: IsXDigit(s[i])
    requires result == Value(Run(s, start, cp), base) % TWO64
    ensures Horner(result, base, DigitValue(s[cp])) == Value(Run(s, start, cp + 1), base) % TWO64
  {
    hide Value, DigitValue;
    HornerMod(Value(Run(s, start, cp), base), base, DigitValue(s[cp]));
    RunSnoc(s, start, cp, base);
  }

  lemma EmptyRun(s: string, start: nat, base: nat)
    ensures Run(s, start, start) == "" && Value("", base) == 0
  {
  }

  /** The digit loop of simple_strtoull. */
  method ReadRun(s: string, start: nat, base: nat) returns (result: u64, cp: nat)
    ensures cp == RunEnd(s, start, base) && result == Value(Run(s, start, cp), base) % TWO64
  {
    hide Value, DigitValue, Horner;
    EmptyRun(s, start, base);
    result, cp := 0, start;
    while IsXDigit(CharAt(s, cp))
      invariant start <= cp && (cp == start || cp <= |s|)
      invariant RunEnd(s, cp, base) == RunEnd(s, start, base)
      invariant forall i | start <= i < cp :: IsXDigit(s[i])
      invariant result == Value(Run(s, start, cp), base) % TWO64
      decreases if cp <= |s| then |s| - cp else 0
    {
      var value := DigitValue(s[cp]);
      if value >= base {
        break;
      }
      OneMore(s, start, cp, base, result);
      result, cp := Horner(result, base, value), cp + 1;
    }
  }

  /** `result * base + value` in 64 bits. */
  function Horner(result: u64, base: nat, value: nat): u64 {
    (result * base + value) % TWO64
  }

  method SimpleStrtoull(s: string, pos: nat, base0: nat) returns (r: Parsed)
    ensures r == ParseUnsigned(s, pos, base0)
  {
    var base := base0;
    if base == 0 {
      base := GuessBase(s, pos);
    }
    var cp := pos;
    if base == 16 && CharAt(s, cp) == '0' && EitherCase(CharAt(s, cp + 1), 'x') {
      cp := cp + 2;
    }
    var result;
    result, cp := ReadRun(s, cp, base);
    r := Parsed(result, cp);
  }

  method SimpleStrtol(s: string, pos: nat, base: nat) returns (r: Parsed)
    ensures r == ParseSigned(s, pos, base)
  {
    if CharAt(s, pos) == '-' {
      r := SimpleStrtoull(s, pos + 1, base);
      var v: int := r.value;
      r := Parsed(ToU64(-v), r.end);
    } else {
      r := SimpleStrtoull(s, pos, base);
    }
  }

  // -------------------------------------------------------- reading numerals

  /** The character after a numeral that ends it. */
  predicate Ends(c: char) {
    !IsXDigit(c) && !EitherCase(c, 'x')
  }

  lemma {:induction false} RunEndIs(s: string, pos: nat, e: nat, base: nat)
    requires pos <= e <= |s| && Ends(CharAt(s, e))
    requires forall i | pos <= i < e :: IsXDigit(s[i]) && DigitValue(s[i]) < base
    ensures RunEnd(s, pos, base) == e
    decreases e - pos
  {
    if pos < e {
      RunEndIs(s, pos + 1, e, base);
    }
  }

  lemma NumeralRun(s: string, pos: nat, num: string, base: nat)
    requires IsNumeral(num, base) && pos + |num| <= |s| && s[pos..pos + |num|] == num && Ends(CharAt(s, pos + |num|))
    ensures RunEnd(s, pos, base) == pos + |num| && Run(s, pos, pos + |num|) == num
  {
    forall i | pos <= i < pos + |num| ensures IsXDigit(s[i]) && DigitValue(s[i]) < base {
      assert s[i] == s[pos..pos + |num|][i - pos];
    }
    RunEndIs(s, pos, pos + |num|, base);
  }

  /** A numeral does not look like one in another base, except 0, which is 0 in all of them. */
  lemma NumeralBase(s: string, pos: nat, n: u64, base: nat, small: bool, asked: nat)
    requires IsBase(base) && (asked == base || (asked == 0 && base == 10))
    requires var e := pos + |Numeral(n, base, small)|;
             e <= |s| && s[pos..e] == Numeral(n, base, small) && Ends(CharAt(s, e))
    ensures StartFor(s, pos, asked) == pos
    ensures BaseFor(s, pos, asked) == if asked == 0 && n == 0 then 8 else base
  {
    var num := Numeral(n, base, small);
    NumeralLeads(n, base, small);
    assert s[pos] == s[pos..pos + |num|][0] == num[0];
  }

  lemma ZeroEverywhere(base: nat)
    requires base >= 1
    ensures IsNumeral("0", base) && Value("0", base) == 0
  {
    assert "0"[..0] == "";
  }

  /** A leading zero changes nothing. */
  lemma {:induction false} LeadingZero(num: string, base: nat)
    requires base >= 1 && IsNumeral(num, base)
    ensures IsNumeral("0" + num, base) && Value("0" + num, base) == Value(num, base)
  {
    if num == [] {
      ZeroEverywhere(base);
      assert "0" + num == "0";
    } else {
      var t := num[..|num| - 1];
      LeadingZero(t, base);
      ValueSnoc("0" + t, num[|num| - 1], base);
      assert "0" + t + [num[|num| - 1]] == "0" + num;
    }
  }

  lemma ParseIs(s: string, pos: nat, asked: nat, base: nat, num: string, n: u64)
    requires BaseFor(s, pos, asked) == base && StartFor(s, pos, asked) == pos
    requires IsNumeral(num, base) && Value(num, base) == n
    requires RunEnd(s, pos, base) == pos + |num| && Run(s, pos, pos + |num|) == num
    ensures ParseUnsigned(s, pos, asked) == Parsed(n, pos + |num|)
  {
  }

  /** Reads a numeral in its own base, or with the base guessed when the numeral is decimal. */
  lemma NumeralReads(s: string, pos: nat, n: u64, base: nat, small: bool, asked: nat)
    requires IsBase(base) && (asked == base || (asked == 0 && base == 10))
    requires var e := pos + |Numeral(n, base, small)|;
             e <= |s| && s[pos..e] == Numeral(n, base, small) && Ends(CharAt(s, e))
    ensures ParseUnsigned(s, pos, asked) == Parsed(n, pos + |Numeral(n, base, small)|)
  {
    NumeralBase(s, pos, n, base, small, asked);
    if asked == 0 && n == 0 {
      ZeroEverywhere(8);
      NumeralRun(s, pos, "0", 8);
      ParseIs(s, pos, asked, 8, "0", 0);
    } else {
      var num := Numeral(n, base, small);
      NumeralValue(n, base, small);
      NumeralRun(s, pos, num, base);
      ParseIs(s, pos, asked, base, num, n);
    }
  }
}
