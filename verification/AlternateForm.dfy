/** The forms that tell their own base: simple_strtoull with base 0 reads back what
    `%llu`, `%#llo`, `%#llx` and `%#llX` print. */
module AlternateForm {
  import opened CType
  import opened FormatDecode
  import opened Digits
  import opened PrintfText
  import opened Printf
  import opened Strto

  function FormOf(base: nat, small: bool): string {
    if base == 10 then "%llu" else if base == 8 then "%#llo" else if small then "%#llx" else "%#llX"
  }

  function FormSpec(base: nat, small: bool): Spec {
    Spec(LongLong, NO_FLAGS.(special := base != 10, small := base == 16 && small), base, 'L', -1, -1)
  }

  lemma DecimalFormDecodes()
    ensures Decode("%llu", 0, ZERO_SPEC) == Decoded(4, FormSpec(10, false))
  {
    var fmt := "%llu";
    assert TextEnd(fmt, 0) == 0 && FlagsEnd(fmt, 1) == 1;
    assert QualifierAt(fmt, 1) == ('L', 3);
    assert fmt[1..1] == [];
  }

  lemma SpecialFormDecodes(fmt: string, base: nat, small: bool)
    requires (base == 8 || base == 16) && fmt == FormOf(base, small)
    ensures Decode(fmt, 0, ZERO_SPEC) == Decoded(5, FormSpec(base, small))
  {
    assert TextEnd(fmt, 0) == 0 && FlagsEnd(fmt, 1) == 2;
    assert QualifierAt(fmt, 2) == ('L', 4);
    assert fmt[1..2] == ['#'] && ['#'][..0] == [];
    assert FlagsOf(['#']) == NO_FLAGS.(special := true);
  }

  /** The prefix and the numeral, and nothing else. */
  lemma PrintsForm(n: u64, base: nat, small: bool)
    requires IsBase(base)
    ensures var spec := FormSpec(base, small);
            NumberText(n, spec) == PrefixText(spec) + Numeral(n, base, spec.flags.small)
  {
    var spec := FormSpec(base, small);
    hide NumberText, Numeral, PrefixText;
    UnpaddedNumber(n, spec);
    assert "" + PrefixText(spec) == PrefixText(spec);
  }

  lemma OctalFormReads(n: u64)
    ensures var text := "0" + Numeral(n, 8, false);
            ParseUnsigned(text, 0, 0) == Parsed(n, |text|)
  {
    var num := Numeral(n, 8, false);
    var text := "0" + num;
    NumeralValue(n, 8, false);
    LeadingZero(num, 8);
    assert text[1] == num[0];
    assert BaseFor(text, 0, 0) == 8 && StartFor(text, 0, 0) == 0;
    assert text[0..|text|] == text;
    NumeralRun(text, 0, text, 8);
    ParseIs(text, 0, 0, 8, text, n);
  }

  /** A numeral after 0x, read with the base guessed. */
  lemma PrefixedReads(text: string, num: string)
    requires |num| >= 1 && IsNumeral(num, 16)
    requires |text| == 2 + |num| && text[0] == '0' && EitherCase(text[1], 'x') && text[2..] == num
    ensures RunEnd(text, 2, 16) == |text| && Run(text, 2, |text|) == num
    ensures BaseFor(text, 0, 0) == 16 && StartFor(text, 0, 0) == 2
  {
    assert text[2] == num[0];
    assert text[2..2 + |num|] == num;
    NumeralRun(text, 2, num, 16);
  }

  /** Base 16 skips a 0x in either case: a prefixed numeral reads back with the base given too. */
  lemma PrefixedBase16(n: u64, small: bool)
    ensures var text := (if small then "0x" else "0X") + Numeral(n, 16, small);
            ParseUnsigned(text, 0, 16) == Parsed(n, |text|)
  {
    hide Numeral, RunEnd, Run;
    var num := Numeral(n, 16, small);
    var text := (if small then "0x" else "0X") + num;
    NumeralValue(n, 16, small);
    assert text[2..] == num;
    PrefixedReads(text, num);
    assert StartFor(text, 0, 16) == 2;
  }

  lemma HexFormReads(n: u64, small: bool)
    ensures var text := (if small then "0x" else "0X") + Numeral(n, 16, small);
            ParseUnsigned(text, 0, 0) == Parsed(n, |text|)
  {
    hide Numeral, RunEnd, Run, BaseFor, StartFor;
    var num := Numeral(n, 16, small);
    var text := (if small then "0x" else "0X") + num;
    NumeralValue(n, 16, small);
    assert text[2..] == num;
    PrefixedReads(text, num);
  }

  lemma FormReads(n: u64, base: nat, small: bool)
    requires IsBase(base)
    ensures var text := NumberText(n, FormSpec(base, small));
            ParseUnsigned(text, 0, 0) == Parsed(n, |text|)
  {
    hide NumberText, ParseUnsigned, Numeral;
    PrintsForm(n, base, small);
    if base == 8 {
      OctalFormReads(n);
    } else if base == 16 {
      HexFormReads(n, small);
    } else {
      var num := Numeral(n, 10, false);
      assert "" + num == num && num[0..|num|] == num;
      NumeralReads(num, 0, n, 10, false, 0);
    }
  }

  /** Every 64-bit value survives being printed with its base marked and read with the base guessed. */
  lemma BaseIsRecovered(n: u64, base: nat, small: bool, ext: Ext)
    requires IsBase(base)
    ensures var text := Formatted(FormOf(base, small), [Word(n)], ext);
            ParseUnsigned(text, 0, 0) == Parsed(n, |text|)
  {
    hide Decode, Render, TokenText, NumberText, ParseUnsigned;
    var fmt, spec, args := FormOf(base, small), FormSpec(base, small), [Word(n)];
    if base == 10 {
      DecimalFormDecodes();
    } else {
      SpecialFormDecodes(fmt, base, small);
    }
    RenderStep(fmt, 0, ZERO_SPEC, args, 0, ext);
    IntegerToken(fmt, 0, Decoded(|fmt|, spec), Num(n), ext);
    RenderEnd(fmt, spec, args, 1, ext);
    assert NumberText(n, spec) + "" == NumberText(n, spec);
    FormReads(n, base, small);
  }
}
