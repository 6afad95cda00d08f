/** `%*d`: what becomes of a field width that is an int argument. */
module StarWidth {
  import opened CType
  import opened FormatDecode
  import opened Digits
  import opened PrintfText
  import opened Printf

  /** The int slot of a width. */
  function WidthArg(w: int): Arg {
    Word(ToU64(w))
  }

  /** The number in |w| columns at least, on the left if w is negative. */
  function InColumns(num: u64, w: int): string {
    var flags := NO_FLAGS.(sign := true);
    var sign, digits := SignText(num, flags), Numeral(Magnitude(num, flags), 10, false);
    var columns := if w < 0 then -w else w;
    Beside(sign + digits, w < 0, Max(0, columns - |sign| - |digits|))
  }

  const STAR: string := "%*d"
  const STAR_SPEC := ZERO_SPEC.(kind := Width, width := -1)

  lemma StarDecodes()
    ensures Decode(STAR, 0, ZERO_SPEC) == Decoded(2, STAR_SPEC)
  {
    assert TextEnd(STAR, 0) == 0 && FlagsEnd(STAR, 1) == 1;
    assert STAR[1..1] == [];
  }

  /** The decimal spec after a width argument that is w in 16 bits. */
  function After(w: s16): Spec {
    Spec(Int, NO_FLAGS.(sign := true, left := w < 0), 10, NO_QUALIFIER, if w < 0 then ToS16(-(w as int)) else w, -1)
  }

  lemma StarResumes(w: s16)
    ensures Decode(STAR, 2, STAR_SPEC.(width := w)) == Decoded(3, After(w))
  {
    assert QualifierAt(STAR, 2) == (NO_QUALIFIER, 2);
  }

  /** A width that cannot be negated wraps around twice, to the padding it stands for. */
  lemma ColumnsPrint(num: u64, w: s16)
    ensures NumberText(num, After(w)) == InColumns(num, w as int)
  {
    hide Numeral;
    var spec := After(w);
    var digits := Numeral(Magnitude(num, spec.flags), 10, false);
    Numeral64(Magnitude(num, spec.flags), 10, false);
    assert Body(num, spec) == Fill('0', 0) + digits == digits;
    ColumnsAssemble(SignText(num, spec.flags), digits, w);
  }

  lemma ColumnsAssemble(sign: string, digits: string, w: s16)
    requires |sign| <= 1 && 1 <= |digits| <= 100
    ensures var spec := After(w);
            var columns := if w < 0 then -(w as int) else w as int;
            Assemble(sign, "", digits, spec.flags, ToS16(spec.width as int - |sign| - |digits|))
            == Beside(sign + digits, w < 0, Max(0, columns - |sign| - |digits|))
  {
    hide Assemble, Placed;
    var f, width := After(w).flags, After(w).width;
    var slack := width as int - |sign| - |digits|;
    var columns := if w < 0 then -(w as int) else w as int;
    PlacedBeside(sign, digits, f, Max(0, columns - |sign| - |digits|));
    if w == -0x8000 {
      assert ToS16(slack) == 0x8000 - |sign| - |digits|;
      AssembleIsPlaced(sign, "", digits, f, ToS16(slack));
    } else {
      AssembleLayout(sign, "", digits, f, width);
    }
  }

  lemma PlacedBeside(sign: string, digits: string, f: Flags, n: nat)
    requires !f.zeropad
    ensures Placed(sign, "", digits, f, n) == Beside(sign + digits, f.left, n)
  {
    assert sign + "" + digits == sign + digits;
    assert Fill(' ', n) + sign + "" + digits == Fill(' ', n) + (sign + digits);
  }

  /** What `%*d` prints for every int width: that width cut to 16 bits, in columns. */
  lemma StarPrints(w: int, v: u64, ext: Ext)
    ensures Formatted(STAR, [WidthArg(w), Word(v)], ext) == InColumns(Cast(Int, v), ToS16(w))
  {
    hide Decode, Render, TokenText, NumberText, InColumns, ToS16, After;
    var args, num := [WidthArg(w), Word(v)], Cast(Int, v);
    StarDecodes();
    StarResumes(ToS16(w));
    CutTwice(w);
    RenderStep(STAR, 0, ZERO_SPEC, args, 0, ext);
    WidthToken(STAR, 0, Decoded(2, STAR_SPEC), ArgValue(Width, args, 0), ext);
    RenderStep(STAR, 2, STAR_SPEC.(width := ToS16(w)), args, 1, ext);
    IntegerSpec(ToS16(w));
    IntegerToken(STAR, 2, Decoded(3, After(ToS16(w))), Num(num), ext);
    RenderEnd(STAR, After(ToS16(w)), args, 2, ext);
    ColumnsPrint(num, ToS16(w));
    assert "" + (NumberText(num, After(ToS16(w))) + "") == NumberText(num, After(ToS16(w)));
  }

  lemma IntegerSpec(w: s16)
    ensures After(w).kind == Int && After(w).base == 10
  {
  }

  lemma CutTwice(w: int)
    ensures ToS16(ToU64(w) % TWO32) == ToS16(w)
  {
    assert ToU64(w) % TWO32 % TWO16 == w % TWO16;
  }

  lemma WidthToken(fmt: string, pos: nat, d: Decoded, v: Value, ext: Ext)
    requires pos <= d.next <= |fmt| && d.spec.kind == Width && v.Num?
    ensures TokenText(fmt, pos, d, v, ext) == "" && Resume(fmt, d) == d.next && Taken(d.spec.kind) == 1
    ensures Absorb(d.spec, v) == d.spec.(width := ToS16(v.n))
  {
  }

  /** Exactly the widths of 16 bits print in |w| columns, on the side that their sign asks for. */
  lemma StarWidths(w: int, v: u64, ext: Ext)
    ensures Formatted(STAR, [WidthArg(w), Word(v)], ext) == InColumns(Cast(Int, v), w) <==> -0x8000 <= w < 0x8000
  {
    hide Formatted, InColumns;
    StarPrints(w, v, ext);
    if !(-0x8000 <= w < 0x8000) {
      ColumnsDiffer(Cast(Int, v), w, ToS16(w));
    }
  }

  lemma ColumnsDiffer(num: u64, w: int, cut: s16)
    requires !(-0x8000 <= w < 0x8000)
    ensures InColumns(num, w) != InColumns(num, cut as int)
  {
    hide Numeral;
    var flags := NO_FLAGS.(sign := true);
    var text := SignText(num, flags) + Numeral(Magnitude(num, flags), 10, false);
    Numeral64(Magnitude(num, flags), 10, false);
    NumeralValue(Magnitude(num, flags), 10, false);
    assert text[0] != ' ';
    var n, c := if w < 0 then -w else w, if cut < 0 then -(cut as int) else cut as int;
    assert |InColumns(num, w)| == n && |InColumns(num, cut as int)| == Max(c, |text|);
    if n == c {
      assert w == 0x8000 && cut == -0x8000;
      assert InColumns(num, w)[0] == ' ' && InColumns(num, cut as int)[0] == text[0];
    }
  }

  /** The width 32768 prints as -32768 does: on the left, not on the right. */
  lemma WrongSide(ext: Ext)
    ensures Formatted(STAR, [WidthArg(0x8000), Word(5)], ext) == "5" + Fill(' ', 0x7fff)
    ensures Formatted(STAR, [WidthArg(-0x8000), Word(5)], ext) == "5" + Fill(' ', 0x7fff)
  {
    hide Formatted;
    StarPrints(0x8000, 5, ext);
    StarPrints(-0x8000, 5, ext);
    assert Numeral(5, 10, false) == "5";
    assert InColumns(5, -0x8000) == "" + "5" + Fill(' ', 0x7fff);
  }
}
