/** What each element of a vsscanf format takes from the input, by indices: white space,
    literal characters, words, characters, skipped conversions and positions. */
module ScanTokens {
  import opened CType
  import opened FormatDecode
  import Digits
  import opened Scanf
  import FormatGrammar
  import Strto

  // -------------------------------------------------------------- stretches of text

  /** `p` is the first index from i on that holds no white space, the end of s included. */
  predicate PastSpaces(s: string, i: nat, p: nat) {
    i <= p <= |s| && (forall x | i <= x < p :: IsSpace(s[x])) && (p == |s| || !IsSpace(s[p]))
  }

  /** s[p..e] is a word: no white space, at most `limit` characters, and not one fewer than that allows. */
  predicate IsWord(s: string, p: nat, e: nat, limit: nat) {
    && p <= e <= |s| && e - p <= limit && (forall x | p <= x < e :: !IsSpace(s[x]))
    && (e == |s| || IsSpace(s[e]) || e - p == limit)
  }

  lemma {:induction false} SpacesEndAt(s: string, i: nat)
    requires i <= |s|
    ensures PastSpaces(s, i, SpacesEnd(s, i))
    decreases |s| - i
  {
    if IsSpace(CharAt(s, i)) {
      SpacesEndAt(s, i + 1);
    }
  }

  lemma {:induction false} WordEndAt(s: string, i: nat, limit: nat)
    requires i <= |s|
    ensures IsWord(s, i, WordEnd(s, i, limit), limit)
    decreases limit
  {
    if i < |s| && !IsSpace(s[i]) && limit > 0 {
      WordEndAt(s, i + 1, limit - 1);
    }
  }

  /** `e` is the first index from j on that holds white space or `%`, the end of s included. */
  predicate PastSkipped(s: string, j: nat, e: nat) {
    && j <= e <= |s| && (forall x | j <= x < e :: !IsSpace(s[x]) && s[x] != '%')
    && (e == |s| || IsSpace(s[e]) || s[e] == '%')
  }

  lemma {:induction false} SkippedEndAt(s: string, j: nat)
    requires j <= |s|
    ensures PastSkipped(s, j, SkippedEnd(s, j))
    decreases |s| - j
  {
    if j < |s| && !IsSpace(s[j]) && s[j] != '%' {
      SkippedEndAt(s, j + 1);
    }
  }

  // ------------------------------------------------------------------- directives

  /** A width, left out or written, a length, and a conversion character. */
  predicate IsDirective(width: string, length: string, c: char) {
    && (width == "" || FormatGrammar.IsNumber(width)) && FormatGrammar.IsLength(length) && length != "t"
    && FormatGrammar.IsConversion(c)
  }

  function ShowDirective(width: string, length: string, c: char): (s: string)
    ensures |s| == |width| + |length| + 2
  {
    ['%'] + (width + (length + [c]))
  }

  /** The width in 16 bits, -1 when it is left out. */
  function WidthIn(width: string): s16 {
    if width == "" then -1 else ToS16(FormatGrammar.NumberOf(width))
  }

  lemma LengthReads(fmt: string, pos: nat, length: string, c: char)
    requires IsDirective("", length, c) && FormatGrammar.At(fmt, pos, length + [c])
    ensures ScanQualifier(fmt, pos) == (FormatGrammar.LengthChar(length), pos + |length|)
    ensures pos + |length| < |fmt| && fmt[pos + |length|] == c
    ensures !IsDigit(CharAt(fmt, pos)) && CharAt(fmt, pos) != '*'
  {
    var v := FormatGrammar.Conv("", FormatGrammar.Absent, FormatGrammar.NoDot, length, c);
    FormatGrammar.EndReads(fmt, pos, v);
    FormatGrammar.AtChar(fmt, pos, length + [c], 0);
  }

  lemma WidthReads(fmt: string, pos: nat, width: string, rest: string)
    requires (width == "" || FormatGrammar.IsNumber(width)) && FormatGrammar.At(fmt, pos, width + rest)
    requires !IsDigit(CharAt(fmt, pos + |width|)) && CharAt(fmt, pos + |width|) != '*'
    ensures pos + |width| <= |fmt| && CharAt(fmt, pos) != '*' && DigitsEnd(fmt, pos) == pos + |width|
    ensures width != "" ==> fmt[pos..pos + |width|] == width
  {
    FormatGrammar.AtParts(fmt, pos, width, rest);
    if width != "" {
      FormatGrammar.NumberReads(fmt, pos, width);
    }
  }

  /** A directive is read up to its conversion character. */
  lemma DirectiveReads(buf: string, fmt: string, i: nat, j: nat, width: string, length: string, c: char)
    requires i < |buf| && IsDirective(width, length, c) && FormatGrammar.At(fmt, j, ShowDirective(width, length, c))
    ensures j + 1 + |width| + |length| < |fmt| && fmt[j + 1 + |width| + |length|] == c
    ensures TurnAt(buf, fmt, i, j)
         == ConvertAt(buf, fmt, i, j + 1 + |width| + |length|, WidthIn(width), FormatGrammar.LengthChar(length))
  {
    hide *;
    DirectiveParts(fmt, j, width, length, c);
    LengthReads(fmt, j + 1 + |width|, length, c);
    WidthReads(fmt, j + 1, width, length + [c]);
    TurnReads(buf, fmt, i, j);
    AtConversion(buf, fmt, i, j + 1, width, j + 1 + |width| + |length|, FormatGrammar.LengthChar(length));
  }

  lemma DirectiveParts(fmt: string, j: nat, width: string, length: string, c: char)
    requires IsDirective(width, length, c) && FormatGrammar.At(fmt, j, ShowDirective(width, length, c))
    ensures j < |fmt| && fmt[j] == '%' && FormatGrammar.At(fmt, j + 1, width + (length + [c]))
    ensures FormatGrammar.At(fmt, j + 1 + |width|, length + [c]) && IsDirective("", length, c)
    ensures width == "" || FormatGrammar.IsNumber(width)
  {
    FormatGrammar.AtChar(fmt, j, ShowDirective(width, length, c), 0);
    FormatGrammar.AtParts(fmt, j, ['%'], width + (length + [c]));
    FormatGrammar.AtParts(fmt, j + 1, width, length + [c]);
  }

  lemma TurnReads(buf: string, fmt: string, i: nat, j: nat)
    requires i < |buf| && j < |fmt| && fmt[j] == '%'
    ensures TurnAt(buf, fmt, i, j) == DirectiveAt(buf, fmt, i, j + 1)
  {
    hide DirectiveAt;
  }

  lemma AtConversion(buf: string, fmt: string, i: nat, j: nat, width: string, p: nat, q: char)
    requires i < |buf| && 1 <= j <= p < |fmt| && CharAt(fmt, j) != '*' && (width == "" || FormatGrammar.IsNumber(width))
    requires j + |width| <= |fmt| && DigitsEnd(fmt, j) == j + |width| && (width != "" ==> fmt[j..j + |width|] == width)
    requires ScanQualifier(fmt, j + |width|) == (q, p)
    ensures DirectiveAt(buf, fmt, i, j) == ConvertAt(buf, fmt, i, p, WidthIn(width), q)
  {
    hide ConvertAt, DigitsEnd, ScanQualifier, ToS16, Digits.Value;
  }

  /** How many characters `%s` may take: the width in 16 bits, 32767 without one. */
  function WordLimit(width: string): nat {
    var w := FormatGrammar.NumberOf(width) % 0x1_0000;
    if width == "" || w == 0xffff then 0x7fff else w
  }

  /** `%s`: past white space, the longest word within the width. */
  lemma WordScans(buf: string, fmt: string, i: nat, j: nat, width: string, length: string) returns (p: nat, e: nat)
    requires i < |buf| && IsDirective(width, length, 's') && FormatGrammar.At(fmt, j, ShowDirective(width, length, 's'))
    ensures PastSpaces(buf, i, p) && IsWord(buf, p, e, WordLimit(width))
    ensures TurnAt(buf, fmt, i, j) == Go(e, j + 2 + |width| + |length|, [Word(buf[p..e])])
  {
    hide TurnAt, SpacesEnd, WordEnd, PastSpaces, IsWord, IsDirective, ShowDirective;
    DirectiveReads(buf, fmt, i, j, width, length, 's');
    WordWidth(width);
    p := SpacesEnd(buf, i);
    e := WordEnd(buf, p, WordLimit(width));
    SpacesEndAt(buf, i);
    SpacesInside(buf, i);
    WordEndAt(buf, p, WordLimit(width));
    WordText(buf, p, e, WordLimit(width));
  }

  lemma WordText(buf: string, p: nat, e: nat, limit: nat)
    requires IsWord(buf, p, e, limit)
    ensures p <= e <= |buf| && Strto.Run(buf, p, e) == buf[p..e]
  {
  }

  lemma SpacesInside(buf: string, i: nat)
    requires i <= |buf|
    ensures SpacesEnd(buf, i) <= |buf|
  {
  }

  lemma WordWidth(width: string)
    ensures WordLimit(width) == if WidthIn(width) == -1 then SHRT_MAX else WidthIn(width) as int % TWO16
  {
  }

  /** How many characters `%c` asks for: the width in 16 bits, one without a width or with
      a width that is 0 or above 32768. */
  function CharCount(width: string): nat {
    var w := FormatGrammar.NumberOf(width) % 0x1_0000;
    if width != "" && 1 <= w <= 0x8000 then w else 1
  }

  /** `%c`: that many characters, white space included, or what is left. */
  lemma CharsScan(buf: string, fmt: string, i: nat, j: nat, width: string, length: string)
    requires i < |buf| && IsDirective(width, length, 'c') && FormatGrammar.At(fmt, j, ShowDirective(width, length, 'c'))
    ensures var e := if i + CharCount(width) <= |buf| then i + CharCount(width) else |buf|;
            TurnAt(buf, fmt, i, j) == Go(e, j + 2 + |width| + |length|, [Chars(buf[i..e])])
  {
    hide TurnAt, IsDirective, ShowDirective;
    DirectiveReads(buf, fmt, i, j, width, length, 'c');
    CharWidth(width);
  }

  lemma CharWidth(width: string)
    ensures var w := WidthIn(width); CharCount(width) == if w == -0x8000 then 0x8000 else if w <= 1 then 1 else w
  {
  }

  /** `%n`: the index reached, and nothing is taken. */
  lemma PositionScans(buf: string, fmt: string, i: nat, j: nat, width: string, length: string)
    requires i < |buf| && IsDirective(width, length, 'n') && FormatGrammar.At(fmt, j, ShowDirective(width, length, 'n'))
    ensures TurnAt(buf, fmt, i, j) == Go(i, j + 2 + |width| + |length|, [Position(i)])
  {
    hide TurnAt, IsDirective, ShowDirective;
    DirectiveReads(buf, fmt, i, j, width, length, 'n');
  }

  /** `%%`: a `%`, or the scan is over. */
  lemma PercentScans(buf: string, fmt: string, i: nat, j: nat, width: string, length: string)
    requires i < |buf| && IsDirective(width, length, '%') && FormatGrammar.At(fmt, j, ShowDirective(width, length, '%'))
    ensures TurnAt(buf, fmt, i, j) == if buf[i] == '%' then Go(i + 1, j + 2 + |width| + |length|, []) else Return
  {
    hide TurnAt, IsDirective, ShowDirective;
    DirectiveReads(buf, fmt, i, j, width, length, '%');
  }

  /** `%*`: input up to white space, format up to white space or the next `%`; nothing is stored. */
  lemma SkipScans(buf: string, fmt: string, i: nat, j: nat) returns (e: nat, j': nat)
    requires i < |buf| && j + 1 < |fmt| && fmt[j] == '%' && fmt[j + 1] == '*'
    ensures IsWord(buf, i, e, |buf|) && PastSkipped(fmt, j + 1, j')
    ensures TurnAt(buf, fmt, i, j) == Go(e, j', [])
  {
    e, j' := WordEnd(buf, i, |buf|), SkippedEnd(fmt, j + 1);
    WordEndAt(buf, i, |buf|);
    SkippedEndAt(fmt, j + 1);
  }

  /** Any other character is matched by itself. */
  lemma LiteralScans(buf: string, fmt: string, i: nat, j: nat)
    requires i < |buf| && j < |fmt| && fmt[j] != '%' && !IsSpace(fmt[j])
    ensures TurnAt(buf, fmt, i, j) == if buf[i] == fmt[j] then Go(i + 1, j + 1, []) else Break(i + 1, j + 1)
  {
  }

  /** White space in the format: both go past theirs, and the turn is the one found there. */
  lemma SpaceScans(buf: string, fmt: string, i: nat, j: nat) returns (i': nat, j': nat)
    requires i < |buf| && j < |fmt| && IsSpace(fmt[j])
    ensures PastSpaces(buf, i, i') && PastSpaces(fmt, j, j')
    ensures j' == |fmt| ==> TurnAt(buf, fmt, i, j) == Break(i', j')
    ensures j' < |fmt| && i' < |buf| ==> TurnAt(buf, fmt, i, j) == TurnAt(buf, fmt, i', j')
    ensures j' < |fmt| && i' == |buf| && fmt[j'] != '%' && fmt[j'] != NUL ==> TurnAt(buf, fmt, i, j) == Break(i' + 1, j' + 1)
    ensures j' < |fmt| && i' == |buf| && fmt[j'] == '%' ==>
              var t := TurnAt(buf, fmt, i, j);
              if CharAt(fmt, j' + 1) == '*' then t.Go? && t.i == i' && t.outs == [] else t.Break? && t.i == i'
  {
    i', j' := SpacesEnd(buf, i), SpacesEnd(fmt, j);
    SpacesEndAt(buf, i);
    SpacesEndAt(fmt, j);
  }

  /** With the input or the format used up, only a `%n` at hand is stored. */
  lemma ScanEnds(buf: string, fmt: string, i: nat, j: nat)
    requires j <= |fmt| && (j == |fmt| || i >= |buf|)
    ensures Scan(buf, fmt, i, j)
         == if j + 1 < |fmt| && fmt[j] == '%' && fmt[j + 1] == 'n' then [Position(i)] else []
  {
  }

  /** A `%n` does not count as a conversion; everything else does. */
  lemma {:induction false} Counted(outs: seq<Stored>, out: Stored)
    ensures Conversions(outs + [out]) == Conversions(outs) + if out.Position? then 0 else 1
  {
    ConversionsSnoc(outs, [out]);
    assert [out][..0] == [];
  }
}
