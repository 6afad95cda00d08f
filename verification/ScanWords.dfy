/** Words printed with `%s %s ..` and scanned with the same format. */
module ScanWords {
  import opened CType
  import opened Digits
  import opened Printf
  import opened ConversionText
  import opened FormatGrammar
  import opened ScanTokens
  import Scanf

  /** What `%s` reads back as it was. */
  predicate Scannable(w: string) {
    w != "" && |w| <= 0x7fff && forall i | 0 <= i < |w| :: !IsSpace(w[i])
  }

  function Gap(first: bool): string {
    if first then "" else " "
  }

  /** n times `%s`, with a space before each but the first. */
  function WordFormat(n: nat, first: bool): string {
    if n == 0 then "" else Gap(first) + ("%s" + WordFormat(n - 1, false))
  }

  function WordText(ws: seq<cstring>, first: bool): string
    decreases |ws|
  {
    if ws == [] then "" else Gap(first) + (ws[0] + WordText(ws[1..], false))
  }

  function Stored(ws: seq<cstring>): (r: seq<Scanf.Stored>)
    ensures |r| == |ws|
  {
    seq(|ws|, i requires 0 <= i < |ws| => Scanf.Word(ws[i]))
  }

  // -------------------------------------------------------------------- printing

  const S := Conv("", Absent, NoDot, "", 's')

  function WordParts(n: nat, first: bool): seq<Part> {
    if n == 0 then [] else [Part(Gap(first), S)] + WordParts(n - 1, false)
  }

  lemma {:induction false} PartsShow(n: nat, first: bool)
    ensures AllValid(WordParts(n, first)) && ShowParts(WordParts(n, first), "") == WordFormat(n, first)
  {
    if n > 0 {
      PartsShow(n - 1, false);
      assert Show(S) == "%s";
      assert WordParts(n, first)[1..] == WordParts(n - 1, false);
    }
  }

  /** The arguments from k on point to the words. */
  predicate PointTo(args: seq<Arg>, k: nat, ws: seq<cstring>) {
    k + |ws| <= |args| && forall x | k <= x < k + |ws| :: args[x].Pointer? && args[x].text == ws[x - k]
  }

  lemma WordPrints(args: seq<Arg>, k: nat, ws: seq<cstring>)
    requires ws != [] && PointTo(args, k, ws)
    ensures ConvText(S, args, k) == ws[0] && Uses(S) == 1 && PointTo(args, k + 1, ws[1..])
  {
    hide StringIn, CharIn, IntegerIn;
    assert args[k].Pointer? && args[k].text == ws[0];
    BareString(ws[0]);
  }

  lemma BareString(s: string)
    ensures StringIn(s, false, -1, -1) == s
  {
    assert Fill(' ', 0) + s == s;
  }

  lemma {:induction false} PartsMean(args: seq<Arg>, k: nat, ws: seq<cstring>, first: bool)
    requires PointTo(args, k, ws)
    ensures Meaning(WordParts(|ws|, first), "", args, k) == WordText(ws, first)
    decreases |ws|
  {
    hide ConvText, Uses, PointTo, Gap;
    if ws != [] {
      WordPrints(args, k, ws);
      PartsMean(args, k + 1, ws[1..], false);
      assert WordParts(|ws|, first)[1..] == WordParts(|ws| - 1, false);
    }
  }

  /** The words with single spaces between them. */
  lemma WordsPrint(args: seq<Arg>, ws: seq<cstring>, ext: Ext)
    requires PointTo(args, 0, ws)
    ensures Formatted(WordFormat(|ws|, true), args, ext) == WordText(ws, true)
  {
    hide *;
    PartsShow(|ws|, true);
    PartsMean(args, 0, ws, true);
    NoTail();
    FormatMeans(WordParts(|ws|, true), "", args, ext);
  }

  lemma NoTail()
    ensures IsText("")
  {
  }

  // -------------------------------------------------------------------- scanning

  /** Input and format lined up at the words still to be read. */
  predicate AtWords(buf: string, fmt: string, i: nat, j: nat, ws: seq<cstring>, first: bool) {
    i <= |buf| && j <= |fmt| && buf[i..] == WordText(ws, first) && fmt[j..] == WordFormat(|ws|, first)
  }

  /** What follows a word: nothing, or a space. */
  lemma AfterWord(buf: string, fmt: string, i: nat, j: nat, ws: seq<cstring>)
    requires ws != [] && AtWords(buf, fmt, i, j, ws, true)
    ensures AtWords(buf, fmt, i + |ws[0]|, j + 2, ws[1..], false)
    ensures buf[i..i + |ws[0]|] == ws[0] && FormatGrammar.At(fmt, j, "%s")
    ensures i + |ws[0]| < |buf| ==> buf[i + |ws[0]|] == ' '
    ensures |ws| > 1 ==> i + |ws[0]| < |buf| && j + 2 < |fmt| && fmt[j + 2] == ' '
    ensures |ws| == 1 ==> i + |ws[0]| == |buf| && j + 2 == |fmt|
  {
    hide WordText, WordFormat;
    var w, rest := ws[0], ws[1..];
    FirstUnfolds(ws);
    Divide(buf, i, w, WordText(rest, false));
    Divide(fmt, j, "%s", WordFormat(|rest|, false));
    GapUnfolds(rest);
    Heads(buf, i + |w|, WordText(rest, false));
    Heads(fmt, j + 2, WordFormat(|rest|, false));
  }

  lemma Divide(s: string, i: nat, a: string, b: string)
    requires i <= |s| && s[i..] == a + b
    ensures i + |a| <= |s| && s[i..i + |a|] == a && s[i + |a|..] == b
  {
    assert s[i..i + |a|] == s[i..][..|a|];
    assert s[i + |a|..] == s[i..][|a|..];
  }

  lemma Heads(s: string, i: nat, t: string)
    requires i <= |s| && s[i..] == t
    ensures |s| == i + |t| && (t != "" ==> s[i] == t[0])
  {
  }

  lemma FirstUnfolds(ws: seq<cstring>)
    requires ws != []
    ensures WordText(ws, true) == ws[0] + WordText(ws[1..], false)
    ensures WordFormat(|ws|, true) == "%s" + WordFormat(|ws[1..]|, false)
  {
  }

  lemma GapUnfolds(ws: seq<cstring>)
    ensures ws == [] ==> WordText(ws, false) == "" && WordFormat(|ws|, false) == ""
    ensures ws != [] ==> |WordText(ws, false)| > 0 && WordText(ws, false)[0] == ' '
    ensures ws != [] ==> |WordFormat(|ws|, false)| > 0 && WordFormat(|ws|, false)[0] == ' '
  {
  }

  /** Past the space between two words. */
  lemma AfterGap(buf: string, fmt: string, i: nat, j: nat, ws: seq<cstring>)
    requires ws != [] && AtWords(buf, fmt, i, j, ws, false)
    ensures i < |buf| && j < |fmt| && buf[i] == fmt[j] == ' ' && AtWords(buf, fmt, i + 1, j + 1, ws, true)
  {
    assert buf[i..][1..] == buf[i + 1..] && fmt[j..][1..] == fmt[j + 1..];
    assert buf[i] == buf[i..][0] && fmt[j] == fmt[j..][0];
  }

  lemma PlainDirective()
    ensures IsDirective("", "", 's') && ShowDirective("", "", 's') == "%s" && WordLimit("") == 0x7fff
  {
  }

  /** A scannable word at hand is read as it is. */
  lemma WordTurn(buf: string, fmt: string, i: nat, j: nat, ws: seq<cstring>)
    requires ws != [] && Scannable(ws[0]) && AtWords(buf, fmt, i, j, ws, true)
    ensures i < |buf| && j < |fmt|
    ensures Scanf.TurnAt(buf, fmt, i, j) == Scanf.Go(i + |ws[0]|, j + 2, [Scanf.Word(ws[0])])
  {
    hide Scanf.TurnAt, AtWords;
    var w := ws[0];
    AfterWord(buf, fmt, i, j, ws);
    PlainDirective();
    assert forall x | 0 <= x < |w| :: buf[i + x] == buf[i..i + |w|][x] == w[x];
    assert buf[i + 0] == w[0];
    var p, e := WordScans(buf, fmt, i, j, "", "");
    assert p == i;
    assert e >= i + |w|;
  }

  lemma StoredCons(ws: seq<cstring>)
    requires ws != []
    ensures Stored(ws) == [Scanf.Word(ws[0])] + Stored(ws[1..])
  {
  }

  predicate AllScannable(ws: seq<cstring>) {
    forall i | 0 <= i < |ws| :: Scannable(ws[i])
  }

  lemma ScannableCons(ws: seq<cstring>)
    requires ws != []
    ensures AllScannable(ws) <==> Scannable(ws[0]) && AllScannable(ws[1..])
  {
    if Scannable(ws[0]) && AllScannable(ws[1..]) {
      forall i | 0 <= i < |ws| ensures Scannable(ws[i]) {
        assert i > 0 ==> ws[i] == ws[1..][i - 1];
      }
    }
  }

  /** The turn at a space is the turn after it, when a word is there. */
  lemma GapTurn(buf: string, fmt: string, i: nat, j: nat, ws: seq<cstring>)
    requires ws != [] && AtWords(buf, fmt, i, j, ws, false)
    requires i + 1 < |buf| && !IsSpace(buf[i + 1])
    ensures i < |buf| && j + 1 < |fmt| && Scanf.TurnAt(buf, fmt, i, j) == Scanf.TurnAt(buf, fmt, i + 1, j + 1)
  {
    hide Scanf.TurnAt, AtWords;
    AfterGap(buf, fmt, i, j, ws);
    AfterWord(buf, fmt, i + 1, j + 1, ws);
    assert fmt[j + 1] == fmt[j + 1..j + 3][0];
    var i', j' := SpaceScans(buf, fmt, i, j);
    assert i' == i + 1 && j' == j + 1;
  }

  lemma Scanned(buf: string, fmt: string, i: nat, j: nat, i': nat, j': nat, out: Scanf.Stored)
    requires i < |buf| && j < |fmt| && j' <= |fmt| && Scanf.TurnAt(buf, fmt, i, j) == Scanf.Go(i', j', [out])
    ensures Scanf.Scan(buf, fmt, i, j) == [out] + Scanf.Scan(buf, fmt, i', j')
  {
    hide Scanf.TurnAt;
  }

  lemma NothingLeft(buf: string, fmt: string, i: nat, j: nat, first: bool)
    requires AtWords(buf, fmt, i, j, [], first)
    ensures j == |fmt| && Scanf.Scan(buf, fmt, i, j) == [] == Stored([])
  {
  }

  /** One scannable word and what is left. */
  lemma WordScanned(buf: string, fmt: string, i: nat, j: nat, ws: seq<cstring>, first: bool)
    requires ws != [] && Scannable(ws[0]) && AtWords(buf, fmt, i, j, ws, first)
    ensures var g := if first then 0 else 1;
            var i', j' := i + g + |ws[0]|, j + g + 2;
            AtWords(buf, fmt, i', j', ws[1..], false) && j' <= |fmt|
            && Scanf.Scan(buf, fmt, i, j) == [Scanf.Word(ws[0])] + Scanf.Scan(buf, fmt, i', j')
  {
    hide Scanf.TurnAt, Scanf.Scan, WordText, WordFormat;
    if first {
      AfterWord(buf, fmt, i, j, ws);
      WordTurn(buf, fmt, i, j, ws);
    } else {
      AfterGap(buf, fmt, i, j, ws);
      AfterWord(buf, fmt, i + 1, j + 1, ws);
      WordTurn(buf, fmt, i + 1, j + 1, ws);
      assert buf[i + 1] == buf[i + 1..i + 1 + |ws[0]|][0];
      GapTurn(buf, fmt, i, j, ws);
    }
    var g := if first then 0 else 1;
    Scanned(buf, fmt, i, j, i + g + |ws[0]|, j + g + 2, Scanf.Word(ws[0]));
  }

  lemma {:induction false} WordsScan(buf: string, fmt: string, i: nat, j: nat, ws: seq<cstring>, first: bool)
    requires AllScannable(ws) && AtWords(buf, fmt, i, j, ws, first)
    ensures Scanf.Scan(buf, fmt, i, j) == Stored(ws)
    decreases |ws|
  {
    hide *;
    if ws == [] {
      NothingLeft(buf, fmt, i, j, first);
    } else {
      ScannableCons(ws);
      StoredCons(ws);
      WordScanned(buf, fmt, i, j, ws, first);
      var g := if first then 0 else 1;
      WordsScan(buf, fmt, i + g + |ws[0]|, j + g + 2, ws[1..], false);
    }
  }

  // ------------------------------------------------------------------ only words

  /** A word that the first `%s` brought back. */
  lemma FirstReturned(buf: string, fmt: string, i: nat, j: nat, ws: seq<cstring>)
    requires ws != [] && AtWords(buf, fmt, i, j, ws, true) && Scanf.Scan(buf, fmt, i, j) == Stored(ws)
    ensures Scannable(ws[0])
  {
    hide Scanf.TurnAt, Scanf.Scan, WordText, WordFormat, AtWords;
    AfterWord(buf, fmt, i, j, ws);
    assert fmt[j] == fmt[j..j + 2][0] && fmt[j + 1] == fmt[j..j + 2][1];
    if i == |buf| {
      ScanEnds(buf, fmt, i, j);
      assert false;
    } else {
      PlainDirective();
      var p, e := WordScans(buf, fmt, i, j, "", "");
      Scanned(buf, fmt, i, j, e, j + 2, Scanf.Word(buf[p..e]));
      assert Stored(ws)[0] == Scanf.Word(ws[0]);
      assert ws[0] == buf[p..e];
      assert forall x | 0 <= x < |ws[0]| :: ws[0][x] == buf[p + x];
      if ws[0] == "" {
        assert p == e == |buf|;
        ScanEnds(buf, fmt, e, j + 2);
      }
    }
  }

  /** A word that a later `%s` brought back. */
  lemma LaterReturned(buf: string, fmt: string, i: nat, j: nat, ws: seq<cstring>)
    requires ws != [] && AtWords(buf, fmt, i, j, ws, false) && Scanf.Scan(buf, fmt, i, j) == Stored(ws)
    ensures Scannable(ws[0])
  {
    hide Scanf.TurnAt, Scanf.Scan, WordText, WordFormat, AtWords;
    AfterGap(buf, fmt, i, j, ws);
    AfterWord(buf, fmt, i + 1, j + 1, ws);
    assert fmt[j + 1] == fmt[j + 1..j + 3][0] && fmt[j + 2] == fmt[j + 1..j + 3][1];
    var i', j' := SpaceScans(buf, fmt, i, j);
    assert j' == j + 1;
    assert Stored(ws)[0] == Scanf.Word(ws[0]);
    if i' == |buf| {
      Scanf.ScanStep(buf, fmt, i, j);
      assert false;
    } else {
      PlainDirective();
      var p, e := WordScans(buf, fmt, i', j + 1, "", "");
      Scanned(buf, fmt, i, j, e, j + 3, Scanf.Word(buf[p..e]));
      assert ws[0] == buf[p..e];
      assert forall x | 0 <= x < |ws[0]| :: ws[0][x] == buf[p + x];
    }
  }

  lemma {:induction false} WordsReturned(buf: string, fmt: string, i: nat, j: nat, ws: seq<cstring>, first: bool)
    requires AtWords(buf, fmt, i, j, ws, first) && Scanf.Scan(buf, fmt, i, j) == Stored(ws)
    ensures AllScannable(ws)
    decreases |ws|
  {
    hide *;
    if ws == [] {
      NoneScannable();
    } else {
      if first {
        FirstReturned(buf, fmt, i, j, ws);
      } else {
        LaterReturned(buf, fmt, i, j, ws);
      }
      StoredCons(ws);
      WordScanned(buf, fmt, i, j, ws, first);
      var g := if first then 0 else 1;
      SameRest(Scanf.Word(ws[0]), Scanf.Scan(buf, fmt, i + g + |ws[0]|, j + g + 2), Stored(ws[1..]));
      WordsReturned(buf, fmt, i + g + |ws[0]|, j + g + 2, ws[1..], false);
      ScannableCons(ws);
    }
  }

  lemma SameRest(x: Scanf.Stored, a: seq<Scanf.Stored>, b: seq<Scanf.Stored>)
    requires [x] + a == [x] + b
    ensures a == b
  {
    assert a == ([x] + a)[1..] && b == ([x] + b)[1..];
  }

  lemma NoneScannable()
    ensures AllScannable([])
  {
  }

  lemma AtStart(ws: seq<cstring>)
    ensures AtWords(WordText(ws, true), WordFormat(|ws|, true), 0, 0, ws, true)
  {
    hide WordText, WordFormat;
  }

  /** Words printed with `%s %s ..` and scanned with the same format come back exactly when
      each of them has a character, no white space and at most 32767 characters. */
  lemma WordsRoundTrip(args: seq<Arg>, ws: seq<cstring>, ext: Ext)
    requires PointTo(args, 0, ws)
    ensures var fmt := WordFormat(|ws|, true);
            Scanf.Scan(Formatted(fmt, args, ext), fmt, 0, 0) == Stored(ws) <==> AllScannable(ws)
  {
    hide *;
    var fmt := WordFormat(|ws|, true);
    WordsPrint(args, ws, ext);
    AtStart(ws);
    if AllScannable(ws) {
      WordsScan(WordText(ws, true), fmt, 0, 0, ws, true);
    } else if Scanf.Scan(WordText(ws, true), fmt, 0, 0) == Stored(ws) {
      WordsReturned(WordText(ws, true), fmt, 0, 0, ws, true);
    }
  }
}
