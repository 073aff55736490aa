/** Rebuilding text tokens from a page's positioned characters
  * (`_chars_to_tokens` and `_find_depth_bands_by_chars` in app/routes_logpdf.py). */
module LogPdfTokens {
  import opened Text
  import LogPdfFit

  /** One pdfplumber character (`text`, `x0`, `x1`, `top`), and equally one
    * `(x0, x1, top, text)` run of merged characters. */
  datatype Glyph = Glyph(text: string, x0: real, x1: real, top: real)

  /** A text line: the `top` of its first character and the characters placed in it. */
  datatype Line = Line(top: real, glyphs: seq<Glyph>)

  /** An output token; its `bottom` is always equal to `top` and is not repeated. */
  datatype Token = Token(text: string, x0: real, x1: real, top: real, yPdf: real)

  // ------------------------------------------------------------ accepting characters

  /** `ok_char`: the first character is in `[A-Za-z0-9:/：()一-龥]`. */
  predicate TitleChar(c: char) {
    IsAlnum(c) || c == ':' || c == '/' || c == '\U{ff1a}' || c == '(' || c == ')' || IsHan(c)
  }

  /** A character is used when its text is non-empty and, in digit mode, all
    * digits (`isdigit`) or, in title mode, starts with a title character. */
  predicate Accepts(g: Glyph, digits: bool) {
    |g.text| > 0 && (if digits then AllDigits(g.text) else TitleChar(g.text[0]))
  }

  // ------------------------------------------------------------ lines (first fit)

  predicate Near(l: Line, top: real, tol: real) { Abs(l.top - top) <= tol }

  /** The index of the first line within `tol` of `top`, or `|lines|` when none is. */
  function FirstNear(lines: seq<Line>, top: real, tol: real): (k: nat)
    ensures k <= |lines|
    ensures k < |lines| ==> Near(lines[k], top, tol)
    ensures forall j :: 0 <= j < k ==> !Near(lines[j], top, tol)
  {
    if |lines| == 0 then 0
    else if Near(lines[0], top, tol) then 0
    else 1 + FirstNear(lines[1..], top, tol)
  }

  /** Appends the character to the first near line, or opens a new line at its top. */
  function Place(lines: seq<Line>, g: Glyph, tol: real): seq<Line> {
    var k := FirstNear(lines, g.top, tol);
    if k < |lines| then lines[k := Line(lines[k].top, lines[k].glyphs + [g])]
    else lines + [Line(g.top, [g])]
  }

  /** The lines after reading all characters in order. */
  function GroupLines(cs: seq<Glyph>, digits: bool, tol: real): seq<Line> {
    if |cs| == 0 then []
    else
      var lines := GroupLines(cs[..|cs| - 1], digits, tol);
      var g := cs[|cs| - 1];
      if Accepts(g, digits) then Place(lines, g, tol) else lines
  }

  /** The accepted characters, in input order. */
  function AcceptedOf(cs: seq<Glyph>, digits: bool): seq<Glyph> {
    if |cs| == 0 then []
    else
      var rest := AcceptedOf(cs[..|cs| - 1], digits);
      if Accepts(cs[|cs| - 1], digits) then rest + [cs[|cs| - 1]] else rest
  }

  /** All characters held by the lines. */
  function GlyphBag(lines: seq<Line>): multiset<Glyph> {
    if |lines| == 0 then multiset{}
    else GlyphBag(lines[..|lines| - 1]) + multiset(lines[|lines| - 1].glyphs)
  }

  /** Every line is non-empty and keeps the top of its first character; every
    * character lies within `tol` of its line's top; and two lines' tops are
    * always more than `tol` apart. */
  predicate LinesWellFormed(lines: seq<Line>, tol: real) {
    (forall i :: 0 <= i < |lines| ==> |lines[i].glyphs| > 0 && lines[i].top == lines[i].glyphs[0].top)
    && (forall i, j :: 0 <= i < |lines| && 0 <= j < |lines[i].glyphs| ==> Near(lines[i], lines[i].glyphs[j].top, tol))
    && (forall i, j :: 0 <= i < j < |lines| ==> !Near(lines[i], lines[j].top, tol))
  }

  lemma PlaceWellFormed(lines: seq<Line>, g: Glyph, tol: real)
    requires 0.0 <= tol && LinesWellFormed(lines, tol)
    ensures LinesWellFormed(Place(lines, g, tol), tol)
  {
    var k := FirstNear(lines, g.top, tol);
    var r := Place(lines, g, tol);
    if k < |lines| {
      forall i, j | 0 <= i < |r| && 0 <= j < |r[i].glyphs|
        ensures Near(r[i], r[i].glyphs[j].top, tol)
      {
        if i == k && j == |lines[k].glyphs| {
          assert r[i].glyphs[j] == g;
        } else {
          assert r[i].glyphs[j] == lines[i].glyphs[j];
        }
      }
    } else {
      forall i, j | 0 <= i < |r| && 0 <= j < |r[i].glyphs|
        ensures Near(r[i], r[i].glyphs[j].top, tol)
      {
        if i < |lines| {
          assert r[i] == lines[i];
        } else {
          assert r[i].glyphs == [g];
        }
      }
      forall i, j | 0 <= i < j < |r| ensures !Near(r[i], r[j].top, tol) {
        if j == |lines| {
          assert r[j].top == g.top;
        }
      }
    }
  }

  lemma {:induction false} GlyphBagUpdate(lines: seq<Line>, k: int, g: Glyph)
    requires 0 <= k < |lines|
    ensures GlyphBag(lines[k := Line(lines[k].top, lines[k].glyphs + [g])]) == GlyphBag(lines) + multiset{g}
  {
    var r := lines[k := Line(lines[k].top, lines[k].glyphs + [g])];
    var n := |lines| - 1;
    if k == n {
      assert r[..n] == lines[..n];
    } else {
      GlyphBagUpdate(lines[..n], k, g);
      assert r[..n] == lines[..n][k := Line(lines[k].top, lines[k].glyphs + [g])];
    }
  }

  lemma PlaceBag(lines: seq<Line>, g: Glyph, tol: real)
    ensures GlyphBag(Place(lines, g, tol)) == GlyphBag(lines) + multiset{g}
  {
    var k := FirstNear(lines, g.top, tol);
    if k < |lines| {
      GlyphBagUpdate(lines, k, g);
    } else {
      assert (lines + [Line(g.top, [g])])[..|lines|] == lines;
    }
  }

  /** First-fit grouping keeps every accepted character exactly once and
    * yields well-formed lines. */
  lemma {:induction false} GroupLinesCorrect(cs: seq<Glyph>, digits: bool, tol: real)
    requires 0.0 <= tol
    ensures LinesWellFormed(GroupLines(cs, digits, tol), tol)
    ensures GlyphBag(GroupLines(cs, digits, tol)) == multiset(AcceptedOf(cs, digits))
  {
    if |cs| > 0 {
      var init, g := cs[..|cs| - 1], cs[|cs| - 1];
      GroupLinesCorrect(init, digits, tol);
      if Accepts(g, digits) {
        PlaceWellFormed(GroupLines(init, digits, tol), g, tol);
        PlaceBag(GroupLines(init, digits, tol), g, tol);
      }
    }
  }

  // ------------------------------------------------------------ runs within a line

  /** The run a character extends: the texts are joined, the run keeps its
    * x0 and takes the character's x1 and top. */
  function Glue(p: Glyph, g: Glyph): Glyph { Glyph(p.text + g.text, p.x0, g.x1, g.top) }

  /** One merge step: the character joins the last run when its x0 is at most
    * `gap` right of that run's x1, and starts a new run otherwise. */
  function Absorb(runs: seq<Glyph>, g: Glyph, gap: real): seq<Glyph> {
    if |runs| == 0 then [g]
    else
      var p := runs[|runs| - 1];
      if g.x0 - p.x1 <= gap then runs[..|runs| - 1] + [Glue(p, g)] else runs + [g]
  }

  /** Left-to-right merging of a line's characters. */
  function MergeRuns(gs: seq<Glyph>, gap: real): (runs: seq<Glyph>)
    ensures |runs| <= |gs|
    ensures |runs| == 0 <==> |gs| == 0
  {
    if |gs| == 0 then [] else Absorb(MergeRuns(gs[..|gs| - 1], gap), gs[|gs| - 1], gap)
  }

  /** The concatenated texts. */
  function AllText(gs: seq<Glyph>): string {
    if |gs| == 0 then "" else AllText(gs[..|gs| - 1]) + gs[|gs| - 1].text
  }

  lemma AbsorbText(runs: seq<Glyph>, g: Glyph, gap: real)
    ensures AllText(Absorb(runs, g, gap)) == AllText(runs) + g.text
    ensures |runs| > 0 ==> Absorb(runs, g, gap)[0].x0 == runs[0].x0
    ensures var r := Absorb(runs, g, gap); |r| > 0 && r[|r| - 1].x1 == g.x1 && r[|r| - 1].top == g.top
  {
    if |runs| > 0 {
      var p, front := runs[|runs| - 1], runs[..|runs| - 1];
      assert runs == front + [p];
      if g.x0 - p.x1 <= gap {
        var merged := front + [Glue(p, g)];
        assert merged[..|front|] == front;
        assert AllText(merged) == AllText(front) + (p.text + g.text);
      } else {
        assert (runs + [g])[..|runs|] == runs;
      }
    }
  }

  /** Merging neither loses nor reorders text; the first run starts at the
    * first character's x0 and the last run ends at the last character's x1
    * and top. */
  lemma {:induction false} MergeRunsText(gs: seq<Glyph>, gap: real)
    ensures AllText(MergeRuns(gs, gap)) == AllText(gs)
    ensures |gs| > 0 ==> MergeRuns(gs, gap)[0].x0 == gs[0].x0
    ensures |gs| > 0 ==> var r := MergeRuns(gs, gap); r[|r| - 1].x1 == gs[|gs| - 1].x1 && r[|r| - 1].top == gs[|gs| - 1].top
  {
    if |gs| > 0 {
      var init := gs[..|gs| - 1];
      MergeRunsText(init, gap);
      AbsorbText(MergeRuns(init, gap), gs[|gs| - 1], gap);
      if |init| > 0 {
        assert init[0] == gs[0];
      }
    }
  }

  /** Consecutive runs are separated by more than `gap`. */
  predicate Separated(r: seq<Glyph>, gap: real) {
    forall i :: 0 <= i < |r| - 1 ==> r[i + 1].x0 - r[i].x1 > gap
  }

  /** Every glyph's text is a digit string. */
  predicate DigitRuns(r: seq<Glyph>) {
    forall i :: 0 <= i < |r| ==> AllDigits(r[i].text)
  }

  lemma AbsorbSeparated(runs: seq<Glyph>, g: Glyph, gap: real)
    requires Separated(runs, gap)
    ensures Separated(Absorb(runs, g, gap), gap)
  {
    var r := Absorb(runs, g, gap);
    if |runs| > 0 {
      var p := runs[|runs| - 1];
      forall i | 0 <= i < |r| - 1 ensures r[i + 1].x0 - r[i].x1 > gap {
        assert r[i] == runs[i];
        if i + 1 < |runs| - 1 || g.x0 - p.x1 > gap {
          assert r[i + 1].x0 == (runs + [g])[i + 1].x0;
        } else {
          assert r[i + 1].x0 == runs[i + 1].x0;
        }
      }
    }
  }

  /** Two runs that merging left apart are more than `gap` apart. */
  lemma {:induction false} MergeRunsSeparated(gs: seq<Glyph>, gap: real)
    ensures Separated(MergeRuns(gs, gap), gap)
  {
    if |gs| > 0 {
      MergeRunsSeparated(gs[..|gs| - 1], gap);
      AbsorbSeparated(MergeRuns(gs[..|gs| - 1], gap), gs[|gs| - 1], gap);
    }
  }

  lemma AbsorbDigits(runs: seq<Glyph>, g: Glyph, gap: real)
    requires DigitRuns(runs) && AllDigits(g.text)
    ensures DigitRuns(Absorb(runs, g, gap))
  {
    var r := Absorb(runs, g, gap);
    if |runs| > 0 {
      var p := runs[|runs| - 1];
      assert AllDigits(p.text);
      ConcatDigits(p.text, g.text);
      forall i | 0 <= i < |r| ensures AllDigits(r[i].text) {
        if i < |runs| - 1 {
          assert r[i] == runs[i];
        } else if g.x0 - p.x1 > gap && i == |runs| - 1 {
          assert r[i] == p;
        }
      }
    }
  }

  /** Merging digit strings gives digit strings. */
  lemma {:induction false} MergeRunsDigits(gs: seq<Glyph>, gap: real)
    requires DigitRuns(gs)
    ensures DigitRuns(MergeRuns(gs, gap))
  {
    if |gs| > 0 {
      var init := gs[..|gs| - 1];
      assert DigitRuns(init) by {
        forall i | 0 <= i < |init| ensures AllDigits(init[i].text) { assert init[i] == gs[i]; }
      }
      MergeRunsDigits(init, gap);
      AbsorbDigits(MergeRuns(init, gap), gs[|gs| - 1], gap);
    }
  }

  lemma ConcatDigits(a: string, b: string)
    requires AllDigits(a) && AllDigits(b)
    ensures AllDigits(a + b)
  {
    assert forall i :: 0 <= i < |b| ==> (a + b)[|a| + i] == b[i];
  }

  // ------------------------------------------------------------ tokens

  function XKey(g: Glyph): real { g.x0 }

  function ToToken(r: Glyph, pageH: real): Token {
    Token(r.text, r.x0, r.x1, r.top, LogPdfFit.PdfY(pageH, r.top))
  }

  function ToTokens(rs: seq<Glyph>, pageH: real): (ts: seq<Token>)
    ensures |ts| == |rs|
  {
    if |rs| == 0 then [] else ToTokens(rs[..|rs| - 1], pageH) + [ToToken(rs[|rs| - 1], pageH)]
  }

  lemma {:induction false} ToTokensAt(rs: seq<Glyph>, pageH: real)
    ensures forall i :: 0 <= i < |rs| ==> ToTokens(rs, pageH)[i] == ToToken(rs[i], pageH)
  {
    if |rs| > 0 {
      ToTokensAt(rs[..|rs| - 1], pageH);
    }
  }

  /** A line's runs: its characters sorted (stably) by x0, then merged. */
  function LineRuns(l: Line, gap: real): seq<Glyph> {
    MergeRuns(SortBy(l.glyphs, XKey), gap)
  }

  /** The unfiltered items, line by line. */
  function RawTokens(lines: seq<Line>, gap: real, pageH: real): seq<Token> {
    if |lines| == 0 then []
    else RawTokens(lines[..|lines| - 1], gap, pageH) + ToTokens(LineRuns(lines[|lines| - 1], gap), pageH)
  }

  /** `NUM_RE = ^\d{2,4}$`. */
  predicate IsDepthNumber(s: string) { 2 <= |s| <= 4 && AllDigits(s) }

  /** Upper-cased with the full-width colon made ASCII. */
  function Folded(s: string): string { ReplaceChar(Upper(s), '\U{ff1a}', ':') }

  /** The depth header words looked for by the title filter. */
  predicate HasDepthWord(u: string) {
    Contains(u, "DEPTH") || Contains(u, "井深") || Contains(u, "深度") || Contains(u, "MD")
  }

  /** The digit-mode test on the stripped text. */
  predicate KeepNumber(s: string) { IsDepthNumber(Strip(s)) }

  /** The title-mode test on the stripped text. */
  predicate KeepTitle(s: string) { HasDepthWord(Folded(Strip(s))) }

  /** The final filter on the stripped text. */
  predicate Keep(t: Token, digits: bool) {
    if digits then KeepNumber(t.text) else KeepTitle(t.text)
  }

  function KeepTokens(ts: seq<Token>, digits: bool): seq<Token> {
    Filter(ts, t => Keep(t, digits))
  }

  /** The filter keeps exactly the items that pass. */
  lemma KeepTokensExact(ts: seq<Token>, digits: bool)
    ensures forall t :: t in KeepTokens(ts, digits) <==> t in ts && Keep(t, digits)
  {
    FilterExact(ts, t => Keep(t, digits));
  }

  /** `_chars_to_tokens` as a function of its inputs. */
  function Tokens(cs: seq<Glyph>, digits: bool, pageH: real, lineTol: real, gapTol: real): seq<Token> {
    KeepTokens(RawTokens(GroupLines(cs, digits, lineTol), gapTol, pageH), digits)
  }

  /** `_chars_to_tokens`: group characters into lines, merge each line's runs,
    * keep the tokens the mode asks for. */
  method CharsToTokens(cs: seq<Glyph>, digits: bool, pageH: real, lineTol: real, gapTol: real)
    returns (out: seq<Token>)
    ensures out == Tokens(cs, digits, pageH, lineTol, gapTol)
  {
    var lines := GroupChars(cs, digits, lineTol);
    var items: seq<Token> := [];
    var li := 0;
    while li < |lines|
      invariant 0 <= li <= |lines|
      invariant items == RawTokens(lines[..li], gapTol, pageH)
    {
      var lineItems := LineItems(lines[li], gapTol, pageH);
      RawTokensStep(lines, li, gapTol, pageH);
      items := items + lineItems;
      li := li + 1;
    }
    assert lines[..|lines|] == lines;
    out := FilterTokens(items, digits);
  }

  /** The first loop: each accepted character joins the first line within
    * `tol` of its top, or opens a new line. */
  method GroupChars(cs: seq<Glyph>, digits: bool, tol: real) returns (lines: seq<Line>)
    ensures lines == GroupLines(cs, digits, tol)
  {
    lines := [];
    var i := 0;
    while i < |cs|
      invariant 0 <= i <= |cs|
      invariant lines == GroupLines(cs[..i], digits, tol)
    {
      var c := cs[i];
      assert cs[..i + 1][..i] == cs[..i];
      if Accepts(c, digits) {
        var k := 0;
        while k < |lines| && !Near(lines[k], c.top, tol)
          invariant 0 <= k <= |lines|
          invariant forall j :: 0 <= j < k ==> !Near(lines[j], c.top, tol)
        {
          k := k + 1;
        }
        assert k == FirstNear(lines, c.top, tol);
        if k < |lines| {
          lines := lines[k := Line(lines[k].top, lines[k].glyphs + [c])];
        } else {
          lines := lines + [Line(c.top, [c])];
        }
      }
      i := i + 1;
    }
    assert cs[..|cs|] == cs;
  }

  /** The last loop: keep the items whose stripped text passes the mode's test. */
  method FilterTokens(items: seq<Token>, digits: bool) returns (out: seq<Token>)
    ensures out == KeepTokens(items, digits)
  {
    out := [];
    var t := 0;
    while t < |items|
      invariant 0 <= t <= |items|
      invariant out == KeepTokens(items[..t], digits)
    {
      assert items[..t + 1][..t] == items[..t];
      if Keep(items[t], digits) {
        out := out + [items[t]];
      }
      t := t + 1;
    }
    assert items[..|items|] == items;
  }

  lemma AbsorbPending(pushed: seq<Glyph>, p: Glyph, g: Glyph, gap: real)
    ensures Absorb(pushed + [p], g, gap)
      == if g.x0 - p.x1 <= gap then Pending(pushed, Some(Glue(p, g))) else Pending(pushed + [p], Some(g))
  {
    assert (pushed + [p])[..|pushed|] == pushed;
  }

  /** The merge loop over one sorted line, pushing a token whenever a gap ends a run. */
  method LineItems(l: Line, gap: real, pageH: real) returns (items: seq<Token>)
    ensures items == ToTokens(LineRuns(l, gap), pageH)
  {
    var sorted := SortBy(l.glyphs, XKey);
    items := [];
    var buf: Option<Glyph> := None;
    ghost var pushed: seq<Glyph> := [];
    var j := 0;
    while j < |sorted|
      invariant 0 <= j <= |sorted|
      invariant buf.None? <==> j == 0
      invariant MergeRuns(sorted[..j], gap) == Pending(pushed, buf)
      invariant items == ToTokens(pushed, pageH)
    {
      var g := sorted[j];
      MergeRunsStep(sorted, j, gap);
      if buf.None? {
        buf := Some(g);
      } else {
        var p := buf.value;
        AbsorbPending(pushed, p, g, gap);
        if g.x0 - p.x1 <= gap {
          buf := Some(Glue(p, g));
        } else {
          ToTokensSnoc(pushed, p, pageH);
          items := items + [ToToken(p, pageH)];
          pushed := pushed + [p];
          buf := Some(g);
        }
      }
      j := j + 1;
    }
    assert sorted[..|sorted|] == sorted;
    if buf.Some? {
      ToTokensSnoc(pushed, buf.value, pageH);
      items := items + [ToToken(buf.value, pageH)];
      pushed := pushed + [buf.value];
    }
  }

  /** The runs already emitted followed by the one still open. */
  function Pending(pushed: seq<Glyph>, buf: Option<Glyph>): seq<Glyph> {
    if buf.None? then pushed else pushed + [buf.value]
  }

  lemma RawTokensStep(lines: seq<Line>, li: int, gap: real, pageH: real)
    requires 0 <= li < |lines|
    ensures RawTokens(lines[..li + 1], gap, pageH) == RawTokens(lines[..li], gap, pageH) + ToTokens(LineRuns(lines[li], gap), pageH)
  {
    assert lines[..li + 1][..li] == lines[..li];
  }

  lemma MergeRunsStep(gs: seq<Glyph>, j: int, gap: real)
    requires 0 <= j < |gs|
    ensures MergeRuns(gs[..j + 1], gap) == Absorb(MergeRuns(gs[..j], gap), gs[j], gap)
  {
    assert gs[..j + 1][..j] == gs[..j];
  }

  lemma ToTokensSnoc(rs: seq<Glyph>, r: Glyph, pageH: real)
    ensures ToTokens(rs + [r], pageH) == ToTokens(rs, pageH) + [ToToken(r, pageH)]
  {
    assert (rs + [r])[..|rs|] == rs;
  }

  // ------------------------------------------------------------ properties of the tokens

  /** No characters, no tokens. */
  lemma NoCharsNoTokens(digits: bool, pageH: real, lineTol: real, gapTol: real)
    ensures Tokens([], digits, pageH, lineTol, gapTol) == []
  {
  }

  /** Every token's y is the page height minus its top. */
  lemma {:induction false} RawTokensY(lines: seq<Line>, gap: real, pageH: real)
    ensures forall t :: t in RawTokens(lines, gap, pageH) ==> t.yPdf == pageH - t.top
  {
    if |lines| > 0 {
      RawTokensY(lines[..|lines| - 1], gap, pageH);
      ToTokensAt(LineRuns(lines[|lines| - 1], gap), pageH);
    }
  }

  lemma TokensY(cs: seq<Glyph>, digits: bool, pageH: real, lineTol: real, gapTol: real)
    ensures forall t :: t in Tokens(cs, digits, pageH, lineTol, gapTol) ==> t.yPdf == pageH - t.top
  {
    var raw := RawTokens(GroupLines(cs, digits, lineTol), gapTol, pageH);
    RawTokensY(GroupLines(cs, digits, lineTol), gapTol, pageH);
    KeepTokensExact(raw, digits);
  }

  /** Every character held by the lines is a digit string. */
  predicate DigitGlyphs(ls: seq<Line>) {
    forall i, j :: 0 <= i < |ls| && 0 <= j < |ls[i].glyphs| ==> AllDigits(ls[i].glyphs[j].text)
  }

  lemma PlaceDigits(ls: seq<Line>, g: Glyph, tol: real)
    requires DigitGlyphs(ls) && AllDigits(g.text)
    ensures DigitGlyphs(Place(ls, g, tol))
  {
    var k := FirstNear(ls, g.top, tol);
    var r := Place(ls, g, tol);
    forall i, j | 0 <= i < |r| && 0 <= j < |r[i].glyphs| ensures AllDigits(r[i].glyphs[j].text) {
      if i < |ls| && (i != k || j < |ls[i].glyphs|) {
        assert r[i].glyphs[j] == ls[i].glyphs[j];
      } else {
        assert r[i].glyphs[j] == g;
      }
    }
  }

  /** In digit mode every line holds only digit strings. */
  lemma {:induction false} DigitLines(cs: seq<Glyph>, tol: real)
    ensures DigitGlyphs(GroupLines(cs, true, tol))
  {
    if |cs| > 0 {
      var init, g := cs[..|cs| - 1], cs[|cs| - 1];
      DigitLines(init, tol);
      if Accepts(g, true) {
        PlaceDigits(GroupLines(init, true, tol), g, tol);
      }
    }
  }

  lemma SortedDigits(gs: seq<Glyph>)
    requires DigitRuns(gs)
    ensures DigitRuns(SortBy(gs, XKey))
  {
    var sorted := SortBy(gs, XKey);
    SortByKeepsElements(gs, XKey);
    forall i | 0 <= i < |sorted| ensures AllDigits(sorted[i].text) {
      assert sorted[i] in multiset(gs);
      var j :| 0 <= j < |gs| && gs[j] == sorted[i];
    }
  }

  lemma {:induction false} RawDigitTokens(lines: seq<Line>, gap: real, pageH: real)
    requires DigitGlyphs(lines)
    ensures DigitTokens(RawTokens(lines, gap, pageH))
  {
    if |lines| > 0 {
      var n := |lines| - 1;
      var init := lines[..n];
      assert DigitGlyphs(init) by {
        forall i, j | 0 <= i < |init| && 0 <= j < |init[i].glyphs| ensures AllDigits(init[i].glyphs[j].text) {
          assert init[i] == lines[i];
        }
      }
      RawDigitTokens(init, gap, pageH);
      assert DigitRuns(lines[n].glyphs);
      SortedDigits(lines[n].glyphs);
      MergeRunsDigits(SortBy(lines[n].glyphs, XKey), gap);
      ToTokensAt(LineRuns(lines[n], gap), pageH);
      var last := ToTokens(LineRuns(lines[n], gap), pageH);
      assert RawTokens(lines, gap, pageH) == RawTokens(init, gap, pageH) + last;
    }
  }

  /** A digit-mode token that passes the filter is a depth number. */
  lemma KeptDigits(s: string)
    requires AllDigits(s) && KeepNumber(s)
    ensures IsDepthNumber(s)
  {
    StripNoop(s);
  }

  /** Every token's text is a digit string. */
  predicate DigitTokens(ts: seq<Token>) {
    forall k :: 0 <= k < |ts| ==> AllDigits(ts[k].text)
  }

  lemma KeptDigitTokens(raw: seq<Token>)
    requires DigitTokens(raw)
    ensures forall t :: t in KeepTokens(raw, true) ==> IsDepthNumber(t.text)
  {
    KeepTokensExact(raw, true);
    forall t | t in KeepTokens(raw, true) ensures IsDepthNumber(t.text) {
      var m :| 0 <= m < |raw| && raw[m] == t;
      KeptDigits(t.text);
    }
  }

  /** Digit-mode tokens are exactly two to four ASCII digits. */
  lemma DigitTokensAreNumbers(cs: seq<Glyph>, pageH: real, lineTol: real, gapTol: real)
    ensures forall t :: t in Tokens(cs, true, pageH, lineTol, gapTol) ==> IsDepthNumber(t.text)
  {
    var lines := GroupLines(cs, true, lineTol);
    DigitLines(cs, lineTol);
    RawDigitTokens(lines, gapTol, pageH);
    KeptDigitTokens(RawTokens(lines, gapTol, pageH));
  }

  /** Title-mode tokens carry a depth word once upper-cased and stripped. */
  lemma TitleTokensHaveWord(cs: seq<Glyph>, pageH: real, lineTol: real, gapTol: real)
    ensures forall t :: t in Tokens(cs, false, pageH, lineTol, gapTol) ==> HasDepthWord(Folded(Strip(t.text)))
  {
    var raw := RawTokens(GroupLines(cs, false, lineTol), gapTol, pageH);
    KeepTokensExact(raw, false);
  }

  // ------------------------------------------------------------ header bands

  /** A header band `{x0, x1, y, score}`. */
  datatype Band = Band(x0: real, x1: real, y: real, score: real)

  /** 1.0 for 井深 / 深度 / DEPTH, 0.9 for an MD-only header. */
  function BandScore(u: string): (r: real)
    ensures r == 1.0 <==> Contains(u, "井深") || Contains(u, "深度") || Contains(u, "DEPTH")
    ensures r == 0.9 <==> !(Contains(u, "井深") || Contains(u, "深度") || Contains(u, "DEPTH"))
  {
    if FullDepthWord(u) then 1.0 else 0.9
  }

  /** The text holds 井深, 深度 or DEPTH: a full depth title, not only MD. */
  predicate FullDepthWord(u: string) {
    Contains(u, "井深") || Contains(u, "深度") || Contains(u, "DEPTH")
  }

  /** The token, upper-cased with the full-width colon folded, holds a depth word. */
  predicate IsTitle(t: Token) { HasDepthWord(Folded(t.text)) }

  /** The band of a title token: 12 to its left, 80 to its right. */
  function TitleBand(t: Token): Band {
    Band(t.x0 - 12.0, t.x1 + 80.0, t.yPdf, BandScore(Folded(t.text)))
  }

  /** The bands of the title tokens that hold a depth word, in token order. */
  function BandsOf(ts: seq<Token>): (bs: seq<Band>)
    ensures |bs| <= |ts|
  {
    if |ts| == 0 then []
    else
      var rest := BandsOf(ts[..|ts| - 1]);
      var t := ts[|ts| - 1];
      if IsTitle(t) then rest + [TitleBand(t)] else rest
  }

  /** `_find_depth_bands_by_chars`: title tokens with line tolerance 3 and gap 6. */
  function FindBands(cs: seq<Glyph>, pageH: real): seq<Band> {
    BandsOf(Tokens(cs, false, pageH, 3.0, 6.0))
  }

  lemma BandsOfStep(ts: seq<Token>, i: int)
    requires 0 <= i < |ts|
    ensures BandsOf(ts[..i + 1]) == BandsOf(ts[..i]) + (if IsTitle(ts[i]) then [TitleBand(ts[i])] else [])
  {
    assert ts[..i + 1][..i] == ts[..i];
  }

  /** The band loop of `_find_depth_bands_by_chars`. */
  method FindBandsByChars(cs: seq<Glyph>, pageH: real) returns (bands: seq<Band>)
    ensures bands == FindBands(cs, pageH)
  {
    var ts := CharsToTokens(cs, false, pageH, 3.0, 6.0);
    bands := [];
    var i := 0;
    while i < |ts|
      invariant 0 <= i <= |ts|
      invariant bands == BandsOf(ts[..i])
    {
      BandsOfStep(ts, i);
      if IsTitle(ts[i]) {
        bands := bands + [TitleBand(ts[i])];
      }
      i := i + 1;
    }
    assert ts[..|ts|] == ts;
  }

  /** Each band is the band of a title token of its own: it widens that token
    * by 12 on the left and 80 on the right, and scores 1.0 exactly when the
    * folded text holds 井深, 深度 or DEPTH, 0.9 otherwise. */
  lemma {:induction false} BandShape(ts: seq<Token>)
    ensures forall b :: b in BandsOf(ts) ==> exists t :: t in ts && IsTitle(t) && b == TitleBand(t)
    ensures forall b :: b in BandsOf(ts) ==> exists t :: t in ts && b.x0 == t.x0 - 12.0 && b.x1 == t.x1 + 80.0 && b.y == t.yPdf
                                                  && (b.score == 1.0 <==> FullDepthWord(Folded(t.text))) && (b.score == 0.9 <==> !FullDepthWord(Folded(t.text)))
  {
    if |ts| > 0 {
      var init := ts[..|ts| - 1];
      BandShape(init);
      forall b | b in BandsOf(ts)
        ensures exists t :: t in ts && IsTitle(t) && b == TitleBand(t)
      {
        if b in BandsOf(init) {
          var t' :| t' in init && IsTitle(t') && b == TitleBand(t');
          assert t' in ts;
        } else {
          assert ts[|ts| - 1] in ts;
        }
      }
      forall b | b in BandsOf(ts)
        ensures exists t :: t in ts && b.x0 == t.x0 - 12.0 && b.x1 == t.x1 + 80.0 && b.y == t.yPdf
                          && (b.score == 1.0 <==> FullDepthWord(Folded(t.text))) && (b.score == 0.9 <==> !FullDepthWord(Folded(t.text)))
      {
        var t :| t in ts && IsTitle(t) && b == TitleBand(t);
        var r := BandScore(Folded(t.text));
      }
    }
  }

  // Folding and stripping commute with taking a substring, so a word found in
  // the stripped text is also found in the whole text.

  lemma FoldedSlice(s: string, i: int, j: int)
    requires 0 <= i <= j <= |s|
    ensures Folded(s[i..j]) == Folded(s)[i..j]
  {
  }

  lemma ContainsWidens(s: string, i: int, j: int, w: string)
    requires 0 <= i <= j <= |s|
    requires Contains(s[i..j], w)
    ensures Contains(s, w)
  {
    var u := s[i..j];
    var k :| 0 <= k <= |u| - |w| && OccursAt(u, w, k);
    assert u[k..k + |w|] == w;
    var a, b := s[i + k..i + k + |w|], u[k..k + |w|];
    forall m | 0 <= m < |w| ensures a[m] == b[m] {
      assert b[m] == u[k + m] == s[i + k + m];
    }
    assert a == b;
    assert OccursAt(s, w, i + k);
  }

  lemma WordSurvives(s: string)
    requires HasDepthWord(Folded(Strip(s)))
    ensures HasDepthWord(Folded(s))
  {
    var i, j := StripIsSlice(s);
    FoldedSlice(s, i, j);
    var u := Folded(s);
    if Contains(u[i..j], "DEPTH") { ContainsWidens(u, i, j, "DEPTH"); }
    if Contains(u[i..j], "井深") { ContainsWidens(u, i, j, "井深"); }
    if Contains(u[i..j], "深度") { ContainsWidens(u, i, j, "深度"); }
    if Contains(u[i..j], "MD") { ContainsWidens(u, i, j, "MD"); }
  }

  /** The band check never drops a title token: there is one band per token. */
  lemma {:induction false} OneBandPerTitleToken(ts: seq<Token>)
    requires forall t :: t in ts ==> HasDepthWord(Folded(Strip(t.text)))
    ensures |BandsOf(ts)| == |ts|
  {
    if |ts| > 0 {
      var init := ts[..|ts| - 1];
      assert forall t :: t in init ==> t in ts;
      OneBandPerTitleToken(init);
      assert ts[|ts| - 1] in ts;
      WordSurvives(ts[|ts| - 1].text);
    }
  }

  lemma BandsOfTitleTokens(cs: seq<Glyph>, pageH: real)
    ensures |FindBands(cs, pageH)| == |Tokens(cs, false, pageH, 3.0, 6.0)|
  {
    TitleTokensHaveWord(cs, pageH, 3.0, 6.0);
    OneBandPerTitleToken(Tokens(cs, false, pageH, 3.0, 6.0));
  }
}
