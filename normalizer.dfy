/** The normalisation service of app/normalizer.py: full-width to half-width
  * text clean-up, the depth-specific variant, path tokens, and the canonical
  * sample type and category with their rejection flags. */
module Normalizer {
  import opened Text
  import opened Regex

  // ------------------------------------------------------------ the FULL_TO_HALF table

  /** The punctuation entries of `FULL_TO_HALF` (the full-width space included). */
  function PunctHalf(c: char): Option<char> {
    match c
    case '，' => Some(',')
    case '。' => Some('.')
    case '：' => Some(':')
    case '【' => Some('[')
    case '】' => Some(']')
    case '（' => Some('(')
    case '）' => Some(')')
    case '％' => Some('%')
    case '＋' => Some('+')
    case '－' => Some('-')
    case '；' => Some(';')
    case '、' => Some(',')
    case '　' => Some(' ')
    case _ => None
  }

  /** A key of `FULL_TO_HALF`: the punctuation, Ａ-Ｚ, ａ-ｚ and ０-９. */
  predicate IsWide(c: char) { PunctHalf(c).Some? || IsFullWidthAlnum(c) }

  /** One character through `str.translate(FULL_TO_HALF)`; full-width letters
    * and digits sit 0xFEE0 above their ASCII forms. */
  function Half(c: char): (h: char)
    ensures !IsWide(h)
    ensures !IsWide(c) ==> h == c
  {
    match PunctHalf(c)
    case Some(h) => h
    case None => if IsFullWidthAlnum(c) then (c as int - 0xFEE0) as char else c
  }

  // ------------------------------------------------------------ normalize_text

  /** `s.translate(table)` for a table given as a character function. */
  function TranslateWith(s: string, half: char -> char): (r: string)
    ensures |r| == |s| && forall i :: 0 <= i < |s| ==> r[i] == half(s[i])
  {
    seq(|s|, i requires 0 <= i < |s| => half(s[i]))
  }

  /** A character of the class `[ \t]`. */
  predicate IsBlank(c: char) { c == ' ' || c == '\t' }

  /** Drops the leading blanks. */
  function SkipBlanks(s: string): (r: string)
    ensures IsSuffix(r, s)
    ensures |r| > 0 ==> !IsBlank(r[0])
    ensures forall i :: 0 <= i < |s| - |r| ==> IsBlank(s[i])
  {
    if |s| > 0 && IsBlank(s[0]) then SkipBlanks(s[1..]) else s
  }

  /** `re.sub(r"[ \t]+", " ", s)`: every run of spaces and tabs becomes one space. */
  function Collapse(s: string): (r: string)
    ensures |s| > 0 ==> |r| > 0 && r[0] == (if IsBlank(s[0]) then ' ' else s[0])
    decreases |s|
  {
    if |s| == 0 then ""
    else if IsBlank(s[0]) then " " + Collapse(SkipBlanks(s[1..]))
    else [s[0]] + Collapse(s[1..])
  }

  /** No two spaces in a row. */
  predicate NoDoubleSpace(s: string) {
    forall i :: 0 <= i < |s| - 1 ==> !(s[i] == ' ' && s[i + 1] == ' ')
  }

  lemma HasCharConcat(a: string, b: string, c: char)
    ensures HasChar(a + b, c) <==> HasChar(a, c) || HasChar(b, c)
  {
    if HasChar(a + b, c) {
      var k :| 0 <= k < |a + b| && (a + b)[k] == c;
      if k >= |a| { assert b[k - |a|] == c; }
    }
    if HasChar(a, c) {
      var k :| 0 <= k < |a| && a[k] == c;
      assert (a + b)[k] == c;
    }
    if HasChar(b, c) {
      var k :| 0 <= k < |b| && b[k] == c;
      assert (a + b)[k + |a|] == c;
    }
  }

  /** Collapsing leaves no tab and no double space, and keeps exactly the
    * characters other than spaces and tabs. */
  lemma {:induction false} CollapseClean(s: string)
    ensures !HasChar(Collapse(s), '\t') && NoDoubleSpace(Collapse(s))
    ensures forall c :: !IsBlank(c) ==> (HasChar(Collapse(s), c) <==> HasChar(s, c))
    decreases |s|
  {
    if |s| > 0 {
      var r := Collapse(s);
      if IsBlank(s[0]) {
        var t := SkipBlanks(s[1..]);
        CollapseClean(t);
        var blanks := s[..|s| - |t|];
        assert s == blanks + t;
        assert r == " " + Collapse(t);
        forall c | !IsBlank(c) ensures HasChar(r, c) <==> HasChar(s, c) {
          HasCharConcat(" ", Collapse(t), c);
          HasCharConcat(blanks, t, c);
        }
        HasCharConcat(" ", Collapse(t), '\t');
      } else {
        var t := s[1..];
        CollapseClean(t);
        assert s == [s[0]] + t;
        assert r == [s[0]] + Collapse(t);
        forall c | !IsBlank(c) ensures HasChar(r, c) <==> HasChar(s, c) {
          HasCharConcat([s[0]], Collapse(t), c);
          HasCharConcat([s[0]], t, c);
        }
        HasCharConcat([s[0]], Collapse(t), '\t');
      }
    }
  }

  /** A string without tabs or double spaces is its own collapse. */
  lemma {:induction false} CollapseNoop(s: string)
    requires !HasChar(s, '\t') && NoDoubleSpace(s)
    ensures Collapse(s) == s
    decreases |s|
  {
    if |s| > 0 {
      var t := s[1..];
      forall k | 0 <= k < |t| ensures t[k] != '\t' {
        assert t[k] == s[k + 1];
      }
      assert NoDoubleSpace(t) by {
        forall i | 0 <= i < |t| - 1 ensures !(t[i] == ' ' && t[i + 1] == ' ') {
          assert t[i] == s[i + 1] && t[i + 1] == s[i + 2];
        }
      }
      CollapseNoop(t);
      if IsBlank(s[0]) {
        assert s[0] == ' ';
        assert SkipBlanks(t) == t by {
          if |t| > 0 {
            assert t[0] == s[1];
            assert s[1] != '\t';
          }
        }
      }
    }
  }

  /** The clean-up both versions share: translate, turn backslashes into
    * slashes, collapse spaces and tabs, strip; empty input comes back as is. */
  function NormalizeWith(s: string, half: char -> char): string {
    if |s| == 0 then s
    else Strip(Collapse(ReplaceChar(TranslateWith(s, half), '\\', '/')))
  }

  /** The shape of a normalised string. */
  predicate Tidy(r: string) {
    && !HasChar(r, '\\')
    && !HasChar(r, '\t')
    && NoDoubleSpace(r)
    && (|r| > 0 ==> !IsSpace(r[0]) && !IsSpace(r[|r| - 1]))
  }

  /** A character of the input after translation and the backslash rewrite. */
  predicate Image(s: string, half: char -> char, c: char) {
    exists i :: 0 <= i < |s| && c == (if half(s[i]) == '\\' then '/' else half(s[i]))
  }

  lemma SliceKeeps(s: string, i: int, j: int, c: char)
    requires 0 <= i <= j <= |s|
    ensures HasChar(s[i..j], c) ==> HasChar(s, c)
    ensures NoDoubleSpace(s) ==> NoDoubleSpace(s[i..j])
  {
    if HasChar(s[i..j], c) {
      var k :| 0 <= k < j - i && s[i..j][k] == c;
      assert s[i + k] == c;
    }
    if NoDoubleSpace(s) {
      var t := s[i..j];
      forall k | 0 <= k < |t| - 1 ensures !(t[k] == ' ' && t[k + 1] == ' ') {
        assert t[k] == s[i + k] && t[k + 1] == s[i + k + 1];
      }
    }
  }

  /** Translation and the backslash rewrite leave no backslash, and only
    * characters that are images of the input. */
  lemma RewrittenChars(s: string, half: char -> char)
    ensures !HasChar(ReplaceChar(TranslateWith(s, half), '\\', '/'), '\\')
    ensures forall c :: HasChar(ReplaceChar(TranslateWith(s, half), '\\', '/'), c) ==> Image(s, half, c)
  {
  }

  /** The result is tidy, and each of its characters is a space or an input
    * character after translation (a backslash turned into '/'). */
  lemma NormalizeWithTidy(s: string, half: char -> char)
    ensures Tidy(NormalizeWith(s, half))
    ensures forall c :: HasChar(NormalizeWith(s, half), c) ==> c == ' ' || Image(s, half, c)
  {
    if |s| > 0 {
      var u := ReplaceChar(TranslateWith(s, half), '\\', '/');
      RewrittenChars(s, half);
      var v := Collapse(u);
      CollapseClean(u);
      var i, j := StripIsSlice(v);
      var r := NormalizeWith(s, half);
      assert r == v[i..j];
      SliceKeeps(v, i, j, '\t');
      SliceKeeps(v, i, j, '\\');
      forall c | HasChar(r, c) ensures c == ' ' || Image(s, half, c) {
        SliceKeeps(v, i, j, c);
      }
    }
  }

  /** A tidy string that the table leaves alone is its own normal form. */
  lemma NormalizeWithFixed(r: string, half: char -> char)
    requires Tidy(r) && forall i :: 0 <= i < |r| ==> half(r[i]) == r[i]
    ensures NormalizeWith(r, half) == r
  {
    if |r| > 0 {
      var t := TranslateWith(r, half);
      assert t == r;
      assert ReplaceChar(r, '\\', '/') == r;
      CollapseNoop(r);
      StripNoop(r);
    }
  }

  lemma NoWideImage(s: string, c: char)
    requires IsWide(c)
    ensures !Image(s, Half, c) && c != ' '
  {
    forall i | 0 <= i < |s| ensures c != (if Half(s[i]) == '\\' then '/' else Half(s[i])) {
      var h := Half(s[i]);
      assert !IsWide(h);
    }
  }

  /** `Normalizer.normalize_text`. */
  function NormalizeText(s: string): string { NormalizeWith(s, Half) }

  /** The output has no backslash, no tab, no double space, no white space at
    * either end, and no key of `FULL_TO_HALF`. */
  lemma NormalizeTextClean(s: string)
    ensures Tidy(NormalizeText(s))
    ensures forall c :: IsWide(c) ==> !HasChar(NormalizeText(s), c)
  {
    NormalizeWithTidy(s, Half);
    forall c | IsWide(c) ensures !HasChar(NormalizeText(s), c) {
      NoWideImage(s, c);
    }
  }

  /** Normalising twice is normalising once. */
  lemma NormalizeTextIdempotent(s: string)
    ensures NormalizeText(NormalizeText(s)) == NormalizeText(s)
  {
    var r := NormalizeText(s);
    NormalizeTextClean(s);
    forall i | 0 <= i < |r| ensures Half(r[i]) == r[i] {
      assert HasChar(r, r[i]);
    }
    NormalizeWithFixed(r, Half);
  }

  // ------------------------------------------------------------ normalize_for_depth

  /** `\\bto\\b` as the raw string reads: a backslash, b, t, o, a backslash, b
    * (any case, under IGNORECASE). */
  const BackslashTo: Re :=
    Cat(Lit('\\'), Cat(Either('b', 'B'), Cat(Either('t', 'T'), Cat(Either('o', 'O'), Cat(Lit('\\'), Either('b', 'B'))))))

  /** `(—|~|\\bto\\b)` under IGNORECASE. */
  const DashPattern: Re := Group(1, Alt(Lit('—'), Alt(Lit('~'), BackslashTo)))

  /** `(?<=\\d),(?=\\d{3}\\b)`: both look-arounds read a literal backslash. */
  const ThousandsPattern: Re :=
    Cat(Behind(Cat(Lit('\\'), Lit('d')), 2),
        Cat(Lit(','), Ahead(Cat(Lit('\\'), Cat(Between(Lit('d'), 3, 3), Cat(Lit('\\'), Lit('b')))), true)))

  /** `(?<=\\d),(?=\\d+\\b)`. */
  const DecimalPattern: Re :=
    Cat(Behind(Cat(Lit('\\'), Lit('d')), 2),
        Cat(Lit(','), Ahead(Cat(Lit('\\'), Cat(Plus(Lit('d')), Cat(Lit('\\'), Lit('b')))), true)))

  /** `m[)\\].,]*\\b` under IGNORECASE: m, one of ')' and backslash, any
    * character, a comma, any number of ']', a backslash and b. */
  const UnitNoisePattern: Re :=
    Cat(Either('m', 'M'), Cat(Set([Range(')', ')'), Range('\\', '\\')], false),
      Cat(AnyChar, Cat(Lit(','), Cat(Star(Lit(']'), true), Cat(Lit('\\'), Either('b', 'B')))))))

  predicate IsDash(c: char) { c == '—' || c == '~' }

  /** The four substitutions of `normalize_for_depth`, in order. */
  function DepthRewrite(t: string): string {
    var u := Sub(DashPattern, t, "-");
    var v := Sub(ThousandsPattern, u, "");
    var w := Sub(DecimalPattern, v, ".");
    Sub(UnitNoisePattern, w, "m")
  }

  /** `Normalizer.normalize_for_depth`. */
  function NormalizeForDepth(s: string): string { DepthRewrite(NormalizeText(s)) }

  /** On a string without backslashes the dash pattern matches exactly the
    * dashes and tildes, one character at a time. */
  lemma DashOneChar(s: string)
    requires !HasChar(s, '\\')
    ensures OneCharPattern(DashPattern, s, IsDash)
  {
    forall i | 0 <= i <= |s| ensures OneCharAt(DashPattern, s, IsDash, i) {
      DashOneCharAt(s, i);
    }
  }

  lemma DashOneCharAt(s: string, i: nat)
    requires !HasChar(s, '\\') && i <= |s|
    ensures OneCharAt(DashPattern, s, IsDash, i)
  {
    var g: map<nat, Span> := map[];
    NeedsAbsent(BackslashTo, '\\', s, i, g);
    var a := Match(Lit('—'), s, i, g);
    var b := Match(Lit('~'), s, i, g);
    assert Match(Alt(Lit('~'), BackslashTo), s, i, g) == b + [];
    var all := Match(Alt(Lit('—'), Alt(Lit('~'), BackslashTo)), s, i, g);
    assert all == a + b;
    assert Match(DashPattern, s, i, g) == Tag(all, 1, i);
    LitMatch('—', s, i, g);
    LitMatch('~', s, i, g);
  }

  /** A one-character literal matches exactly that character. */
  lemma LitMatch(c: char, s: string, i: nat, g: map<nat, Span>)
    requires i <= |s|
    ensures Match(Lit(c), s, i, g) == (if i < |s| && s[i] == c then [Hit(i + 1, g)] else [])
  {
    if i < |s| {
      assert InRanges(s[i], [Range(c, c)]) <==> s[i] == c by {
        if s[i] == c { assert [Range(c, c)][0].lo <= s[i] <= [Range(c, c)][0].hi; }
      }
    }
  }

  /** As written, the last three substitutions need a backslash, which is
    * absent from normalised text, so they never fire: on such text the
    * rewrite turns every dash and tilde into '-' and does nothing else. */
  lemma DepthRewriteAsWritten(t: string)
    requires !HasChar(t, '\\')
    ensures DepthRewrite(t) == MapReplace(t, IsDash, "-")
    ensures !HasChar(DepthRewrite(t), '—') && !HasChar(DepthRewrite(t), '~')
    ensures !HasChar(DepthRewrite(t), '\\')
  {
    DashSubAsWritten(t);
    var u := MapReplace(t, IsDash, "-");
    MapReplaceChars(t, IsDash, "-", '\\');
    MapReplaceChars(t, IsDash, "-", '—');
    MapReplaceChars(t, IsDash, "-", '~');
    LaterSubsIdle(u);
  }

  /** On text without a backslash the dash substitution replaces each dash and tilde. */
  lemma DashSubAsWritten(t: string)
    requires !HasChar(t, '\\')
    ensures Sub(DashPattern, t, "-") == MapReplace(t, IsDash, "-")
  {
    DashOneChar(t);
    SubOneChar(DashPattern, t, IsDash, "-", 0);
    assert t[0..] == t;
  }

  /** The thousands, decimal and unit substitutions leave text without a backslash alone. */
  lemma LaterSubsIdle(u: string)
    requires !HasChar(u, '\\')
    ensures Sub(UnitNoisePattern, Sub(DecimalPattern, Sub(ThousandsPattern, u, ""), "."), "m") == u
  {
    assert Needs(ThousandsPattern, '\\');
    assert Needs(DecimalPattern, '\\');
    assert Needs(UnitNoisePattern, '\\');
    SubAbsent(ThousandsPattern, '\\', u, "");
    SubAbsent(DecimalPattern, '\\', u, ".");
    SubAbsent(UnitNoisePattern, '\\', u, "m");
  }

  /** The depth form is the normalised text with dashes and tildes turned
    * into '-': no '—' or '~' remains. */
  lemma NormalizeForDepthAsWritten(s: string)
    ensures NormalizeForDepth(s) == MapReplace(NormalizeText(s), IsDash, "-")
    ensures !HasChar(NormalizeForDepth(s), '—') && !HasChar(NormalizeForDepth(s), '~')
  {
    NormalizeTextClean(s);
    DepthRewriteAsWritten(NormalizeText(s));
  }

  // ------------------------------------------------------------ tokenize_path

  /** The token class `[0-9A-Za-z\\u4e00-\\u9fa5]` as Python reads the raw
    * string: `\\` is a backslash and `0-\\` a range, so the class is
    * U+0030..U+005C (digits, `:;<=>?@`, capitals, `[` and the backslash)
    * together with a-z; CJK characters fall outside it. */
  predicate TokenChar(c: char) { '0' <= c <= '\\' || 'a' <= c <= 'z' }

  /** The class the pattern evidently means: ASCII letters and digits and the
    * ideographs U+4E00..U+9FA5. */
  predicate IntendedTokenChar(c: char) { IsAlnum(c) || IsHan(c) }

  predicate AllKept(t: string, keep: char -> bool) { forall j :: 0 <= j < |t| ==> keep(t[j]) }

  /** The length of the leading run of kept characters. */
  function RunLength(s: string, keep: char -> bool): (n: nat)
    ensures n <= |s| && AllKept(s[..n], keep) && (n < |s| ==> !keep(s[n]))
  {
    if |s| == 0 || !keep(s[0]) then 0
    else
      var m := RunLength(s[1..], keep);
      assert s[..m + 1] == [s[0]] + s[1..][..m];
      m + 1
  }

  /** `[t for t in re.split(r"[^K]+", p) if t]`: the maximal runs of characters
    * in the class K, in order. */
  function Runs(s: string, keep: char -> bool): (ts: seq<string>)
    ensures forall k :: 0 <= k < |ts| ==> |ts[k]| > 0 && AllKept(ts[k], keep)
    decreases |s|
  {
    if |s| == 0 then []
    else if !keep(s[0]) then Runs(s[1..], keep)
    else
      var n := RunLength(s, keep);
      [s[..n]] + Runs(s[n..], keep)
  }

  /** The tokens of every '/'-separated part, in order. */
  function PartRuns(parts: seq<string>, keep: char -> bool): (ts: seq<string>)
    ensures forall k :: 0 <= k < |ts| ==> |ts[k]| > 0 && AllKept(ts[k], keep)
  {
    if |parts| == 0 then [] else PartRuns(parts[..|parts| - 1], keep) + Runs(parts[|parts| - 1], keep)
  }

  /** The tokens of a normalised path: the runs of every '/'-separated part. */
  function TokensOf(norm: string, keep: char -> bool): seq<string> {
    PartRuns(Split(norm, '/'), keep)
  }

  /** `Normalizer.tokenize_path` as written. */
  function TokenizePath(path: string): seq<string> { TokensOf(NormalizeText(path), TokenChar) }

  /** `tokenize_path` with the class it evidently means. */
  function TokenizePathIntended(path: string): seq<string> { TokensOf(NormalizeText(path), IntendedTokenChar) }

  /** Every token is non-empty and free of '/'; as written, no token holds an
    * ideograph. */
  lemma TokenizePathTokens(path: string)
    ensures forall k :: 0 <= k < |TokenizePath(path)| ==> |TokenizePath(path)[k]| > 0 && !HasChar(TokenizePath(path)[k], '/')
    ensures forall k, j :: 0 <= k < |TokenizePath(path)| && 0 <= j < |TokenizePath(path)[k]| ==> !IsHan(TokenizePath(path)[k][j])
  {
  }

  /** A part made only of kept characters is one token. */
  lemma RunsWhole(s: string, keep: char -> bool)
    requires |s| > 0 && AllKept(s, keep)
    ensures Runs(s, keep) == [s]
  {
    var n := RunLength(s, keep);
    assert n == |s|;
    assert s[..n] == s;
  }

  /** With the intended class every token is non-empty, free of '/', and made
    * of ASCII letters, digits and ideographs; a part of ideographs, letters
    * and digits is kept whole. */
  lemma TokenizePathIntendedTokens(path: string, part: string)
    ensures forall k :: 0 <= k < |TokenizePathIntended(path)| ==>
      |TokenizePathIntended(path)[k]| > 0 && AllKept(TokenizePathIntended(path)[k], IntendedTokenChar)
      && !HasChar(TokenizePathIntended(path)[k], '/')
    ensures |part| > 0 && AllKept(part, IntendedTokenChar) ==> Runs(part, IntendedTokenChar) == [part]
  {
    if |part| > 0 && AllKept(part, IntendedTokenChar) {
      RunsWhole(part, IntendedTokenChar);
    }
  }

  /** The discrepancy on one path part: as written, 岩屑 ("cuttings") gives
    * no token and "a:b" one token; as meant, 岩屑 is a token and "a:b" two. */
  lemma TokenizeFinding()
    ensures Runs("岩屑", TokenChar) == []
    ensures Runs("岩屑", IntendedTokenChar) == ["岩屑"]
    ensures Runs("a:b", TokenChar) == ["a:b"]
    ensures Runs("a:b", IntendedTokenChar) == ["a", "b"]
  {
    TokenizeFindingHan();
    TokenizeFindingColon();
  }

  lemma TokenizeFindingHan()
    ensures Runs("岩屑", TokenChar) == []
    ensures Runs("岩屑", IntendedTokenChar) == ["岩屑"]
  {
    RunsWhole("岩屑", IntendedTokenChar);
    assert "岩屑"[1..] == "屑";
    assert "屑"[1..] == "";
  }

  lemma TokenizeFindingColon()
    ensures Runs("a:b", TokenChar) == ["a:b"]
    ensures Runs("a:b", IntendedTokenChar) == ["a", "b"]
  {
    RunsWhole("a:b", TokenChar);
    var s := "a:b";
    assert RunLength(s, IntendedTokenChar) == 1 by {
      assert s[1..] == ":b";
    }
    assert s[..1] == "a" && s[1..] == ":b";
    assert ":b"[1..] == "b";
    RunsWhole("b", IntendedTokenChar);
  }

  lemma {:induction false} FilterAppend(a: string, b: string, keep: char -> bool)
    ensures Filter(a + b, keep) == Filter(a, keep) + Filter(b, keep)
    decreases |b|
  {
    if |b| > 0 {
      var init := b[..|b| - 1];
      assert (a + b)[..|a + b| - 1] == a + init;
      assert (a + b)[|a + b| - 1] == b[|b| - 1];
      FilterAppend(a, init, keep);
    } else {
      assert a + b == a;
    }
  }

  lemma {:induction false} FilterAllKept(t: string, keep: char -> bool)
    requires AllKept(t, keep)
    ensures Filter(t, keep) == t
    decreases |t|
  {
    if |t| > 0 {
      FilterAllKept(t[..|t| - 1], keep);
      assert t == t[..|t| - 1] + [t[|t| - 1]];
    }
  }

  /** The tokens of one part, run together, are exactly its kept characters:
    * `re.split` on the complement class loses only separators. */
  lemma {:induction false} RunsFilter(s: string, keep: char -> bool)
    ensures Concat(Runs(s, keep)) == Filter(s, keep)
    decreases |s|
  {
    if |s| > 0 {
      if !keep(s[0]) {
        RunsFilter(s[1..], keep);
        RunsFilterSkip(s, keep);
      } else {
        var n := RunLength(s, keep);
        RunsFilter(s[n..], keep);
        RunsFilterTake(s, keep, n);
      }
    }
  }

  /** A separator adds nothing to the tokens or to the kept characters. */
  lemma RunsFilterSkip(s: string, keep: char -> bool)
    requires |s| > 0 && !keep(s[0]) && Concat(Runs(s[1..], keep)) == Filter(s[1..], keep)
    ensures Concat(Runs(s, keep)) == Filter(s, keep)
  {
    FilterAppend([s[0]], s[1..], keep);
    assert [s[0]] + s[1..] == s;
    assert Filter([s[0]], keep) == [];
  }

  /** A run of kept characters is one token. */
  lemma RunsFilterTake(s: string, keep: char -> bool, n: nat)
    requires |s| > 0 && keep(s[0]) && n == RunLength(s, keep)
    requires Concat(Runs(s[n..], keep)) == Filter(s[n..], keep)
    ensures Concat(Runs(s, keep)) == Filter(s, keep)
  {
    var rest := Runs(s[n..], keep);
    assert Runs(s, keep) == [s[..n]] + rest;
    ConcatAppend([s[..n]], rest);
    ConcatOne(s[..n]);
    FilterSplit(s, n, keep);
  }

  lemma ConcatOne(t: string)
    ensures Concat([t]) == t
  {
    assert [t][..0] == [];
  }

  /** Filtering a string whose first n characters are all kept. */
  lemma FilterSplit(s: string, n: nat, keep: char -> bool)
    requires n <= |s| && AllKept(s[..n], keep)
    ensures Filter(s, keep) == s[..n] + Filter(s[n..], keep)
  {
    FilterAppend(s[..n], s[n..], keep);
    assert s[..n] + s[n..] == s;
    FilterAllKept(s[..n], keep);
  }

  // -------------------------------------------------------- canonical labels

  const QcWords: seq<string> := ["效验", "校验", "标样", "样例", "示例", "模板", "谱库", "标准图", "参比"]
  const MudWords: seq<string> := ["泥浆", "钻井液"]
  const CoreWords: seq<string> := ["岩心", "岩芯"]
  const CuttingsWords: seq<string> := ["岩屑"]
  const HotWords: seq<string> := ["热解", "热解分析", "热解谱图"]

  /** A canonical label and whether the file is rejected as a QC/template file. */
  datatype Canon = Canon(value: Option<string>, rejected: bool)

  /** Python's `raw or ""`. */
  function OrEmpty(raw: Option<string>): string { if raw.Some? then raw.value else "" }

  /** Python's `s or None`. */
  function OrNone(s: string): (r: Option<string>)
    ensures r.None? <==> |s| == 0
    ensures r.Some? ==> r.value == s
  {
    if |s| == 0 then None else Some(s)
  }

  /** `canon_sample_type_full`: QC words reject; otherwise mud, core and
    * cuttings words, in that order of precedence, name the sample type;
    * otherwise the raw value (None when empty) is kept. */
  function CanonSampleTypeFull(raw: Option<string>, relPath: string): Canon {
    var p := relPath + " " + OrEmpty(raw);
    if ContainsAny(p, QcWords) then Canon(None, true)
    else if ContainsAny(p, MudWords) then Canon(Some("泥浆"), false)
    else if ContainsAny(p, CoreWords) then Canon(Some("岩心"), false)
    else if ContainsAny(p, CuttingsWords) then Canon(Some("岩屑"), false)
    else Canon(OrNone(OrEmpty(raw)), false)
  }

  lemma KeywordListsSpaceFree()
    ensures SpaceFreeWords(QcWords) && SpaceFreeWords(MudWords) && SpaceFreeWords(CoreWords)
    ensures SpaceFreeWords(CuttingsWords) && SpaceFreeWords(HotWords)
  {
  }

  /** Rejection and precedence, stated on the path and the raw label
    * separately: a keyword counts wherever it occurs in either. QC words
    * reject; then a mud word gives 泥浆, a core word 岩心 and a cuttings
    * word 岩屑; otherwise the raw label is kept. */
  lemma CanonSampleTypeFullCases(raw: Option<string>, relPath: string)
    ensures var c, r := CanonSampleTypeFull(raw, relPath), OrEmpty(raw);
      && (c.rejected <==> ContainsAny(relPath, QcWords) || ContainsAny(r, QcWords))
      && (c.rejected ==> c.value.None?)
      && (!c.rejected && (ContainsAny(relPath, MudWords) || ContainsAny(r, MudWords)) ==> c.value == Some("泥浆"))
      && (c.value == Some("岩心") && !ContainsAny(r, CoreWords) ==> ContainsAny(relPath, CoreWords))
      && ((!c.rejected && !(ContainsAny(relPath, MudWords) || ContainsAny(r, MudWords))
             && (ContainsAny(relPath, CoreWords) || ContainsAny(r, CoreWords)))
            ==> c.value == Some("岩心"))
      && ((!(ContainsAny(relPath, QcWords) || ContainsAny(r, QcWords))
             && !(ContainsAny(relPath, MudWords) || ContainsAny(r, MudWords))
             && !(ContainsAny(relPath, CoreWords) || ContainsAny(r, CoreWords))
             && (ContainsAny(relPath, CuttingsWords) || ContainsAny(r, CuttingsWords)))
            ==> c.value == Some("岩屑"))
      && (!c.rejected && c.value != Some("泥浆") && c.value != Some("岩心") && c.value != Some("岩屑") ==>
            c.value == OrNone(r) && !ContainsAny(r, MudWords + CoreWords + CuttingsWords))
  {
    var r := OrEmpty(raw);
    KeywordListsSpaceFree();
    ContainsAnyJoined(relPath, r, QcWords);
    ContainsAnyJoined(relPath, r, MudWords);
    ContainsAnyJoined(relPath, r, CoreWords);
    ContainsAnyJoined(relPath, r, CuttingsWords);
    if r == "岩心" {
      assert OccursAt(r, CoreWords[0], 0);
    }
    var all := MudWords + CoreWords + CuttingsWords;
    if ContainsAny(r, all) {
      var k :| 0 <= k < |all| && Contains(r, all[k]);
      if k < 2 { assert all[k] == MudWords[k]; }
      else if k < 4 { assert all[k] == CoreWords[k - 2]; }
      else { assert all[k] == CuttingsWords[k - 4]; }
    }
  }

  /** Feeding an accepted result back in as the raw label gives it again. */
  lemma CanonSampleTypeFullStable(raw: Option<string>, relPath: string)
    requires !CanonSampleTypeFull(raw, relPath).rejected
    ensures CanonSampleTypeFull(CanonSampleTypeFull(raw, relPath).value, relPath) == CanonSampleTypeFull(raw, relPath)
  {
    var c := CanonSampleTypeFull(raw, relPath);
    var r, r2 := OrEmpty(raw), OrEmpty(c.value);
    KeywordListsSpaceFree();
    ContainsAnyJoined(relPath, r, QcWords);
    ContainsAnyJoined(relPath, r, MudWords);
    ContainsAnyJoined(relPath, r, CoreWords);
    ContainsAnyJoined(relPath, r, CuttingsWords);
    ContainsAnyJoined(relPath, r2, QcWords);
    ContainsAnyJoined(relPath, r2, MudWords);
    ContainsAnyJoined(relPath, r2, CoreWords);
    ContainsAnyJoined(relPath, r2, CuttingsWords);
    if c.value == Some("泥浆") {
      LabelWords("泥浆");
      assert OccursAt(r2, MudWords[0], 0);
    } else if c.value == Some("岩心") {
      LabelWords("岩心");
      assert OccursAt(r2, CoreWords[0], 0);
    } else if c.value == Some("岩屑") {
      LabelWords("岩屑");
      assert OccursAt(r2, CuttingsWords[0], 0);
    } else {
      assert r2 == r;
    }
  }

  /** The canonical labels carry no QC word and no keyword of a list that
    * takes precedence over them. */
  lemma LabelWords(name: string)
    requires name in ["泥浆", "岩心", "岩屑"]
    ensures !ContainsAny(name, QcWords)
    ensures name != "泥浆" ==> !ContainsAny(name, MudWords)
    ensures name == "岩屑" ==> !ContainsAny(name, CoreWords)
  {
    forall w | w in QcWords + MudWords + CoreWords ensures (w != name ==> !Contains(name, w)) {
      if Contains(name, w) {
        var i :| 0 <= i <= |name| - |w| && OccursAt(name, w, i);
        assert |w| >= 2;
        assert i == 0 && |w| == 2;
        assert w == name[0..2];
        assert name[0..2] == name;
      }
    }
  }

  /** The synonym table of `canon_sample_type_simple`. */
  function SampleSynonym(t: string): Option<string> {
    if t == "岩屽" then Some("岩屑")
    else if t == "岩芯" then Some("岩心")
    else if t == "钻井液" then Some("泥浆")
    else if t == "岩屑岩心" then Some("岩屑")
    else None
  }

  /** `canon_sample_type_simple`: strip, then map a known synonym to its
    * canonical name; anything else is kept as stripped. */
  function CanonSampleTypeSimple(s: Option<string>): string {
    var t := Strip(OrEmpty(s));
    var m := SampleSynonym(t);
    if m.Some? then m.value else t
  }

  /** The canonical names are stripped and are not synonyms themselves. */
  lemma CanonicalNames(t: string)
    requires t in ["岩屑", "岩心", "泥浆"]
    ensures SampleSynonym(t).None? && Strip(t) == t
  {
    StripNoop(t);
    assert t[0] != '岩' ==> t == "泥浆";
    assert |t| == 2;
  }

  /** The result is a canonical name or the stripped input, is never itself
    * a synonym, and a second application changes nothing. */
  lemma CanonSampleTypeSimpleIdempotent(s: Option<string>)
    ensures var r := CanonSampleTypeSimple(s);
      && (r in ["岩屑", "岩心", "泥浆"] || r == Strip(OrEmpty(s)))
      && SampleSynonym(r).None?
      && CanonSampleTypeSimple(Some(r)) == r
  {
    var t := Strip(OrEmpty(s));
    var r := CanonSampleTypeSimple(s);
    assert OrEmpty(Some(r)) == r;
    if SampleSynonym(t).Some? {
      assert r in ["岩屑", "岩心", "泥浆"];
      CanonicalNames(r);
    } else {
      assert r == t;
      StripIdempotent(OrEmpty(s));
    }
  }

  /** `canon_category`: the stripped category (None when blank), rejected
    * only when it is 轻烃谱图 (light-hydrocarbon chromatogram) and the path
    * names pyrolysis. */
  function CanonCategory(raw: Option<string>, relPath: string): Canon {
    var cat := Strip(OrEmpty(raw));
    if cat == "轻烃谱图" && ContainsAny(relPath, HotWords) then Canon(None, true)
    else Canon(OrNone(cat), false)
  }

  /** Rejection needs the category 轻烃谱图 and 热解 in the path (every
    * pyrolysis keyword contains it, by HotWordsTest). */
  lemma CanonCategoryRejects(raw: Option<string>, relPath: string)
    ensures CanonCategory(raw, relPath).rejected <==> Strip(OrEmpty(raw)) == "轻烃谱图" && Contains(relPath, "热解")
  {
    HotWordsTest(relPath);
  }

  /** An accepted category is the stripped input, stable under a second pass. */
  lemma CanonCategoryAccepted(raw: Option<string>, relPath: string)
    requires !CanonCategory(raw, relPath).rejected
    ensures CanonCategory(raw, relPath).value == OrNone(Strip(OrEmpty(raw)))
    ensures CanonCategory(CanonCategory(raw, relPath).value, "") == CanonCategory(raw, relPath)
  {
    StripIdempotent(OrEmpty(raw));
    CanonCategoryStable(Strip(OrEmpty(raw)));
  }

  /** Some pyrolysis keyword occurs exactly when 热解 does. */
  lemma HotWordsTest(relPath: string)
    ensures ContainsAny(relPath, HotWords) <==> Contains(relPath, "热解")
  {
    if ContainsAny(relPath, HotWords) {
      var k :| 0 <= k < |HotWords| && Contains(relPath, HotWords[k]);
      ContainsTransitive(relPath, HotWords[k], "热解", 0);
    }
    if Contains(relPath, "热解") {
      assert Contains(relPath, HotWords[0]);
    }
  }

  /** A stripped category comes back from a second pass with no path. */
  lemma CanonCategoryStable(cat: string)
    requires Strip(cat) == cat
    ensures CanonCategory(OrNone(cat), "") == Canon(OrNone(cat), false)
  {
    HotWordsTest("");
    assert !Contains("", "热解");
    assert OrEmpty(OrNone(cat)) == cat;
  }
}
