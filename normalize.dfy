/** The older normalisation functions of app/normalize.py: the same clean-up
  * and depth rewrite as app/normalizer.py over a smaller full-width table
  * (punctuation, Ｍ/ｍ and the digits only). */
module LegacyNormalize {
  import opened Text
  import N = Normalizer
  import Regex

  /** A key of this `FULL_TO_HALF`. */
  predicate IsLegacyWide(c: char) {
    N.PunctHalf(c).Some? || c == 'Ｍ' || c == 'ｍ' || '０' <= c <= '９'
  }

  /** One character through this table. */
  function LegacyHalf(c: char): (h: char)
    ensures !IsLegacyWide(h)
    ensures !IsLegacyWide(c) ==> h == c
  {
    match N.PunctHalf(c)
    case Some(h) => h
    case None =>
      if c == 'Ｍ' then 'M'
      else if c == 'ｍ' then 'm'
      else if '０' <= c <= '９' then (c as int - 0xFEE0) as char
      else c
  }

  /** `normalize_text`. */
  function NormalizeText(s: string): string { N.NormalizeWith(s, LegacyHalf) }

  /** Empty input comes back unchanged; otherwise the output is tidy (no
    * backslash, tab, double space or white space at the ends) and holds no
    * key of the table. */
  lemma NormalizeTextClean(s: string)
    ensures |s| == 0 ==> NormalizeText(s) == s
    ensures N.Tidy(NormalizeText(s))
    ensures forall c :: IsLegacyWide(c) ==> !HasChar(NormalizeText(s), c)
  {
    N.NormalizeWithTidy(s, LegacyHalf);
    forall c | IsLegacyWide(c) ensures !HasChar(NormalizeText(s), c) {
      NoLegacyWideImage(s, c);
    }
  }

  lemma NoLegacyWideImage(s: string, c: char)
    requires IsLegacyWide(c)
    ensures !N.Image(s, LegacyHalf, c) && c != ' '
  {
    forall i | 0 <= i < |s| ensures c != (if LegacyHalf(s[i]) == '\\' then '/' else LegacyHalf(s[i])) {
      var h := LegacyHalf(s[i]);
      assert !IsLegacyWide(h);
    }
  }

  /** Normalising twice is normalising once. */
  lemma NormalizeTextIdempotent(s: string)
    ensures NormalizeText(NormalizeText(s)) == NormalizeText(s)
  {
    var r := NormalizeText(s);
    NormalizeTextClean(s);
    forall i | 0 <= i < |r| ensures LegacyHalf(r[i]) == r[i] {
      assert HasChar(r, r[i]);
    }
    N.NormalizeWithFixed(r, LegacyHalf);
  }

  /** The newer table adds only the full-width letters besides Ｍ and ｍ, so
    * on text without them both versions agree. */
  lemma AgreesWithNormalizer(s: string)
    requires forall i :: 0 <= i < |s| ==> !IsFullWidthAlnum(s[i]) || IsLegacyWide(s[i])
    ensures NormalizeText(s) == N.NormalizeText(s)
  {
    var a, b := N.TranslateWith(s, LegacyHalf), N.TranslateWith(s, N.Half);
    forall i | 0 <= i < |s| ensures a[i] == b[i] {
      var c := s[i];
      if N.PunctHalf(c).None? && IsFullWidthAlnum(c) {
        assert c == 'Ｍ' || c == 'ｍ' || '０' <= c <= '９';
      }
    }
    assert a == b;
  }

  /** `normalize_for_depth`. */
  function NormalizeForDepth(s: string): string { N.DepthRewrite(NormalizeText(s)) }

  /** As written only dashes and tildes are rewritten (to '-'), so none remains. */
  lemma NormalizeForDepthAsWritten(s: string)
    ensures NormalizeForDepth(s) == Regex.MapReplace(NormalizeText(s), N.IsDash, "-")
    ensures !HasChar(NormalizeForDepth(s), '—') && !HasChar(NormalizeForDepth(s), '~')
  {
    NormalizeTextClean(s);
    N.DepthRewriteAsWritten(NormalizeText(s));
  }

  /** `tokenize_path`, with the same character class as the newer copy. */
  function TokenizePath(path: string): seq<string> { N.TokensOf(NormalizeText(path), N.TokenChar) }

  /** Every token is non-empty and free of '/'. */
  lemma TokenizePathTokens(path: string)
    ensures forall k :: 0 <= k < |TokenizePath(path)| ==> |TokenizePath(path)[k]| > 0 && !HasChar(TokenizePath(path)[k], '/')
  {
  }
}
