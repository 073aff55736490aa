// Repairs of archive member names that an archiver decoded with the wrong
// code page: the CJK share of a name, the mojibake heuristic, the per-segment
// CP437 -> GB18030 repair and the decoding fallback chain.  The codecs
// themselves are parameters; only Latin-1, which maps bytes to code points
// one for one, is written out.

module EncodingUtils {
  import opened Text

  /** The code point ranges counted as CJK text. */
  const CjkRanges: seq<(int, int)> := [
    (0x4E00, 0x9FFF),  // unified ideographs
    (0x3400, 0x4DBF),  // extension A
    (0xF900, 0xFAFF),  // compatibility ideographs
    (0x3000, 0x303F),  // symbols and punctuation
    (0xFF00, 0xFFEF)   // half- and full-width forms
  ]

  predicate InCjkRange(cp: int) {
    exists k :: 0 <= k < |CjkRanges| && CjkRanges[k].0 <= cp <= CjkRanges[k].1
  }

  predicate IsCjkChar(c: char) { InCjkRange(c as int) }

  predicate HasCjkChar(s: string) { exists i :: 0 <= i < |s| && IsCjkChar(s[i]) }

  /** The inner loop of `_has_cjk` and `_cjk_ratio`: is the code point in one of the ranges? */
  method InCjkRanges(cp: int) returns (hit: bool)
    ensures hit <==> InCjkRange(cp)
  {
    for k := 0 to |CjkRanges|
      invariant forall j :: 0 <= j < k ==> !(CjkRanges[j].0 <= cp <= CjkRanges[j].1)
    {
      var (a, b) := CjkRanges[k];
      if a <= cp <= b {
        return true;
      }
    }
    return false;
  }

  /** `_has_cjk`: does some character fall in a CJK range? */
  method HasCjk(s: string) returns (found: bool)
    ensures found <==> HasCjkChar(s)
  {
    for i := 0 to |s|
      invariant forall j :: 0 <= j < i ==> !IsCjkChar(s[j])
    {
      var hit := InCjkRanges(s[i] as int);
      if hit {
        return true;
      }
    }
    return false;
  }

  /** The number of CJK characters of s. */
  function CjkCount(s: string): nat {
    if |s| == 0 then 0
    else CjkCount(s[..|s| - 1]) + (if IsCjkChar(s[|s| - 1]) then 1 else 0)
  }

  /** At most every character is CJK; none is exactly when no character is
    * in a range, all are exactly when every character is. */
  lemma {:induction false} CjkCountSpec(s: string)
    ensures CjkCount(s) <= |s|
    ensures CjkCount(s) == 0 <==> !HasCjkChar(s)
    ensures CjkCount(s) == |s| <==> forall i :: 0 <= i < |s| ==> IsCjkChar(s[i])
  {
    if |s| > 0 {
      var init := s[..|s| - 1];
      CjkCountSpec(init);
      assert forall i :: 0 <= i < |init| ==> init[i] == s[i];
      if HasCjkChar(init) {
        var i :| 0 <= i < |init| && IsCjkChar(init[i]);
        assert IsCjkChar(s[i]);
      }
    }
  }

  function Max1(n: nat): nat { if n >= 1 then n else 1 }

  /** `_cjk_ratio`, with true division over the reals. */
  function CjkRatio(s: string): real {
    if |s| == 0 then 0.0 else CjkCount(s) as real / Max1(|s|) as real
  }

  /** The ratio lies in [0, 1]; it is 0 exactly when no character is CJK and,
    * for a non-empty string, 1 exactly when every character is. */
  lemma CjkRatioSpec(s: string)
    ensures 0.0 <= CjkRatio(s) <= 1.0
    ensures CjkRatio(s) == 0.0 <==> !HasCjkChar(s)
    ensures |s| > 0 ==> (CjkRatio(s) == 1.0 <==> forall i :: 0 <= i < |s| ==> IsCjkChar(s[i]))
  {
    CjkCountSpec(s);
    if |s| > 0 {
      RatioFacts(CjkCount(s), |s|);
    }
  }

  lemma RatioFacts(n: nat, d: nat)
    requires 0 < d && n <= d
    ensures 0.0 <= n as real / d as real <= 1.0
    ensures n as real / d as real == 0.0 <==> n == 0
    ensures n as real / d as real == 1.0 <==> n == d
  {
  }

  /** `_cjk_ratio`: counts the CJK characters in one pass. */
  method CjkRatioOf(s: string) returns (ratio: real)
    ensures ratio == CjkRatio(s)
  {
    if |s| == 0 {
      return 0.0;
    }
    var n := 0;
    for i := 0 to |s|
      invariant n == CjkCount(s[..i])
    {
      var hit := InCjkRanges(s[i] as int);
      assert s[..i + 1][..i] == s[..i];
      if hit {
        n := n + 1;
      }
    }
    assert s[..|s|] == s;
    ratio := n as real / Max1(|s|) as real;
  }

  /** Box drawing, block elements and the Latin-1 letters: what a CJK name
    * decoded with the wrong code page tends to be made of. */
  predicate IsMojibakeChar(c: char) {
    ('\U{2500}' <= c <= '\U{259F}') || ('\U{00C0}' <= c <= '\U{00FF}')
  }

  /** `looks_mojibake`: under 5% CJK and at least one suspicious character. */
  predicate LooksMojibake(s: string) {
    CjkRatio(s) < 0.05 && exists i :: 0 <= i < |s| && IsMojibakeChar(s[i])
  }

  /** In whole numbers: fewer than one character in twenty is CJK and one is
    * suspicious.  Text without CJK and with a suspicious character always
    * qualifies; text made only of CJK never does. */
  lemma LooksMojibakeSpec(s: string)
    ensures LooksMojibake(s) <==>
      (20 * CjkCount(s) < |s| && exists i :: 0 <= i < |s| && IsMojibakeChar(s[i]))
    ensures (!HasCjkChar(s) && exists i :: 0 <= i < |s| && IsMojibakeChar(s[i])) ==> LooksMojibake(s)
    ensures (|s| > 0 && forall i :: 0 <= i < |s| ==> IsCjkChar(s[i])) ==> !LooksMojibake(s)
  {
    CjkCountSpec(s);
    if |s| > 0 {
      FractionBelow(CjkCount(s), |s|);
    }
  }

  lemma FractionBelow(n: nat, d: nat)
    requires 0 < d
    ensures n as real / d as real < 0.05 <==> 20 * n < d
  {
    var q := n as real / d as real;
    assert q * d as real == n as real;
    ScaleLess(20.0 * q, 1.0, d as real);
    assert 20.0 * q * d as real == 20.0 * (q * d as real);
  }

  lemma ScaleLess(x: real, y: real, d: real)
    requires d > 0.0
    ensures x < y <==> x * d < y * d
  {
  }

  /** The characters whose presence lets a repair with an equal CJK share win. */
  predicate IsBadChar(c: char) {
    ('\U{2500}' <= c <= '\U{259F}') || c == '\U{2260}' || ('\U{2190}' <= c <= '\U{21FF}')
  }

  predicate HasBadChar(s: string) { exists i :: 0 <= i < |s| && IsBadChar(s[i]) }

  /** `fix_zip_name_cp437_to_gb18030`.  `recode(s)` is the name re-encoded as
    * CP437 and decoded as GB18030, None when either codec raises.  The
    * candidate wins when it is at least as CJK as the name and the name holds
    * a box or arrow character, or when it is strictly more CJK: the repair
    * returns the name or its recoding, never lowers the CJK share, and
    * replaces the name only when it gains CJK or held such a character. */
  function FixZipName(s: string, recode: string -> Option<string>): (r: string)
    ensures r == s || recode(s) == Some(r)
    ensures CjkRatio(r) >= CjkRatio(s)
    ensures r != s ==> CjkRatio(r) > CjkRatio(s) || HasBadChar(s)
  {
    match recode(s)
    case None => s
    case Some(alt) =>
      if CjkRatio(alt) >= CjkRatio(s) && HasBadChar(s) then alt
      else if CjkRatio(alt) > CjkRatio(s) then alt
      else s
  }

  /** `normalize_zip_name`: back slashes become '/', then each segment is repaired on its own. */
  function NormalizeZipName(name: string, recode: string -> Option<string>): string {
    Join(FixSegments(Segments(name), recode), "/")
  }

  function FixSegments(parts: seq<string>, recode: string -> Option<string>): (r: seq<string>)
    ensures |r| == |parts| && forall k :: 0 <= k < |parts| ==> r[k] == FixZipName(parts[k], recode)
  {
    seq(|parts|, k requires 0 <= k < |parts| => FixZipName(parts[k], recode))
  }

  /** The '/'-separated segments of a member name, back slashes counted as '/'. */
  function Segments(name: string): (parts: seq<string>)
    ensures |parts| > 0
  {
    Split(ReplaceChar(name, '\\', '/'), '/')
  }

  predicate SlashFree(parts: seq<string>) {
    forall k :: 0 <= k < |parts| ==> !HasChar(parts[k], '/')
  }

  /** When no repaired segment holds '/', the result splits back into the
    * repaired segments of the input, one for one. */
  lemma NormalizeZipNameSegments(name: string, recode: string -> Option<string>)
    requires SlashFree(FixSegments(Segments(name), recode))
    ensures Split(NormalizeZipName(name, recode), '/') == FixSegments(Segments(name), recode)
  {
    SplitJoin(FixSegments(Segments(name), recode), '/');
  }

  predicate NoneRecoded(parts: seq<string>, recode: string -> Option<string>) {
    forall k :: 0 <= k < |parts| ==> recode(parts[k]).None?
  }

  /** A name none of whose segments gets repaired only has its back slashes turned into '/'. */
  lemma NormalizeZipNameKeeps(name: string, recode: string -> Option<string>)
    requires NoneRecoded(Segments(name), recode)
    ensures NormalizeZipName(name, recode) == ReplaceChar(name, '\\', '/')
  {
    var parts := Segments(name);
    forall k | 0 <= k < |parts| ensures FixSegments(parts, recode)[k] == parts[k] {
      assert recode(parts[k]).None?;
    }
    assert FixSegments(parts, recode) == parts;
    JoinSplit(ReplaceChar(name, '\\', '/'), '/');
  }

  // ---------------------------------------------------------------- decoding

  newtype Byte = x: int | 0 <= x < 256

  type Bytes = seq<Byte>

  function CharOf(x: Byte): (c: char)
    ensures c as int == x as int
  {
    (x as int) as char
  }

  function ByteOf(c: char): (x: Byte)
    requires c as int < 256
    ensures x as int == c as int
  {
    (c as int) as Byte
  }

  /** `bytes.decode("latin1")`: every byte is the code point of the same value. */
  function Latin1(b: Bytes): (s: string)
    ensures |s| == |b| && forall i :: 0 <= i < |b| ==> s[i] as int == b[i] as int
  {
    seq(|b|, i requires 0 <= i < |b| => CharOf(b[i]))
  }

  /** `str.encode("latin1")`: None when a character is above U+00FF. */
  function Latin1Encode(s: string): (r: Option<Bytes>)
    ensures r.Some? <==> forall i :: 0 <= i < |s| ==> s[i] as int < 256
  {
    if forall i :: 0 <= i < |s| ==> s[i] as int < 256 then
      Some(seq(|s|, i requires 0 <= i < |s| && s[i] as int < 256 => ByteOf(s[i])))
    else None
  }

  /** Latin-1 is a bijection between byte strings and strings below U+0100:
    * encoding a decoded byte string gives the bytes back ... */
  lemma Latin1RoundTrip(b: Bytes)
    ensures Latin1Encode(Latin1(b)) == Some(b)
  {
    var t := Latin1(b);
    assert forall i :: 0 <= i < |t| ==> t[i] as int < 256;
    var e := Latin1Encode(t).value;
    assert |e| == |b|;
    forall i | 0 <= i < |b| ensures e[i] == b[i] {
      assert e[i] as int == b[i] as int;
    }
    assert e == b;
  }

  /** ... and decoding an encoded string gives the string back. */
  lemma Latin1EncodeRoundTrip(s: string)
    requires Latin1Encode(s).Some?
    ensures Latin1(Latin1Encode(s).value) == s
  {
    var b := Latin1Encode(s).value;
    forall i | 0 <= i < |s| ensures Latin1(b)[i] == s[i] {
      assert b[i] as int == s[i] as int;
    }
  }

  /** The encodings `try_decode` tries by default. */
  const DefaultEncodings: seq<string> := ["utf-8", "gb18030", "gbk"]

  /** The first encoding under which `decode` succeeds, None if there is none. */
  function FirstDecoding(b: Bytes, encs: seq<string>, decode: (string, Bytes) -> Option<string>): Option<string> {
    if |encs| == 0 then None
    else match decode(encs[0], b)
      case Some(s) => Some(s)
      case None => FirstDecoding(b, encs[1..], decode)
  }

  /** The text of a decoding is that of the first encoding that succeeds. */
  lemma {:induction false} FirstDecodingSpec(b: Bytes, encs: seq<string>, decode: (string, Bytes) -> Option<string>)
    ensures FirstDecoding(b, encs, decode).None? <==> forall k :: 0 <= k < |encs| ==> decode(encs[k], b).None?
    ensures FirstDecoding(b, encs, decode).Some? ==>
      exists k :: 0 <= k < |encs| && decode(encs[k], b) == FirstDecoding(b, encs, decode)
        && forall j :: 0 <= j < k ==> decode(encs[j], b).None?
  {
    if |encs| > 0 {
      FirstDecodingSpec(b, encs[1..], decode);
      if decode(encs[0], b).None? {
        assert forall k :: 1 <= k < |encs| ==> encs[k] == encs[1..][k - 1];
        if FirstDecoding(b, encs, decode).Some? {
          var k :| 0 <= k < |encs[1..]| && decode(encs[1..][k], b) == FirstDecoding(b, encs, decode)
            && forall j :: 0 <= j < k ==> decode(encs[1..][j], b).None?;
          assert decode(encs[k + 1], b) == FirstDecoding(b, encs, decode);
        }
      }
    }
  }

  /** What `try_decode` returns: the first decoding that succeeds, else Latin-1. */
  function Decoded(b: Bytes, encs: seq<string>, decode: (string, Bytes) -> Option<string>): string {
    match FirstDecoding(b, encs, decode)
    case Some(s) => s
    case None => Latin1(b)
  }

  /** `try_decode`: tries the encodings in order; Latin-1 with replacement
    * never fails, so it ends the chain. */
  method TryDecode(b: Bytes, encs: seq<string>, decode: (string, Bytes) -> Option<string>) returns (s: string)
    ensures s == Decoded(b, encs, decode)
  {
    for k := 0 to |encs|
      invariant FirstDecoding(b, encs[k..], decode) == FirstDecoding(b, encs, decode)
    {
      assert encs[k..][1..] == encs[k + 1..];
      var r := decode(encs[k], b);
      if r.Some? {
        return r.value;
      }
    }
    return Latin1(b);
  }
}
