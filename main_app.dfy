/** The small helpers of the web application: cleaning an uploaded file
  * name, the upload progress percent, the preview format and size, the
  * well-name lookup of the well picker, the gallery page slice and the
  * sample-type synonyms of the gallery filter. NFKC normalisation (Unicode
  * Standard Annex #15) is a parameter. */
module MainApp {
  import opened Text

  // ---------------------------------------------------------------- upload names

  predicate KeptInName(c: char) { c != '\r' && c != '\n' && c != '\t' }

  /** `_safe_filename`: the text after the last '/' or '\\', without CR, LF
    * and TAB. */
  function SafeFilename(name: string): string {
    Filter(AfterLast(ReplaceChar(name, '\\', '/'), '/'), KeptInName)
  }

  predicate UnsafeChar(c: char) { c == '/' || c == '\\' || !KeptInName(c) }

  /** The result holds no separator and no control character of the three;
    * a name without any of them is kept as it is, so cleaning twice is
    * cleaning once. */
  lemma SafeFilenameSpec(name: string)
    ensures forall i :: 0 <= i < |SafeFilename(name)| ==> !UnsafeChar(SafeFilename(name)[i])
    ensures (forall i :: 0 <= i < |name| ==> !UnsafeChar(name[i])) ==> SafeFilename(name) == name
    ensures SafeFilename(SafeFilename(name)) == SafeFilename(name)
  {
    SafeFilenameClean(name);
    SafeNameKept(name);
    SafeNameKept(SafeFilename(name));
  }

  /** No separator and no control character of the three survives. */
  lemma SafeFilenameClean(name: string)
    ensures forall i :: 0 <= i < |SafeFilename(name)| ==> !UnsafeChar(SafeFilename(name)[i])
  {
    var r := SafeFilename(name);
    var slashed := ReplaceChar(name, '\\', '/');
    var last := AfterLast(slashed, '/');
    FilterExact(last, KeptInName);
    forall i | 0 <= i < |r| ensures !UnsafeChar(r[i]) {
      assert r[i] in r;
      LastPartClean(slashed, last, r[i]);
    }
  }

  lemma LastPartClean(slashed: string, last: string, c: char)
    requires forall i :: 0 <= i < |slashed| ==> slashed[i] != '\\'
    requires IsSuffix(last, slashed) && !HasChar(last, '/') && c in last
    ensures c != '/' && c != '\\'
  {
    var k :| 0 <= k < |last| && last[k] == c;
    assert last[k] == slashed[|slashed| - |last| + k];
  }

  /** A name without separators or control characters is its own clean name. */
  lemma SafeNameKept(name: string)
    ensures (forall i :: 0 <= i < |name| ==> !UnsafeChar(name[i])) ==> SafeFilename(name) == name
  {
    if forall i :: 0 <= i < |name| ==> !UnsafeChar(name[i]) {
      var slashed := ReplaceChar(name, '\\', '/');
      assert slashed == name;
      var k := RFindChar(name, '/');
      assert k == -1;
      assert AfterLast(name, '/') == name;
      FilterAll(name, KeptInName);
    }
  }

  // ---------------------------------------------------------------- upload progress

  /** The percent of `api_upload_status`: `int(done * 100 / total)` when
    * there is a total, else 100 for a finished or failed job and 0 for any
    * other status. */
  function UploadPercent(done: nat, total: nat, status: string): int {
    if total > 0 then (done * 100) / total
    else if status == "done" || status == "error" then 100
    else 0
  }

  /** While no more than the total is done the percent lies in [0, 100],
    * reaches 100 exactly when all is done, never falls as more is done, and
    * is the largest whole percent not beyond the done fraction. */
  lemma UploadPercentSpec(done: nat, more: nat, total: nat, status: string)
    requires done <= more <= total
    ensures 0 <= UploadPercent(done, total, status) <= 100
    ensures total > 0 ==> (UploadPercent(done, total, status) == 100 <==> done == total)
    ensures UploadPercent(done, total, status) <= UploadPercent(more, total, status) || total == 0
    ensures total > 0 ==>
      UploadPercent(done, total, status) * total <= done * 100 < (UploadPercent(done, total, status) + 1) * total
  {
    if total > 0 {
      var p := (done * 100) / total;
      DivBounds(done * 100, total);
      DivMonotone(done * 100, more * 100, total);
      DivMonotone(done * 100, total * 100, total);
      DivExact(100, total);
      if p == 100 {
        assert 100 * total <= done * 100;
      }
    }
  }

  lemma DivBounds(a: nat, t: nat)
    requires t > 0
    ensures (a / t) * t <= a < (a / t + 1) * t
  {
  }

  lemma MulMonotone(x: nat, y: nat, t: nat)
    requires x <= y
    ensures x * t <= y * t
  {
    assert y * t - x * t == (y - x) * t;
  }

  lemma DivMonotone(a: nat, b: nat, t: nat)
    requires t > 0 && a <= b
    ensures a / t <= b / t
  {
    var qa, qb := a / t, b / t;
    DivBounds(a, t);
    DivBounds(b, t);
    assert qa * t <= a && b < (qb + 1) * t;
    LessCancel(qa, qb + 1, t);
  }

  /** x t < y t with t positive means x < y. */
  lemma LessCancel(x: nat, y: nat, t: nat)
    requires t > 0 && x * t < y * t
    ensures x < y
  {
  }

  lemma DivExact(k: nat, t: nat)
    requires t > 0
    ensures (t * k) / t == k
  {
    DivBounds(t * k, t);
    var q := (t * k) / t;
    assert q * t <= k * t < (q + 1) * t;
    LessCancel(q, k + 1, t);
    LessCancel(k, q + 1, t);
  }

  // ---------------------------------------------------------------- previews

  /** `_best_preview_format`: AVIF when accepted, else WEBP when accepted,
    * else JPEG. */
  function BestPreviewFormat(accept: string): string {
    if Contains(accept, "image/avif") then "AVIF"
    else if Contains(accept, "image/webp") then "WEBP"
    else "JPEG"
  }

  /** The format is one of three, AVIF wins over WEBP, and JPEG is the
    * answer exactly when the client accepts neither of the other two. */
  lemma BestPreviewFormatSpec(accept: string)
    ensures BestPreviewFormat(accept) in {"AVIF", "WEBP", "JPEG"}
    ensures Contains(accept, "image/avif") ==> BestPreviewFormat(accept) == "AVIF"
    ensures BestPreviewFormat(accept) == "JPEG" <==> !Contains(accept, "image/avif") && !Contains(accept, "image/webp")
  {
  }

  /** `max(64, min(1600, size))`. */
  function ClampPreviewSize(size: int): int {
    if size > 1600 then 1600 else if size < 64 then 64 else size
  }

  /** The clamped size lies in [64, 1600], keeps any size already there,
    * and clamping twice is clamping once. */
  lemma ClampPreviewSizeSpec(size: int)
    ensures 64 <= ClampPreviewSize(size) <= 1600
    ensures 64 <= size <= 1600 ==> ClampPreviewSize(size) == size
    ensures ClampPreviewSize(ClampPreviewSize(size)) == ClampPreviewSize(size)
  {
  }

  /** `int(short * max_side / long)`. */
  function Scaled(short: nat, maxSide: nat, long: nat): nat
    requires long > 0
  {
    (short * maxSide) / long
  }

  /** The size of the preview image: the longer side shrunk to maxSide and
    * the shorter side scaled with it, or the image as it is when it
    * already fits. */
  function ResizeTarget(w: nat, h: nat, maxSide: nat): (nat, nat) {
    if w >= h && w > maxSide then (maxSide, Scaled(h, maxSide, w))
    else if h > w && h > maxSide then (Scaled(w, maxSide, h), maxSide)
    else (w, h)
  }

  /** The preview never exceeds maxSide on either side, never grows, keeps
    * an image that fits, gives the longer side exactly maxSide otherwise,
    * and scales the shorter side by the same factor, rounded down. */
  lemma ResizeTargetSpec(w: nat, h: nat, maxSide: nat)
    ensures ResizeTarget(w, h, maxSide).0 <= w && ResizeTarget(w, h, maxSide).1 <= h
    ensures w <= maxSide && h <= maxSide ==> ResizeTarget(w, h, maxSide) == (w, h)
    ensures w >= h && w > maxSide ==> ResizeTarget(w, h, maxSide).0 == maxSide && ResizedFrom(h, w, maxSide, ResizeTarget(w, h, maxSide).1)
    ensures h > w && h > maxSide ==> ResizeTarget(w, h, maxSide).1 == maxSide && ResizedFrom(w, h, maxSide, ResizeTarget(w, h, maxSide).0)
  {
    if w >= h && w > maxSide {
      ShrinkSide(h, w, maxSide);
    } else if h > w && h > maxSide {
      ShrinkSide(w, h, maxSide);
    }
  }

  /** n is the side short scaled by maxSide / long, rounded down, and fits. */
  predicate ResizedFrom(short: nat, long: nat, maxSide: nat, n: nat) {
    n <= maxSide && n <= short && n * long <= short * maxSide < (n + 1) * long
  }

  /** The shorter side scaled by maxSide / long. */
  lemma ShrinkSide(short: nat, long: nat, maxSide: nat)
    requires short <= long && maxSide < long
    ensures ResizedFrom(short, long, maxSide, Scaled(short, maxSide, long))
  {
    DivBounds(short * maxSide, long);
    ScaledBelow(short, long, maxSide);
    ScaledShrinks(short, long, maxSide);
  }

  lemma ScaledBelow(short: nat, long: nat, maxSide: nat)
    requires short <= long && long > 0
    ensures Scaled(short, maxSide, long) <= maxSide
  {
    MulMonotone(short, long, maxSide);
    DivMonotone(short * maxSide, long * maxSide, long);
    DivExact(maxSide, long);
  }

  lemma ScaledShrinks(short: nat, long: nat, maxSide: nat)
    requires maxSide < long
    ensures Scaled(short, maxSide, long) <= short
  {
    MulMonotone(maxSide, long, short);
    assert short * maxSide == maxSide * short && short * long == long * short;
    DivMonotone(short * maxSide, short * long, long);
    DivExact(short, long);
  }

  // ---------------------------------------------------------------- well lookup

  /** `normalize_well`: NFKC, strip, one trailing 井 dropped, upper case. */
  function NormalizeWell(s: string, nfkc: string -> string): (r: string)
    ensures forall i :: 0 <= i < |r| ==> !IsLower(r[i])
  {
    if s == "" then ""
    else
      var t := Strip(nfkc(s));
      Upper(if |t| > 0 && t[|t| - 1] == '井' then t[..|t| - 1] else t)
  }

  /** The documented example: 'BZ8-3S-11井' and its lower-case spelling
    * both become 'BZ8-3S-11' (NFKC leaves these characters alone). */
  lemma NormalizeWellExample(nfkc: string -> string)
    requires nfkc("BZ8-3S-11井") == "BZ8-3S-11井" && nfkc("bz8-3s-11井") == "bz8-3s-11井"
    ensures NormalizeWell("BZ8-3S-11井", nfkc) == "BZ8-3S-11"
    ensures NormalizeWell("bz8-3s-11井", nfkc) == "BZ8-3S-11"
  {
    DropsWellSuffix("BZ8-3S-11井", nfkc);
    DropsWellSuffix("bz8-3s-11井", nfkc);
    UpperExample();
  }

  lemma UpperExample()
    ensures Upper("BZ8-3S-11井"[..9]) == "BZ8-3S-11"
    ensures Upper("bz8-3s-11井"[..9]) == "BZ8-3S-11"
  {
    assert "BZ8-3S-11井"[..9] == "BZ8-3S-11";
    assert "bz8-3s-11井"[..9] == "bz8-3s-11";
  }

  /** An unpadded NFKC-stable name ending in 井 loses the 井 and is upper-cased. */
  lemma DropsWellSuffix(t: string, nfkc: string -> string)
    requires |t| > 1 && t[|t| - 1] == '井' && !IsSpace(t[0]) && nfkc(t) == t
    ensures NormalizeWell(t, nfkc) == Upper(t[..|t| - 1])
  {
    StripNoop(t);
  }

  /** Python's `<=` on strings: code point by code point, a prefix first. */
  predicate StrLe(a: string, b: string)
    decreases |a|
  {
    |a| == 0 || (|b| > 0 && (a[0] < b[0] || (a[0] == b[0] && StrLe(a[1..], b[1..]))))
  }

  lemma {:induction false} StrLeTotal(a: string, b: string)
    ensures StrLe(a, b) || StrLe(b, a)
    decreases |a|
  {
    if |a| > 0 && |b| > 0 && a[0] == b[0] {
      StrLeTotal(a[1..], b[1..]);
    }
  }

  lemma {:induction false} StrLeTrans(a: string, b: string, c: string)
    requires StrLe(a, b) && StrLe(b, c)
    ensures StrLe(a, c)
    decreases |a|
  {
    if |a| > 0 && a[0] == b[0] && b[0] == c[0] {
      StrLeTrans(a[1..], b[1..], c[1..]);
    }
  }

  predicate SortedStrings(s: seq<string>) {
    forall i, j :: 0 <= i < j < |s| ==> StrLe(s[i], s[j])
  }

  function InsertString(x: string, s: seq<string>): (r: seq<string>)
    ensures |r| == |s| + 1
  {
    if |s| == 0 then [x] else if StrLe(x, s[0]) then [x] + s else [s[0]] + InsertString(x, s[1..])
  }

  /** `sorted(s)` on strings, by insertion in input order. */
  function SortStrings(s: seq<string>): (r: seq<string>)
    ensures |r| == |s|
  {
    if |s| == 0 then [] else InsertString(s[|s| - 1], SortStrings(s[..|s| - 1]))
  }

  lemma {:induction false} InsertStringSpec(x: string, s: seq<string>)
    requires SortedStrings(s)
    ensures SortedStrings(InsertString(x, s))
    ensures multiset(InsertString(x, s)) == multiset(s) + multiset{x}
  {
    if |s| > 0 {
      assert s == [s[0]] + s[1..];
      if StrLe(x, s[0]) {
        InsertFront(x, s);
      } else {
        StrLeTotal(x, s[0]);
        InsertStringSpec(x, s[1..]);
        InsertBehind(x, s, InsertString(x, s[1..]));
      }
    }
  }

  lemma InsertFront(x: string, s: seq<string>)
    requires SortedStrings(s) && |s| > 0 && StrLe(x, s[0])
    ensures SortedStrings([x] + s)
  {
    var r := [x] + s;
    forall i, j | 0 <= i < j < |r| ensures StrLe(r[i], r[j]) {
      if i == 0 && j > 1 {
        StrLeTrans(x, s[0], s[j - 1]);
      }
    }
  }

  lemma InsertBehind(x: string, s: seq<string>, rest: seq<string>)
    requires SortedStrings(s) && |s| > 0 && StrLe(s[0], x)
    requires SortedStrings(rest) && multiset(rest) == multiset(s[1..]) + multiset{x}
    ensures SortedStrings([s[0]] + rest)
  {
    var r := [s[0]] + rest;
    forall j | 0 <= j < |rest| ensures StrLe(s[0], rest[j]) {
      assert rest[j] in multiset(rest);
      if rest[j] != x {
        assert rest[j] in multiset(s[1..]);
        var k :| 0 <= k < |s[1..]| && s[1..][k] == rest[j];
        assert s[k + 1] == rest[j];
      }
    }
    forall i, j | 0 <= i < j < |r| ensures StrLe(r[i], r[j]) {
      if i > 0 {
        assert r[i] == rest[i - 1] && r[j] == rest[j - 1];
      }
    }
  }

  /** `sorted` returns an ordered permutation of its input. */
  lemma {:induction false} SortStringsSpec(s: seq<string>)
    ensures SortedStrings(SortStrings(s))
    ensures multiset(SortStrings(s)) == multiset(s)
  {
    if |s| > 0 {
      var init := s[..|s| - 1];
      SortStringsSpec(init);
      InsertStringSpec(s[|s| - 1], SortStrings(init));
      assert s == init + [s[|s| - 1]];
    }
  }

  /** `sorted(set(s))`. */
  function SortedUnique(s: seq<string>): seq<string> {
    SortStrings(Dedup(s))
  }

  /** What the well picker answers: the well it settled on, if any, and
    * the candidates. */
  datatype Resolution = Resolution(resolved: Option<string>, candidates: seq<string>)

  predicate NonEmpty(w: string) { w != "" }

  /** The normal form the picker compares names by. */
  function NormalForm(nfkc: string -> string): string -> string {
    w => NormalizeWell(w, nfkc)
  }

  function ExactMatch(qn: string, norm: string -> string): string -> bool {
    w => norm(w) == qn
  }

  function PrefixMatch(qn: string, norm: string -> string): string -> bool {
    w => IsPrefix(qn, norm(w))
  }

  function InfixMatch(qn: string, norm: string -> string): string -> bool {
    w => Contains(norm(w), qn)
  }

  /** The matching cascade of a non-empty query: exact matches, else
    * prefix matches, else infix matches. */
  function Cascade(wells: seq<string>, qn: string, norm: string -> string): Resolution {
    var exact := Filter(wells, ExactMatch(qn, norm));
    if |exact| > 0 then Resolution(Some(exact[0]), exact)
    else
      var prefix := Filter(wells, PrefixMatch(qn, norm));
      if |prefix| > 0 then Resolution(None, SortedUnique(prefix))
      else
        var infix := Filter(wells, InfixMatch(qn, norm));
        if |infix| > 0 then Resolution(None, SortedUnique(infix)) else Resolution(None, [])
  }

  /** `resolve_wells`, given the distinct well names of the image table in
    * the order the query returns them. */
  function ResolveWells(names: seq<string>, q: string, nfkc: string -> string): Resolution {
    var wells := Filter(names, NonEmpty);
    if q == "" then Resolution(None, SortStrings(wells))
    else Cascade(wells, NormalizeWell(q, nfkc), NormalForm(nfkc))
  }

  /** An exact match is a prefix match, and a prefix match an infix match. */
  lemma MatchesNest(w: string, qn: string, norm: string -> string)
    ensures ExactMatch(qn, norm)(w) ==> PrefixMatch(qn, norm)(w)
    ensures PrefixMatch(qn, norm)(w) ==> InfixMatch(qn, norm)(w)
  {
    var n := norm(w);
    if IsPrefix(qn, n) {
      assert OccursAt(n, qn, 0);
    }
  }

  /** Every candidate of the cascade is a well whose normal form contains qn. */
  lemma CascadeFits(wells: seq<string>, qn: string, norm: string -> string)
    ensures forall c :: c in Cascade(wells, qn, norm).candidates ==> c in wells && InfixMatch(qn, norm)(c)
  {
    var exact := Filter(wells, ExactMatch(qn, norm));
    var prefix := Filter(wells, PrefixMatch(qn, norm));
    FilterExact(wells, ExactMatch(qn, norm));
    FilterExact(wells, PrefixMatch(qn, norm));
    FilterExact(wells, InfixMatch(qn, norm));
    DedupSorted(prefix);
    DedupSorted(Filter(wells, InfixMatch(qn, norm)));
    forall w | w in exact || w in prefix ensures InfixMatch(qn, norm)(w) {
      MatchesNest(w, qn, norm);
    }
  }

  /** The cascade finds candidates exactly when some well's normal form contains qn. */
  lemma CascadeFinds(wells: seq<string>, qn: string, norm: string -> string)
    ensures |Cascade(wells, qn, norm).candidates| > 0 <==> exists w :: w in wells && InfixMatch(qn, norm)(w)
  {
    var infix := Filter(wells, InfixMatch(qn, norm));
    CascadeFits(wells, qn, norm);
    FilterExact(wells, InfixMatch(qn, norm));
    DedupSorted(Filter(wells, PrefixMatch(qn, norm)));
    DedupSorted(infix);
    if exists w :: w in wells && InfixMatch(qn, norm)(w) {
      var w :| w in wells && InfixMatch(qn, norm)(w);
      assert w in infix;
    }
    var cs := Cascade(wells, qn, norm).candidates;
    if |cs| > 0 {
      assert cs[0] in cs;
    }
  }

  /** A resolved well is the first exact match and a candidate; otherwise
    * the candidates are sorted and each listed once. */
  lemma CascadeResolves(wells: seq<string>, qn: string, norm: string -> string)
    ensures var r := Cascade(wells, qn, norm);
      r.resolved.Some? ==> r.resolved.value in r.candidates && norm(r.resolved.value) == qn
    ensures var r := Cascade(wells, qn, norm);
      r.resolved.None? ==> SortedStrings(r.candidates) && NoDuplicates(r.candidates)
  {
    var exact := Filter(wells, ExactMatch(qn, norm));
    FilterExact(wells, ExactMatch(qn, norm));
    if |exact| > 0 {
      assert exact[0] in exact;
    }
    DedupSorted(Filter(wells, PrefixMatch(qn, norm)));
    DedupSorted(Filter(wells, InfixMatch(qn, norm)));
  }

  /** What the well names of a resolution have in common. */
  predicate CandidatesFit(names: seq<string>, q: string, nfkc: string -> string, cs: seq<string>) {
    forall c :: c in cs ==> c in names && c != "" && (q != "" ==> Contains(NormalizeWell(c, nfkc), NormalizeWell(q, nfkc)))
  }

  /** Every candidate is a known non-empty well whose normal form contains
    * the normalised query; a resolved well is a candidate with exactly the
    * query's normal form; for a query the lookup finds candidates exactly
    * when some well's normal form contains the query's (exact and prefix
    * matches are infix matches too); candidates of an unresolved lookup are
    * sorted and, for a query, each listed once; an empty query lists every
    * well. */
  lemma ResolveWellsSpec(names: seq<string>, q: string, nfkc: string -> string)
    ensures CandidatesFit(names, q, nfkc, ResolveWells(names, q, nfkc).candidates)
    ensures ResolveWells(names, q, nfkc).resolved.Some? ==>
      q != "" && ResolveWells(names, q, nfkc).resolved.value in ResolveWells(names, q, nfkc).candidates
      && NormalizeWell(ResolveWells(names, q, nfkc).resolved.value, nfkc) == NormalizeWell(q, nfkc)
    ensures q != "" ==> (|ResolveWells(names, q, nfkc).candidates| > 0 <==>
      exists w :: w in names && w != "" && Contains(NormalizeWell(w, nfkc), NormalizeWell(q, nfkc)))
    ensures ResolveWells(names, q, nfkc).resolved.None? ==> SortedStrings(ResolveWells(names, q, nfkc).candidates)
    ensures ResolveWells(names, q, nfkc).resolved.None? && q != "" ==> NoDuplicates(ResolveWells(names, q, nfkc).candidates)
    ensures q == "" ==> multiset(ResolveWells(names, q, nfkc).candidates) == multiset(Filter(names, NonEmpty))
  {
    if q != "" {
      ResolveQuery(names, q, nfkc);
    } else {
      ResolveEmpty(names, nfkc);
    }
  }

  lemma ResolveEmpty(names: seq<string>, nfkc: string -> string)
    ensures var r := ResolveWells(names, "", nfkc);
      r.resolved.None? && SortedStrings(r.candidates) && multiset(r.candidates) == multiset(Filter(names, NonEmpty))
      && CandidatesFit(names, "", nfkc, r.candidates)
  {
    var wells := Filter(names, NonEmpty);
    FilterExact(names, NonEmpty);
    SortStringsSpec(wells);
    forall c | c in SortStrings(wells) ensures c in names && c != "" {
      assert c in multiset(SortStrings(wells));
    }
  }

  lemma ResolveQuery(names: seq<string>, q: string, nfkc: string -> string)
    requires q != ""
    ensures var r := ResolveWells(names, q, nfkc);
      && CandidatesFit(names, q, nfkc, r.candidates)
      && (r.resolved.Some? ==> r.resolved.value in r.candidates && NormalizeWell(r.resolved.value, nfkc) == NormalizeWell(q, nfkc))
      && (r.resolved.None? ==> SortedStrings(r.candidates) && NoDuplicates(r.candidates))
      && (|r.candidates| > 0 <==> exists w :: w in names && w != "" && Contains(NormalizeWell(w, nfkc), NormalizeWell(q, nfkc)))
  {
    QueryFits(names, q, nfkc);
    QueryFinds(names, q, nfkc);
    CascadeResolves(Filter(names, NonEmpty), NormalizeWell(q, nfkc), NormalForm(nfkc));
  }

  lemma QueryFits(names: seq<string>, q: string, nfkc: string -> string)
    requires q != ""
    ensures CandidatesFit(names, q, nfkc, ResolveWells(names, q, nfkc).candidates)
  {
    var wells := Filter(names, NonEmpty);
    FilterExact(names, NonEmpty);
    var qn, norm := NormalizeWell(q, nfkc), NormalForm(nfkc);
    var cs := Cascade(wells, qn, norm).candidates;
    CascadeFits(wells, qn, norm);
    forall c | c in cs ensures c in names && c != "" && Contains(NormalizeWell(c, nfkc), qn) {
      assert InfixMatch(qn, norm)(c);
    }
  }

  lemma QueryFinds(names: seq<string>, q: string, nfkc: string -> string)
    requires q != ""
    ensures |ResolveWells(names, q, nfkc).candidates| > 0 <==>
      exists w :: w in names && w != "" && Contains(NormalizeWell(w, nfkc), NormalizeWell(q, nfkc))
  {
    var qn, norm := NormalizeWell(q, nfkc), NormalForm(nfkc);
    NonEmptyFinds(names, qn, norm);
    forall w ensures norm(w) == NormalizeWell(w, nfkc) { }
  }

  lemma NonEmptyFinds(names: seq<string>, qn: string, norm: string -> string)
    ensures |Cascade(Filter(names, NonEmpty), qn, norm).candidates| > 0 <==>
      exists w :: w in names && w != "" && Contains(norm(w), qn)
  {
    var wells := Filter(names, NonEmpty);
    FilterExact(names, NonEmpty);
    CascadeFinds(wells, qn, norm);
    if exists w :: w in names && w != "" && Contains(norm(w), qn) {
      var w :| w in names && w != "" && Contains(norm(w), qn);
      assert w in wells && InfixMatch(qn, norm)(w);
    }
    if exists w :: w in wells && InfixMatch(qn, norm)(w) {
      var w :| w in wells && InfixMatch(qn, norm)(w);
      assert w in names && w != "" && Contains(norm(w), qn);
    }
  }

  /** `sorted(set(s))` holds the elements of s, each once, in order. */
  lemma DedupSorted(s: seq<string>)
    ensures SortedStrings(SortedUnique(s)) && NoDuplicates(SortedUnique(s))
    ensures forall x :: x in SortedUnique(s) <==> x in s
    ensures |s| > 0 <==> |SortedUnique(s)| > 0
  {
    DedupExact(s);
    SortStringsSpec(Dedup(s));
    var r := SortedUnique(s);
    forall x ensures x in r <==> x in Dedup(s) {
      assert x in r <==> x in multiset(r);
      assert x in Dedup(s) <==> x in multiset(Dedup(s));
    }
    forall x ensures multiset(r)[x] <= 1 {
      NoDuplicatesCount(Dedup(s), x);
    }
    forall i, j | 0 <= i < j < |r| ensures r[i] != r[j] {
      PairCount(r, i, j);
    }
    if |s| > 0 {
      assert s[0] in s;
    }
  }

  /** A sequence without duplicates holds each element at most once. */
  lemma {:induction false} NoDuplicatesCount(s: seq<string>, x: string)
    requires NoDuplicates(s)
    ensures multiset(s)[x] <= 1
  {
    if |s| > 0 {
      var init := s[..|s| - 1];
      NoDuplicatesCount(init, x);
      assert s == init + [s[|s| - 1]];
      assert forall k :: 0 <= k < |init| ==> init[k] == s[k] && s[k] != s[|s| - 1];
      assert s[|s| - 1] !in init;
    }
  }

  /** Two equal entries count twice. */
  lemma PairCount(r: seq<string>, i: nat, j: nat)
    requires i < j < |r|
    ensures r[i] == r[j] ==> multiset(r)[r[i]] >= 2
  {
    assert r == r[..j] + r[j..];
    assert r[..j][i] == r[i];
    assert r[j..][0] == r[j];
    assert multiset(r) == multiset(r[..j]) + multiset(r[j..]);
    assert multiset(r[..j])[r[i]] >= 1;
    assert multiset(r[j..])[r[j]] >= 1;
  }

  // ---------------------------------------------------------------- gallery

  /** A slice bound i as Python reads it for a sequence of length n:
    * negative bounds count from the end, and bounds are clipped. */
  function SliceBound(i: int, n: nat): (b: nat)
    ensures b <= n
  {
    if i < 0 then (if i + n < 0 then 0 else i + n) else if i > n then n else i
  }

  /** `s[i:j]`. */
  function PySlice<T>(s: seq<T>, i: int, j: int): seq<T> {
    var lo, hi := SliceBound(i, |s|), SliceBound(j, |s|);
    if lo < hi then s[lo..hi] else []
  }

  function MinNat(a: nat, b: nat): nat { if a <= b then a else b }

  /** The gallery page as written: `start = max(0, (page - 1) * per_page)`,
    * `items_all[start:start + per_page]`. */
  function GalleryPage<T>(items: seq<T>, page: int, perPage: int): seq<T> {
    var start := if (page - 1) * perPage > 0 then (page - 1) * perPage else 0;
    PySlice(items, start, start + perPage)
  }

  /** A negative page size reaches the negative-index reading of the slice:
    * with three items, page 1 of size -1 lists the first two items. */
  lemma GalleryPageNegativeSize()
    ensures GalleryPage([10, 20, 30], 1, -1) == [10, 20]
  {
  }

  /** The gallery page with the page size taken as at least 0, as a page size is meant. */
  function GalleryPageIntended<T>(items: seq<T>, page: int, perPage: int): seq<T> {
    var size := if perPage > 0 then perPage else 0;
    var start := if (page - 1) * size > 0 then (page - 1) * size else 0;
    PySlice(items, start, start + size)
  }

  /** Page p (from 1) of a page size k holds the items from (p - 1) k up to
    * p k, clipped to the list; a page never holds more than the page size. */
  lemma GalleryPageIntendedSpec<T>(items: seq<T>, page: int, perPage: int)
    ensures |GalleryPageIntended(items, page, perPage)| <= (if perPage > 0 then perPage else 0)
    ensures page >= 1 && perPage >= 0 ==>
      GalleryPageIntended(items, page, perPage)
      == items[MinNat((page - 1) * perPage, |items|)..MinNat(page * perPage, |items|)]
    ensures perPage >= 0 ==> GalleryPageIntended(items, page, perPage) == GalleryPage(items, page, perPage)
  {
    if page >= 1 && perPage >= 0 {
      assert (page - 1) * perPage >= 0;
      assert page * perPage == (page - 1) * perPage + perPage;
    }
  }

  /** The first n pages of size k, one after the other. */
  function Pages<T>(items: seq<T>, n: nat, perPage: nat): seq<T> {
    if n == 0 then [] else Pages(items, n - 1, perPage) + GalleryPageIntended(items, n, perPage)
  }

  /** The pages tile the list: the first n pages are the first n k items,
    * with nothing skipped or repeated. */
  lemma {:induction false} PagesTile<T>(items: seq<T>, n: nat, perPage: nat)
    ensures Pages(items, n, perPage) == items[..MinNat(n * perPage, |items|)]
  {
    if n > 0 {
      MulStep(n, perPage);
      var a, b := MinNat((n - 1) * perPage, |items|), MinNat(n * perPage, |items|);
      PagesTile(items, n - 1, perPage);
      PageSlice(items, n, perPage);
      PrefixSplit(items, Pages(items, n - 1, perPage), GalleryPageIntended(items, n, perPage), a, b);
    }
  }

  lemma PageSlice<T>(items: seq<T>, n: nat, perPage: nat)
    requires n >= 1
    ensures GalleryPageIntended(items, n, perPage) == items[MinNat((n - 1) * perPage, |items|)..MinNat(n * perPage, |items|)]
  {
    GalleryPageIntendedSpec(items, n, perPage);
  }

  lemma MulStep(n: int, k: int)
    ensures n * k == (n - 1) * k + k
  {
  }

  lemma PrefixSplit<T>(items: seq<T>, prefix: seq<T>, page: seq<T>, a: nat, b: nat)
    requires a <= b <= |items| && prefix == items[..a] && page == items[a..b]
    ensures prefix + page == items[..b]
  {
  }

  // ---------------------------------------------------------------- sample-type synonyms

  /** The synonyms of `canon_st`. */
  const SampleTypeSynonyms: map<string, string> := map["岩屽" := "岩屑", "岩芯" := "岩心", "钻井液" := "泥浆", "岩屑岩心" := "岩屑"]

  /** A synonym's sample type is not itself a synonym, is not empty and
    * has no padding. */
  lemma SynonymTargets(t: string)
    requires t in SampleTypeSynonyms
    ensures SampleTypeSynonyms[t] !in SampleTypeSynonyms && SampleTypeSynonyms[t] != ""
    ensures Strip(SampleTypeSynonyms[t]) == SampleTypeSynonyms[t]
  {
    StripNoop("岩屑");
    StripNoop("岩心");
    StripNoop("泥浆");
  }

  /** `mapping.get(t, t)`. */
  function Synonym(t: string): string {
    if t in SampleTypeSynonyms then SampleTypeSynonyms[t] else t
  }

  /** Mapping a stripped name through the synonyms gives a stripped name
    * that is not a synonym, and empty only for the empty name. */
  lemma SynonymSpec(t: string)
    requires Strip(t) == t
    ensures Synonym(t) !in SampleTypeSynonyms && Strip(Synonym(t)) == Synonym(t)
    ensures Synonym(t) == "" <==> t == ""
  {
    if t in SampleTypeSynonyms {
      SynonymTargets(t);
    }
    assert "" !in SampleTypeSynonyms;
  }

  /** `canon_st`: strip, map a synonym to its sample type, and nothing for
    * an empty name. */
  function CanonSampleType(s: Option<string>): Option<string> {
    var c := Synonym(Strip(if s.Some? then s.value else ""));
    if c == "" then None else Some(c)
  }

  /** The result is never empty, never a synonym and never padded, so
    * applying the synonyms again changes nothing. */
  lemma CanonSampleTypeSpec(s: Option<string>)
    ensures CanonSampleType(s).Some? ==>
      CanonSampleType(s).value != "" && CanonSampleType(s).value !in SampleTypeSynonyms
    ensures CanonSampleType(CanonSampleType(s)) == CanonSampleType(s)
  {
    var x := if s.Some? then s.value else "";
    var t := Strip(x);
    StripIdempotent(x);
    SynonymSpec(t);
    var c := Synonym(t);
    StripNoop("");
    SynonymSpec("");
    if c != "" {
      SynonymSpec(c);
      assert Synonym(c) == c;
    }
  }
}
