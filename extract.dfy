// The archive extractor's bookkeeping: progress percentages, which member
// names are themselves archives, which extractor an archive name selects,
// the name a single compressed stream is written to, the "name(i).ext"
// rule that avoids overwriting, and the counters of the extraction summary.
// Reading archives and writing files are not modelled: an archive is given
// as the list of its file members.

module Extract {
  import opened Text
  import opened EncodingUtils

  /** `_percent`: the share done, in percent; an empty job counts as complete. */
  function Percent(done: int, total: int): (r: real)
    ensures total == 0 ==> r == 100.0
  {
    if total != 0 then done as real / total as real * 100.0 else 100.0
  }

  /** A job with everything done is at 100 percent. */
  lemma PercentFull(n: int)
    requires n != 0
    ensures Percent(n, n) == 100.0
  {
    assert n as real / n as real == 1.0;
  }

  /** Progress within the total lies between 0 and 100 percent. */
  lemma PercentBounds(done: nat, total: nat)
    requires done <= total
    ensures 0.0 <= Percent(done, total) <= 100.0
  {
    if total > 0 {
      RatioFacts(done, total);
    }
  }

  // ---------------------------------------------------------------- archive names

  /** The extensions the command line collects archives by: the three
    * formats with an extractor of their own, the tar forms and the bare
    * streams. */
  const SupportedExts: seq<string> := ArchiveExts + TarExts + StreamExts

  const ArchiveExts: seq<string> := [".zip", ".7z", ".rar"]

  /** The extensions that mark a member as a nested archive. */
  const NestedExts: seq<string> := [".zip", ".7z", ".rar", ".tar", ".gz", ".bz2", ".xz",
    ".tgz", ".tbz2", ".txz", ".tar.gz", ".tar.bz2", ".tar.xz"]

  /** The compound and short forms of tar archives. */
  const TarExts: seq<string> := [".tar", ".tgz", ".tar.gz", ".tbz2", ".tar.bz2", ".txz", ".tar.xz"]

  /** The single compressed streams. */
  const StreamExts: seq<string> := [".gz", ".bz2", ".xz"]

  /** Python's `s.endswith(tuple)` / `any(s.endswith(e) for e in exts)`. */
  predicate EndsWithAny(s: string, exts: seq<string>) {
    exists k :: 0 <= k < |exts| && IsSuffix(exts[k], s)
  }

  /** `_is_nested_archive`. */
  predicate IsNestedArchive(name: string) { EndsWithAny(Lower(name), NestedExts) }

  /** The two extension lists hold the same thirteen extensions, so a member
    * is reported as nested exactly when the command line would pick it up as
    * an archive of its own. */
  lemma NestedIsSupported(name: string)
    ensures IsNestedArchive(name) <==> EndsWithAny(Lower(name), SupportedExts)
  {
    SameExtensions(Lower(name));
  }

  lemma SameExtensions(low: string)
    ensures EndsWithAny(low, NestedExts) <==> EndsWithAny(low, SupportedExts)
  {
    assert forall k :: 0 <= k < |NestedExts| ==> NestedExts[k] in SupportedExts;
    assert forall k :: 0 <= k < |SupportedExts| ==> SupportedExts[k] in NestedExts;
    if EndsWithAny(low, NestedExts) {
      var k :| 0 <= k < |NestedExts| && IsSuffix(NestedExts[k], low);
      var j :| 0 <= j < |SupportedExts| && SupportedExts[j] == NestedExts[k];
    }
    if EndsWithAny(low, SupportedExts) {
      var k :| 0 <= k < |SupportedExts| && IsSuffix(SupportedExts[k], low);
      var j :| 0 <= j < |NestedExts| && NestedExts[j] == SupportedExts[k];
    }
  }

  /** The archive formats `extract_archive` dispatches to. */
  datatype Format = Zip | SevenZip | Rar | Tar | SingleStream | Unsupported

  /** The suffix dispatch of `extract_archive`, on the lower-cased file name:
    * zip, 7z and rar first, then the tar forms, then bare streams. */
  function Dispatch(name: string): Format {
    DispatchLower(Lower(name))
  }

  function DispatchLower(low: string): Format {
    if IsSuffix(".zip", low) then Zip
    else if IsSuffix(".7z", low) then SevenZip
    else if IsSuffix(".rar", low) then Rar
    else if EndsWithAny(low, TarExts) then Tar
    else if EndsWithAny(low, StreamExts) then SingleStream
    else Unsupported
  }

  /** A name is refused exactly when it ends in none of the supported extensions. */
  lemma DispatchSupported(name: string)
    ensures Dispatch(name) != Unsupported <==> EndsWithAny(Lower(name), SupportedExts)
  {
    DispatchLowerSupported(Lower(name));
  }

  lemma DispatchLowerSupported(low: string)
    ensures DispatchLower(low) != Unsupported <==> EndsWithAny(low, SupportedExts)
  {
    SupportedSplits(low);
    TarIsSupported(low);
    StreamIsSupported(low);
    if IsSuffix(".zip", low) {
      assert IsSuffix(SupportedExts[0], low);
    } else if IsSuffix(".7z", low) {
      assert IsSuffix(SupportedExts[1], low);
    } else if IsSuffix(".rar", low) {
      assert IsSuffix(SupportedExts[2], low);
    }
  }

  /** The supported extensions are zip, 7z, rar, the tar forms and the streams. */
  lemma SupportedSplits(low: string)
    ensures EndsWithAny(low, SupportedExts) ==>
      IsSuffix(".zip", low) || IsSuffix(".7z", low) || IsSuffix(".rar", low)
      || EndsWithAny(low, TarExts) || EndsWithAny(low, StreamExts)
  {
    if EndsWithAny(low, SupportedExts) {
      var k :| 0 <= k < |SupportedExts| && IsSuffix(SupportedExts[k], low);
      if 10 <= k {
        assert SupportedExts[k] == StreamExts[k - 10];
      } else if 3 <= k {
        assert SupportedExts[k] == TarExts[k - 3];
      } else {
        assert SupportedExts[k] == ArchiveExts[k];
      }
    }
  }

  lemma TarIsSupported(low: string)
    ensures EndsWithAny(low, TarExts) ==> EndsWithAny(low, SupportedExts)
  {
    if EndsWithAny(low, TarExts) {
      var k :| 0 <= k < |TarExts| && IsSuffix(TarExts[k], low);
      assert TarExts[k] == SupportedExts[k + 3];
    }
  }

  lemma StreamIsSupported(low: string)
    ensures EndsWithAny(low, StreamExts) ==> EndsWithAny(low, SupportedExts)
  {
    if EndsWithAny(low, StreamExts) {
      var k :| 0 <= k < |StreamExts| && IsSuffix(StreamExts[k], low);
      assert StreamExts[k] == SupportedExts[10 + k];
    }
  }

  /** A compressed tarball is unpacked as a tar archive, never as a bare stream. */
  lemma TarballsAreTar(name: string)
    requires EndsWithAny(Lower(name), [".tar.gz", ".tar.bz2", ".tar.xz"])
    ensures Dispatch(name) == Tar
  {
    var low := Lower(name);
    var k :| 0 <= k < 3 && IsSuffix([".tar.gz", ".tar.bz2", ".tar.xz"][k], low);
    var e := [".tar.gz", ".tar.bz2", ".tar.xz"][k];
    assert e == TarExts[2 + 2 * k];
    NotEndingIn(low, e);
  }

  /** A name ending in a tarball extension ends in none of zip, 7z or rar. */
  lemma NotEndingIn(low: string, e: string)
    requires e in [".tar.gz", ".tar.bz2", ".tar.xz"] && IsSuffix(e, low)
    ensures !IsSuffix(".zip", low) && !IsSuffix(".7z", low) && !IsSuffix(".rar", low)
  {
    EndsWith(e, low);
    EndsWith(".zip", low);
    EndsWith(".7z", low);
    EndsWith(".rar", low);
  }

  /** A suffix fixes the last two characters. */
  lemma EndsWith(p: string, s: string)
    requires |p| >= 2
    ensures IsSuffix(p, s) ==> |s| >= 2 && s[|s| - 1] == p[|p| - 1] && s[|s| - 2] == p[|p| - 2]
  {
    if IsSuffix(p, s) {
      assert s[|s| - |p|..][|p| - 1] == s[|s| - 1];
      assert s[|s| - |p|..][|p| - 2] == s[|s| - 2];
    }
  }

  // ---------------------------------------------------------------- single streams

  /** `PurePath.suffix`: from the last '.', unless that dot starts the name or ends it. */
  function PathSuffix(name: string): (r: string)
    ensures IsSuffix(r, name)
    ensures r != "" ==> r[0] == '.' && |r| < |name| && !HasChar(r[1..], '.')
  {
    var i := RFindChar(name, '.');
    if 0 < i < |name| - 1 then name[i..] else ""
  }

  /** `PurePath.stem`: the name without its suffix. */
  function PathStem(name: string): (r: string)
    ensures r + PathSuffix(name) == name
  {
    name[..|name| - |PathSuffix(name)|]
  }

  /** The decompressors of the bare streams. */
  datatype Opener = Gzip | Bzip2 | Lzma

  /** `_extract_single_stream`: the decompressor chosen by the path suffix and
    * the output name without it; None where the source raises. */
  function StreamTarget(name: string): Option<(Opener, string)> {
    var suffix := Lower(PathSuffix(name));
    var out := PathStem(name);
    if suffix == ".gz" then Some((Gzip, out))
    else if suffix == ".bz2" then Some((Bzip2, out))
    else if suffix == ".xz" then Some((Lzma, out))
    else None
  }

  /** A bare stream is written under its name without the compression
    * extension, and the output name is never empty; a stream whose whole
    * name is the extension (".gz") has no suffix in the path sense and is
    * refused. */
  lemma StreamTargetSpec(name: string)
    ensures StreamTarget(name).Some? ==>
      |StreamTarget(name).value.1| > 0 && StreamTarget(name).value.1 + PathSuffix(name) == name
      && PathSuffix(name) != ""
    ensures Lower(name) in [".gz", ".bz2", ".xz"] ==> StreamTarget(name).None?
  {
    if Lower(name) in [".gz", ".bz2", ".xz"] {
      BareExtension(name);
      OnlyLeadingDot(name);
    }
  }

  /** A name that lowers to a bare extension has its one dot in front. */
  lemma BareExtension(name: string)
    requires Lower(name) in [".gz", ".bz2", ".xz"]
    ensures |name| > 0 && name[0] == '.' && forall j :: 0 < j < |name| ==> name[j] != '.'
  {
    var low := Lower(name);
    LowerKeepsDots(name);
    assert low[0] == '.';
    if low == ".gz" {
      assert forall j :: 0 < j < |low| ==> low[j] != '.';
    } else if low == ".bz2" {
      assert forall j :: 0 < j < |low| ==> low[j] != '.';
    } else {
      assert forall j :: 0 < j < |low| ==> low[j] != '.';
    }
  }

  /** A name whose only dot is its first character has no suffix, so it is
    * not a stream. */
  lemma OnlyLeadingDot(name: string)
    requires |name| > 0 && name[0] == '.' && forall j :: 0 < j < |name| ==> name[j] != '.'
    ensures PathSuffix(name) == "" && StreamTarget(name).None?
  {
    assert RFindChar(name, '.') == 0;
    assert Lower("") == "";
  }

  /** Every bare stream with something before its extension is accepted, and
    * the output name is the file name without that extension. */
  lemma StreamNamesAccepted(name: string, ext: string)
    requires ext in StreamExts && IsSuffix(ext, Lower(name)) && |name| > |ext|
    ensures StreamTarget(name).Some? && StreamTarget(name).value.1 == name[..|name| - |ext|]
  {
    var i := |name| - |ext|;
    LastDot(name, ext);
    assert PathSuffix(name) == name[i..];
    LowerSlice(name, i);
  }

  /** The dot of a stream extension is the last dot of the name. */
  lemma LastDot(name: string, ext: string)
    requires ext in StreamExts && IsSuffix(ext, Lower(name)) && |name| > |ext|
    ensures RFindChar(name, '.') == |name| - |ext|
  {
    StreamExtShape(ext);
    LowerKeepsDots(name);
    DotBeforeExtension(name, Lower(name), ext);
  }

  lemma LowerKeepsDots(s: string)
    ensures |Lower(s)| == |s| && forall j :: 0 <= j < |s| ==> (Lower(s)[j] == '.' <==> s[j] == '.')
  {
  }

  lemma DotBeforeExtension(name: string, low: string, ext: string)
    requires |low| == |name| > |ext| && IsSuffix(ext, low)
    requires forall j :: 0 <= j < |name| ==> (low[j] == '.' <==> name[j] == '.')
    requires |ext| > 0 && ext[0] == '.' && forall j :: 0 < j < |ext| ==> ext[j] != '.'
    ensures RFindChar(name, '.') == |name| - |ext|
  {
    var i := |name| - |ext|;
    assert forall j :: i <= j < |name| ==> low[j] == ext[j - i];
    RFindLast(name, '.', i);
  }

  /** A stream extension has its only dot in front. */
  lemma StreamExtShape(ext: string)
    requires ext in StreamExts
    ensures |ext| >= 3 && ext[0] == '.' && forall j :: 0 < j < |ext| ==> ext[j] != '.'
  {
  }

  /** RFindChar returns the last occurrence that the caller has identified. */
  lemma {:induction false} RFindLast(s: string, c: char, k: int)
    requires 0 <= k < |s| && s[k] == c
    requires forall j :: k < j < |s| ==> s[j] != c
    ensures RFindChar(s, c) == k
    decreases |s|
  {
    if k < |s| - 1 {
      RFindLast(s[..|s| - 1], c, k);
    }
  }

  lemma LowerSlice(s: string, i: nat)
    requires i <= |s|
    ensures Lower(s[i..]) == Lower(s)[i..]
  {
  }

  // ---------------------------------------------------------------- unique names

  /** A target path: its directory and its file name. */
  datatype FilePath = FilePath(parent: string, name: string)

  /** `parent / f"{stem}({i}){suffix}"`. */
  function Candidate(p: FilePath, i: nat): FilePath {
    FilePath(p.parent, PathStem(p.name) + "(" + NatToString(i) + ")" + PathSuffix(p.name))
  }

  /** Different counters give different names. */
  lemma CandidateInjective(p: FilePath, i: nat, j: nat)
    requires Candidate(p, i) == Candidate(p, j)
    ensures i == j
  {
    Bracketed(PathStem(p.name), PathSuffix(p.name), NatToString(i), NatToString(j));
    NatToStringInjective(i, j);
  }

  /** Two names that differ only between the brackets have the same text there. */
  lemma Bracketed(stem: string, suffix: string, a: string, b: string)
    requires stem + "(" + a + ")" + suffix == stem + "(" + b + ")" + suffix
    ensures a == b
  {
    var x := stem + "(" + a + ")" + suffix;
    var y := stem + "(" + b + ")" + suffix;
    assert |a| == |b| by {
      assert |x| == |stem| + |a| + 2 + |suffix|;
      assert |y| == |stem| + |b| + 2 + |suffix|;
    }
    assert x[|stem| + 1..|stem| + 1 + |a|] == a;
    assert y[|stem| + 1..|stem| + 1 + |b|] == b;
  }

  /** The first n candidates. */
  function Candidates(p: FilePath, n: nat): set<FilePath> {
    if n == 0 then {} else Candidates(p, n - 1) + {Candidate(p, n)}
  }

  lemma {:induction false} CandidatesMembers(p: FilePath, n: nat)
    ensures forall c :: c in Candidates(p, n) ==> exists j :: 1 <= j <= n && c == Candidate(p, j)
  {
    if n > 0 {
      CandidatesMembers(p, n - 1);
    }
  }

  lemma {:induction false} CandidatesSize(p: FilePath, n: nat)
    ensures |Candidates(p, n)| == n
  {
    if n > 0 {
      CandidatesSize(p, n - 1);
      CandidatesMembers(p, n - 1);
      forall j | 1 <= j <= n - 1 ensures Candidate(p, j) != Candidate(p, n) {
        if Candidate(p, j) == Candidate(p, n) {
          CandidateInjective(p, j, n);
        }
      }
    }
  }

  /** A candidate is longer than the name it is made from, so it is never that path. */
  lemma CandidateDiffers(p: FilePath, j: nat)
    ensures Candidate(p, j) != p
  {
    assert |Candidate(p, j).name| > |p.name|;
  }

  /** When p and its first n candidates all exist, there are more than n paths. */
  lemma Crowded(p: FilePath, existing: set<FilePath>, n: nat)
    requires p in existing
    requires forall j :: 1 <= j <= n ==> Candidate(p, j) in existing
    ensures n < |existing|
  {
    CandidatesSize(p, n);
    CandidatesMembers(p, n);
    var others := existing - {p};
    assert Candidates(p, n) <= others by {
      forall c | c in Candidates(p, n) ensures c in others {
        var j :| 1 <= j <= n && c == Candidate(p, j);
        CandidateDiffers(p, j);
      }
    }
    SubsetSize(Candidates(p, n), others);
  }

  lemma SubsetSize<T>(a: set<T>, b: set<T>)
    requires a <= b
    ensures |a| <= |b|
  {
    assert b == a + (b - a);
  }

  /** `_ensure_unique`, against the set of paths that exist: the path itself
    * when it is free, otherwise "stem(i).suffix" for the smallest i >= 1
    * that is free. */
  method EnsureUnique(p: FilePath, existing: set<FilePath>) returns (q: FilePath)
    ensures q !in existing
    ensures p !in existing ==> q == p
    ensures p in existing ==> FirstFree(p, existing, q)
  {
    if p !in existing {
      return p;
    }
    var i := 1;
    while Candidate(p, i) in existing
      invariant 1 <= i <= |existing|
      invariant forall j :: 1 <= j < i ==> Candidate(p, j) in existing
      decreases |existing| - i
    {
      Crowded(p, existing, i);
      i := i + 1;
    }
    q := Candidate(p, i);
  }

  /** q is the candidate with the smallest counter that is not taken. */
  predicate FirstFree(p: FilePath, existing: set<FilePath>, q: FilePath) {
    exists i :: 1 <= i <= |existing| && q == Candidate(p, i)
      && (forall j :: 1 <= j < i ==> Candidate(p, j) in existing)
  }

  // ---------------------------------------------------------------- member names

  /** The name of a zip member: back slashes become '/'; a member without the
    * UTF-8 flag has each segment repaired (`recode` as for `normalize_zip_name`). */
  function ZipRel(name: string, utf8: bool, recode: string -> Option<string>): string {
    var rel := ReplaceChar(name, '\\', '/');
    if utf8 then rel else NormalizeZipName(rel, recode)
  }

  /** A member none of whose segments gets repaired keeps its '/'-form name,
    * with or without the UTF-8 flag. */
  lemma ZipRelKeeps(name: string, utf8: bool, recode: string -> Option<string>)
    requires NoneRecoded(Segments(ReplaceChar(name, '\\', '/')), recode)
    ensures ZipRel(name, utf8, recode) == ReplaceChar(name, '\\', '/')
    ensures !HasChar(ZipRel(name, utf8, recode), '\\')
  {
    var rel := ReplaceChar(name, '\\', '/');
    NormalizeZipNameKeeps(rel, recode);
    assert ReplaceChar(rel, '\\', '/') == rel;
  }

  /** The name of a tar member: back slashes become '/'; a name that looks
    * like mojibake and encodes as Latin-1 is decoded again from those bytes
    * with UTF-8, GB18030 and GBK (`decode`), Latin-1 as the last resort. */
  function TarRel(name: string, decode: (string, Bytes) -> Option<string>): string {
    var rel := ReplaceChar(name, '\\', '/');
    if LooksMojibake(rel) then
      match Latin1Encode(rel)
      case None => rel
      case Some(b) => Decoded(b, DefaultEncodings, decode)
    else rel
  }

  /** A tar member name is only changed when it looks like mojibake and one of
    * the three encodings decodes its bytes; otherwise the repair falls back
    * to Latin-1 and gives the same name back. */
  lemma TarRelSpec(name: string, decode: (string, Bytes) -> Option<string>)
    ensures var rel := ReplaceChar(name, '\\', '/');
      TarRel(name, decode) != rel ==>
        LooksMojibake(rel) && Latin1Encode(rel).Some?
        && FirstDecoding(Latin1Encode(rel).value, DefaultEncodings, decode) == Some(TarRel(name, decode))
  {
    var rel := ReplaceChar(name, '\\', '/');
    if LooksMojibake(rel) && Latin1Encode(rel).Some? {
      Latin1EncodeRoundTrip(rel);
    }
  }

  /** The name of a rar member: as for tar, but the bytes are the name encoded
    * as CP437 (`cp437`, None when it raises) and the order is GB18030, GBK,
    * UTF-8. */
  function RarRel(name: string, cp437: string -> Option<Bytes>, decode: (string, Bytes) -> Option<string>): (r: string)
    ensures !LooksMojibake(ReplaceChar(name, '\\', '/')) ==> r == ReplaceChar(name, '\\', '/')
    ensures r != ReplaceChar(name, '\\', '/') ==> cp437(ReplaceChar(name, '\\', '/')).Some?
  {
    var rel := ReplaceChar(name, '\\', '/');
    if LooksMojibake(rel) then
      match cp437(rel)
      case None => rel
      case Some(b) => Decoded(b, ["gb18030", "gbk", "utf-8"], decode)
    else rel
  }

  // ---------------------------------------------------------------- the summary

  /** A file member of an archive under its repaired name; `readable` is false
    * for a tar member whose data cannot be opened, which is skipped. */
  datatype Member = Member(rel: string, readable: bool)

  /** One progress callback: (done, total, current name). */
  datatype Report = Report(done: nat, total: nat, rel: string)

  function ReadableCount(members: seq<Member>): (n: nat)
    ensures n <= |members|
  {
    if |members| == 0 then 0
    else ReadableCount(members[..|members| - 1]) + (if members[|members| - 1].readable then 1 else 0)
  }

  function NestedOf(members: seq<Member>): seq<string> {
    if |members| == 0 then []
    else
      var rel := members[|members| - 1].rel;
      NestedOf(members[..|members| - 1]) + (if IsNestedArchive(rel) then [rel] else [])
  }

  /** The callbacks of a run that starts with `start` files extracted. */
  function Reports(start: nat, total: nat, members: seq<Member>): seq<Report> {
    if |members| == 0 then []
    else
      var m := members[|members| - 1];
      var init := members[..|members| - 1];
      Reports(start, total, init)
        + (if m.readable then [Report(start + ReadableCount(init) + 1, total, m.rel)] else [])
  }

  /** One callback per extracted file, counting up from the files already
    * extracted; as long as the count stays within the total, every reported
    * percentage lies in [0, 100] and the last one is the final count. */
  lemma {:induction false} ReportsSpec(start: nat, total: nat, members: seq<Member>)
    ensures |Reports(start, total, members)| == ReadableCount(members)
    ensures forall k :: 0 <= k < |Reports(start, total, members)| ==>
      Reports(start, total, members)[k].done == start + k + 1 && Reports(start, total, members)[k].total == total
    ensures start + ReadableCount(members) <= total ==>
      forall k :: 0 <= k < |Reports(start, total, members)| ==>
        0.0 <= Percent(Reports(start, total, members)[k].done, total) <= 100.0
  {
    if |members| > 0 {
      ReportsSpec(start, total, members[..|members| - 1]);
    }
    var rs := Reports(start, total, members);
    if start + ReadableCount(members) <= total {
      forall k | 0 <= k < |rs| ensures 0.0 <= Percent(rs[k].done, total) <= 100.0 {
        PercentBounds(rs[k].done, total);
      }
    }
  }

  /** The nested archives are the members whose names mark them as archives, in order. */
  lemma {:induction false} NestedOfSpec(members: seq<Member>)
    ensures forall r :: r in NestedOf(members) <==> exists k :: 0 <= k < |members| && members[k].rel == r && IsNestedArchive(r)
    ensures |NestedOf(members)| <= |members|
  {
    if |members| > 0 {
      var init := members[..|members| - 1];
      NestedOfSpec(init);
      assert forall k :: 0 <= k < |init| ==> init[k] == members[k];
      forall r | r in NestedOf(members) && r !in NestedOf(init)
        ensures exists k :: 0 <= k < |members| && members[k].rel == r && IsNestedArchive(r)
      {
        assert members[|members| - 1].rel == r;
      }
      forall r | (exists k :: 0 <= k < |members| && members[k].rel == r && IsNestedArchive(r))
        ensures r in NestedOf(members)
      {
        var k :| 0 <= k < |members| && members[k].rel == r && IsNestedArchive(r);
        if k < |init| {
          assert init[k].rel == r;
        }
      }
    }
  }

  /** `ExtractSummary`: what one extraction reports. */
  class ExtractSummary {
    const src: string
    const outDir: string
    var total: nat
    var extracted: nat
    var skippedDirs: nat
    var nestedArchives: seq<string>
    var warnings: seq<string>

    /** No more files are extracted than were counted. */
    predicate Valid()
      reads this
    {
      extracted <= total
    }

    constructor (src: string, outDir: string)
      ensures this.src == src && this.outDir == outDir
      ensures total == 0 && extracted == 0 && skippedDirs == 0
      ensures nestedArchives == [] && warnings == []
      ensures Valid()
    {
      this.src := src;
      this.outDir := outDir;
      total := 0;
      extracted := 0;
      skippedDirs := 0;
      nestedArchives := [];
      warnings := [];
    }

    /** The loop shared by the zip, tar, 7z and rar extractors: every member
      * is counted first, nested archives are noted, each readable member is
      * written and reported. */
    method ExtractMembers(members: seq<Member>) returns (reports: seq<Report>)
      modifies this
      requires Valid()
      ensures Valid()
      ensures total == old(total) + |members|
      ensures extracted == old(extracted) + ReadableCount(members)
      ensures nestedArchives == old(nestedArchives) + NestedOf(members)
      ensures skippedDirs == old(skippedDirs) && warnings == old(warnings)
      ensures reports == Reports(old(extracted), total, members)
    {
      total := total + |members|;
      var done, nested;
      done, nested, reports := WalkMembers(extracted, total, members);
      extracted := done;
      nestedArchives := nestedArchives + nested;
    }

    /** `_extract_single_stream` after its name checks: one file counted and written. */
    method ExtractStream(outName: string) returns (reports: seq<Report>)
      modifies this
      requires Valid()
      ensures Valid()
      ensures total == old(total) + 1 && extracted == old(extracted) + 1
      ensures nestedArchives == old(nestedArchives)
      ensures skippedDirs == old(skippedDirs) && warnings == old(warnings)
      ensures reports == [Report(extracted, total, outName)]
    {
      total := total + 1;
      extracted := extracted + 1;
      reports := [Report(extracted, total, outName)];
    }
  }

  /** The member loop, starting from `start` files extracted out of `total`. */
  method WalkMembers(start: nat, total: nat, members: seq<Member>)
    returns (done: nat, nested: seq<string>, reports: seq<Report>)
    ensures done == start + ReadableCount(members)
    ensures nested == NestedOf(members)
    ensures reports == Reports(start, total, members)
  {
    done, nested, reports := start, [], [];
    for i := 0 to |members|
      invariant done == start + ReadableCount(members[..i])
      invariant nested == NestedOf(members[..i])
      invariant reports == Reports(start, total, members[..i])
    {
      var m := members[i];
      assert members[..i + 1][..i] == members[..i];
      if IsNestedArchive(m.rel) {
        nested := nested + [m.rel];
      }
      if m.readable {
        done := done + 1;
        reports := reports + [Report(done, total, m.rel)];
      }
    }
    assert members[..|members|] == members;
  }

  /** Why `extract_archive` raises. */
  datatype Failure = UnsupportedArchive | UnsupportedStream

  datatype Outcome = Extracted(summary: ExtractSummary, reports: seq<Report>) | Failed(reason: Failure)

  /** `extract_archive`: dispatch on the archive's name; `members` are its
    * file members under their repaired names (unused for a bare stream). */
  method ExtractArchive(src: string, outDir: string, members: seq<Member>) returns (r: Outcome)
    ensures Dispatch(src) == Unsupported <==> r == Failed(UnsupportedArchive)
    ensures r == Failed(UnsupportedStream) <==> Dispatch(src) == SingleStream && StreamTarget(src).None?
    ensures r.Extracted? && Dispatch(src) != SingleStream ==>
      r.summary.total == |members| && r.summary.extracted == ReadableCount(members)
      && r.summary.nestedArchives == NestedOf(members) && r.reports == Reports(0, |members|, members)
    ensures r.Extracted? && Dispatch(src) == SingleStream ==>
      r.summary.total == 1 && r.summary.extracted == 1 && r.summary.nestedArchives == []
      && r.reports == [Report(1, 1, StreamTarget(src).value.1)]
    ensures r.Extracted? ==> fresh(r.summary) && r.summary.Valid()
  {
    var summary := new ExtractSummary(src, outDir);
    var format := Dispatch(src);
    if format == Unsupported {
      return Failed(UnsupportedArchive);
    }
    if format == SingleStream {
      var target := StreamTarget(src);
      if target.None? {
        return Failed(UnsupportedStream);
      }
      var reports := summary.ExtractStream(target.value.1);
      return Extracted(summary, reports);
    }
    var reports := summary.ExtractMembers(members);
    return Extracted(summary, reports);
  }
}
