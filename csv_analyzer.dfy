/** The file-name statistics of app/csv_analyzer.py: which names are images,
  * how the image names spread over sample types, categories and extensions,
  * and the fixed rule set derived from the API sources that have data.
  * Reading the CSV files is not part of this model: the names are parameters. */
module CsvAnalyzer {
  import opened Text
  import opened Counters
  import Wells

  // ---------------------------------------------------------------- image files

  /** `self.image_extensions`. */
  const ImageExtensions: set<string> := {".jpg", ".jpeg", ".png", ".bmp", ".tiff", ".tif", ".gif", ".webp"}

  /** `PurePosixPath(p).name`: the last component that is neither empty nor
    * ".", or "" when there is none. */
  function PathName(p: string): (name: string)
    ensures !HasChar(name, '/') && name != "."
    decreases |p|
  {
    if |p| == 0 then ""
    else if p[|p| - 1] == '/' then PathName(p[..|p| - 1])
    else
      var last := AfterLast(p, '/');
      if last == "." then PathName(p[..|p| - 1]) else last
  }

  /** `PurePath.suffix`: the name from its last '.', when that dot is neither
    * the first nor the last character of the name; "" otherwise. */
  function Suffix(name: string): (r: string)
    ensures r == "" || (|r| >= 2 && |r| < |name| && IsSuffix(r, name) && r[0] == '.')
    ensures r != "" ==> forall k :: 1 <= k < |r| ==> r[k] != '.'
  {
    var i := RFindChar(name, '.');
    if 0 < i < |name| - 1 then name[i..] else ""
  }

  /** `is_image_file`: a non-empty name whose lower-cased suffix is an image extension. */
  predicate IsImageFile(f: string) {
    |f| > 0 && Lower(Suffix(PathName(f))) in ImageExtensions
  }

  /** Every image extension is a dot followed by at least three lower-case letters. */
  lemma ExtensionShapes()
    ensures forall e :: e in ImageExtensions ==>
      |e| >= 4 && e[0] == '.' && forall k :: 1 <= k < |e| ==> IsLower(e[k])
  {
  }

  lemma LowerSlice(s: string, i: int)
    requires 0 <= i <= |s|
    ensures Lower(s)[i..] == Lower(s[i..])
  {
  }

  /** An independent reading of `is_image_file`: the name is longer than an
    * image extension and ends with it, ignoring ASCII case. */
  lemma ImageFileByEnding(f: string)
    ensures IsImageFile(f) <==>
      |f| > 0 && exists e :: e in ImageExtensions && |e| < |PathName(f)| && IsSuffix(e, Lower(PathName(f)))
  {
    var n := PathName(f);
    if Lower(Suffix(n)) in ImageExtensions {
      SuffixIsEnding(n);
    }
    if exists e :: e in ImageExtensions && |e| < |n| && IsSuffix(e, Lower(n)) {
      var e :| e in ImageExtensions && |e| < |n| && IsSuffix(e, Lower(n));
      EndingIsSuffix(n, e);
    }
  }

  /** An image suffix is an image ending of the lower-cased name. */
  lemma SuffixIsEnding(n: string)
    requires Lower(Suffix(n)) in ImageExtensions
    ensures exists e :: e in ImageExtensions && |e| < |n| && IsSuffix(e, Lower(n))
  {
    var s := Suffix(n);
    assert s != "";
    var i := |n| - |s|;
    assert n[i..] == s;
    LowerSlice(n, i);
    assert IsSuffix(Lower(s), Lower(n));
  }

  /** An image ending of the lower-cased name is its suffix: an extension has
    * no second dot. */
  lemma EndingIsSuffix(n: string, e: string)
    requires e in ImageExtensions && |e| < |n| && IsSuffix(e, Lower(n))
    ensures Lower(Suffix(n)) in ImageExtensions
  {
    var low := Lower(n);
    ExtensionShapes();
    var j := |n| - |e|;
    assert low[j..] == e;
    assert low[j] == '.';
    assert n[j] == '.';
    forall k | j < k < |n| ensures n[k] != '.' {
      assert low[k] == e[k - j];
      assert IsLower(low[k]);
    }
    var r := RFindChar(n, '.');
    assert r == j;
    LowerSlice(n, j);
    assert Suffix(n) == n[j..];
  }

  // ---------------------------------------------------------------- distributions

  /** The sample types `_get_sample_type_distribution` looks for, in order. */
  const SampleTypes: seq<string> := ["岩屑", "岩心", "壁心", "泥浆", "标样"]

  /** The categories `_get_category_distribution` looks for, in order. */
  const Categories: seq<string> := ["薄片鉴定", "三维谱图", "荧光扫描", "轻烃谱图", "色谱谱图", "热解谱图"]

  /** The position of the first of words that occurs in f, or -1. */
  function FirstIndex(f: string, words: seq<string>): (i: int)
    ensures -1 <= i < |words|
    ensures i >= 0 ==> Contains(f, words[i]) && forall t :: 0 <= t < i ==> !Contains(f, words[t])
    ensures i < 0 ==> forall t :: 0 <= t < |words| ==> !Contains(f, words[t])
  {
    if |words| == 0 then -1
    else if Contains(f, words[0]) then 0
    else
      var i := FirstIndex(f, words[1..]);
      if i < 0 then -1 else i + 1
  }

  /** The first of words that occurs in f, as the loop with `break` finds it. */
  function FirstContained(f: string, words: seq<string>): Option<string> {
    var i := FirstIndex(f, words);
    if i < 0 then None else Some(words[i])
  }

  /** The inner loop: the first word that occurs in f. */
  method FirstIn(f: string, words: seq<string>) returns (r: Option<string>)
    ensures r == FirstContained(f, words)
  {
    var j := 0;
    while j < |words|
      invariant 0 <= j <= |words|
      invariant forall t :: 0 <= t < j ==> !Contains(f, words[t])
    {
      if Contains(f, words[j]) {
        return Some(words[j]);
      }
      j := j + 1;
    }
    return None;
  }

  /** What a distribution over words counts a name under: the first word an
    * image name contains; nothing for other names. */
  function WordKey(words: seq<string>): string -> Option<string> {
    f => if IsImageFile(f) then FirstContained(f, words) else None
  }

  /** The loop shared by `_get_sample_type_distribution` and
    * `_get_category_distribution`. */
  method FirstWordDistribution(filenames: seq<string>, words: seq<string>) returns (d: Counter<string>)
    ensures d == TallyOf(filenames, WordKey(words))
  {
    d := [];
    for i := 0 to |filenames|
      invariant d == TallyOf(filenames[..i], WordKey(words))
    {
      assert filenames[..i + 1][..i] == filenames[..i];
      var f := filenames[i];
      if !IsImageFile(f) {
        continue;
      }
      var w := FirstIn(f, words);
      if w.Some? {
        d := Bump(d, w.value);
      }
    }
    assert filenames[..|filenames|] == filenames;
  }

  /** `_get_sample_type_distribution`. */
  method SampleTypeDistribution(filenames: seq<string>) returns (d: Counter<string>)
    ensures d == TallyOf(filenames, WordKey(SampleTypes))
  {
    d := FirstWordDistribution(filenames, SampleTypes);
  }

  /** `_get_category_distribution`. */
  method CategoryDistribution(filenames: seq<string>) returns (d: Counter<string>)
    ensures d == TallyOf(filenames, WordKey(Categories))
  {
    d := FirstWordDistribution(filenames, Categories);
  }

  /** A count over names that only counts image names counts at most all of
    * them, and all of them when every image name has a key. */
  lemma {:induction false} KeyedImages<K>(fs: seq<string>, key: string -> Option<K>)
    requires forall f :: key(f).Some? ==> IsImageFile(f)
    ensures KeyedCount(fs, key) <= |Filter(fs, IsImageFile)|
    ensures (forall f :: f in fs && IsImageFile(f) ==> key(f).Some?) ==> KeyedCount(fs, key) == |Filter(fs, IsImageFile)|
  {
    if |fs| > 0 {
      var init := fs[..|fs| - 1];
      assert forall f :: f in init ==> f in fs;
      KeyedImages(init, key);
    }
  }

  /** The word distributions: every key is one of the words; a name is counted
    * under w exactly when it is an image name and w is the first word it
    * contains; so each image name is counted at most once and the counts add
    * up to at most the number of image names. */
  lemma FirstWordDistributionSpec(fs: seq<string>, words: seq<string>, w: string)
    ensures var d := TallyOf(fs, WordKey(words));
      && DistinctKeys(d)
      && (forall i :: 0 <= i < |d| ==> d[i].0 in words)
      && Get(d, w) == |Matching(fs, WordKey(words), w)|
      && (forall f :: f in Matching(fs, WordKey(words), w) <==>
            f in fs && IsImageFile(f) && FirstContained(f, words) == Some(w))
      && Total(d) <= |Filter(fs, IsImageFile)|
  {
    var key := WordKey(words);
    var d := TallyOf(fs, key);
    TallyOfExact(fs, key, w);
    MatchingMembers(fs, key, w);
    forall i | 0 <= i < |d| ensures d[i].0 in words {
      EntryGet(d, i);
      TallyOfHas(fs, key, d[i].0);
      var f :| f in fs && key(f) == Some(d[i].0);
    }
    TallyOfTotal(fs, key);
    KeyedImages(fs, key);
  }

  /** `re.search(r'\.([a-zA-Z]+)$', f).group(1)`: the letters after the last
    * '.', when they run up to where `$` matches and there is at least one. */
  function ExtensionOf(f: string): (r: Option<string>)
    ensures r.Some? ==> |r.value| > 0 && forall k :: 0 <= k < |r.value| ==> IsLetter(r.value[k])
  {
    var e := Wells.TextEnd(f);
    var k := Wells.LetterRunBefore(f, e);
    if 0 < k < e && f[e - k - 1] == '.' then Some(f[e - k..e]) else None
  }

  /** What `_get_file_extension_distribution` counts an image name under. */
  function ExtensionKey(f: string): Option<string> {
    if !IsImageFile(f) then None
    else match ExtensionOf(f)
      case Some(x) => Some(Lower(x))
      case None => None
  }

  /** `_get_file_extension_distribution`. */
  method ExtensionDistribution(filenames: seq<string>) returns (d: Counter<string>)
    ensures d == TallyOf(filenames, ExtensionKey)
  {
    d := [];
    for i := 0 to |filenames|
      invariant d == TallyOf(filenames[..i], ExtensionKey)
    {
      assert filenames[..i + 1][..i] == filenames[..i];
      var f := filenames[i];
      if !IsImageFile(f) {
        continue;
      }
      var ext := ExtensionOf(f);
      if ext.Some? {
        d := Bump(d, Lower(ext.value));
      }
    }
    assert filenames[..|filenames|] == filenames;
  }

  /** The suffix of an image name is a dot and at least three letters, and
    * when the name ends the path those are the path's last characters. */
  lemma ImageSuffixShape(f: string, n: string, s: string) returns (j: int)
    requires IsSuffix(n, f) && s == Suffix(n) && Lower(s) in ImageExtensions
    ensures 0 <= j && j + 3 < |f| && f[j] == '.'
    ensures forall k :: j < k < |f| ==> IsLetter(f[k])
    ensures f[j..] == s
  {
    ImageExtensionShape(Lower(s));
    LettersBelowLower(s);
    j := |f| - |s|;
    SuffixOfSuffix(f, n, s);
  }

  lemma ImageExtensionShape(x: string)
    requires x in ImageExtensions
    ensures |x| >= 4 && x[0] == '.' && forall k :: 1 <= k < |x| ==> IsLower(x[k])
  {
    ExtensionShapes();
  }

  /** A character whose lower-case form is a lower-case letter is a letter. */
  lemma LettersBelowLower(s: string)
    ensures forall k :: 0 <= k < |s| && IsLower(Lower(s)[k]) ==> IsLetter(s[k])
  {
  }

  lemma SuffixOfSuffix(f: string, n: string, s: string)
    requires IsSuffix(n, f) && IsSuffix(s, n)
    ensures f[|f| - |s|..] == s
  {
    assert f[|f| - |n|..] == n;
    assert n[|n| - |s|..] == s;
  }

  /** The letters between a non-letter at j and e are the run before e. */
  lemma {:induction false} RunAfter(f: string, j: int, e: int)
    requires 0 <= j < e <= |f| && !IsLetter(f[j])
    requires forall k :: j < k < e ==> IsLetter(f[k])
    ensures Wells.LetterRunBefore(f, e) == e - j - 1
    decreases e
  {
    if e > j + 1 {
      RunAfter(f, j, e - 1);
    }
  }

  /** A name that ends with a dot and letters has those letters as its
    * alphabetic extension. */
  lemma ExtensionAfterDot(f: string, j: int)
    requires 0 <= j < |f| - 1 && f[j] == '.'
    requires forall k :: j < k < |f| ==> IsLetter(f[k])
    ensures ExtensionOf(f) == Some(f[j + 1..])
  {
    assert IsLetter(f[|f| - 1]);
    var e := Wells.TextEnd(f);
    assert e == |f|;
    RunAfter(f, j, e);
    var run := Wells.LetterRunBefore(f, e);
    assert ExtensionOf(f) == Some(f[e - run..e]);
    assert f[e - run..e] == f[j + 1..];
  }

  /** A dot and letters ending a name are its extension, and lower-casing
    * them gives the dot and the lower-cased extension. */
  lemma DotLetters(f: string, j: int)
    requires 0 <= j < |f| - 1 && f[j] == '.'
    requires forall k :: j < k < |f| ==> IsLetter(f[k])
    ensures ExtensionOf(f).Some? && Lower(f[j..]) == "." + Lower(ExtensionOf(f).value)
  {
    ExtensionAfterDot(f, j);
    assert f[j..] == "." + f[j + 1..];
    assert Lower(f[j..]) == "." + Lower(f[j + 1..]);
  }

  /** An image name that is its own last path component has its suffix as the
    * alphabetic extension: the extension is counted, and it is the lower-cased
    * suffix without its dot. */
  lemma ImageExtensionCounted(f: string)
    requires IsImageFile(f) && IsSuffix(PathName(f), f)
    ensures ExtensionKey(f).Some? && Lower(Suffix(PathName(f))) == "." + ExtensionKey(f).value
  {
    var j := ImageSuffixShape(f, PathName(f), Suffix(PathName(f)));
    DotLetters(f, j);
  }

  /** The extension distribution: every key is a non-empty run of lower-case
    * letters, each image name is counted at most once, and when every name is
    * its own last path component every image name is counted. */
  lemma ExtensionDistributionSpec(fs: seq<string>)
    ensures var d := TallyOf(fs, ExtensionKey);
      && (forall i :: 0 <= i < |d| ==> |d[i].0| > 0 && forall k :: 0 <= k < |d[i].0| ==> IsLower(d[i].0[k]))
      && Total(d) <= |Filter(fs, IsImageFile)|
      && ((forall f :: f in fs ==> IsSuffix(PathName(f), f)) ==> Total(d) == |Filter(fs, IsImageFile)|)
  {
    var d := TallyOf(fs, ExtensionKey);
    forall i | 0 <= i < |d| ensures |d[i].0| > 0 && forall k :: 0 <= k < |d[i].0| ==> IsLower(d[i].0[k]) {
      TallyOfExact(fs, ExtensionKey, d[i].0);
      EntryGet(d, i);
      TallyOfHas(fs, ExtensionKey, d[i].0);
      var f :| f in fs && ExtensionKey(f) == Some(d[i].0);
      var x := ExtensionOf(f).value;
      forall k | 0 <= k < |x| ensures IsLower(Lower(x)[k]) {
        assert IsLetter(x[k]);
      }
    }
    TallyOfTotal(fs, ExtensionKey);
    if forall f :: f in fs ==> IsSuffix(PathName(f), f) {
      forall f | f in fs && IsImageFile(f) ensures ExtensionKey(f).Some? {
        ImageExtensionCounted(f);
      }
    }
    KeyedImages(fs, ExtensionKey);
  }

  // ---------------------------------------------------------------- rules from the statistics

  /** A category rule as the app writes it; every rule here and in the rule
    * learner has mode "file". The optional fields are the dictionary keys only
    * some rules carry. */
  datatype CategoryRule = CategoryRule(
    name: string,
    priority: int,
    requireAll: seq<string>,
    imageTokensAny: Option<seq<string>>,
    specialTokens: Option<seq<string>>,
    rejectAny: Option<seq<string>>,
    apiSource: string,
    confidence: Option<real>)

  datatype SampleTypeRule = SampleTypeRule(sampleType: string, tokens: seq<string>)

  /** The `filters` entry; `list(self.image_extensions)` has no fixed order,
    * so the extensions are a set here. */
  datatype Filters = Filters(
    excludePatterns: seq<string>,
    specialHandling: seq<(string, string)>,
    imageOnly: bool,
    imageExtensions: set<string>)

  datatype EnhancedRules = EnhancedRules(categories: seq<CategoryRule>, sampleTypes: seq<SampleTypeRule>, filters: Filters)

  /** The four API sources the app knows, each the stem of a CSV file. */
  const ThinSectionSource: string := "W0501010005002"
  const ThreeDSource: string := "W0501020005001"
  const FluorescenceSource: string := "W0501030007001"
  const SpectrumSource: string := "W0501030010006"

  /** A rule of `_generate_rules_from_stats`: no image tokens and no confidence. */
  function StatsRule(name: string, priority: int, requireAll: seq<string>, special: Option<seq<string>>,
                     reject: Option<seq<string>>, api: string): CategoryRule {
    CategoryRule(name, priority, requireAll, None, special, reject, api, None)
  }

  /** The rules one API source contributes; an unknown source contributes none. */
  function SourceRules(api: string): (rules: seq<CategoryRule>)
    ensures forall r :: r in rules ==> r.apiSource == api && r.confidence.None? && r.imageTokensAny.None?
    ensures |rules| == 0 <==> api !in {ThinSectionSource, ThreeDSource, FluorescenceSource, SpectrumSource}
  {
    if api == ThinSectionSource then
      [StatsRule("单偏光", 75, ["薄片鉴定", "单偏光"], None, None, api),
       StatsRule("正交光", 75, ["薄片鉴定", "正交光"], None, None, api)]
    else if api == ThreeDSource then
      [StatsRule("三维指纹", 70, ["三维谱图", "指纹图"], None, None, api),
       StatsRule("三维立体", 70, ["三维谱图", "立体图"], None, None, api)]
    else if api == FluorescenceSource then
      [StatsRule("荧光扫描", 80, ["荧光扫描"], Some(["精选"]), None, api)]
    else if api == SpectrumSource then
      [StatsRule("轻烃谱图", 65, ["轻烃谱图"], None, Some(["标样"]), api),
       StatsRule("色谱谱图", 60, ["色谱谱图"], None, Some(["标样"]), api),
       StatsRule("热解谱图", 55, ["热解谱图"], None, Some(["标样"]), api)]
    else []
  }

  /** The category rules of a statistics dictionary, in its key order. */
  function StatsRules<S>(stats: seq<(string, S)>): seq<CategoryRule> {
    FlatMap(stats, EntryRules)
  }

  /** The rules of one dictionary entry: those of its key. */
  function EntryRules<S>(entry: (string, S)): seq<CategoryRule> {
    SourceRules(entry.0)
  }

  const EnhancedSampleTypes: seq<SampleTypeRule> := [
    SampleTypeRule("岩屑", ["岩屑", "钻屑", "岩粉"]),
    SampleTypeRule("岩心", ["岩心", "取心", "岩芯"]),
    SampleTypeRule("壁心", ["壁心", "壁取心", "壁芯"]),
    SampleTypeRule("泥浆", ["泥浆", "循环泥浆"]),
    SampleTypeRule("标样", ["标样1", "标样2", "标样3", "标样"])]

  const EnhancedFilters: Filters := Filters(
    ["标样1", "标样2", "标样3"],
    [("精选", "荧光扫描精选样品"), ("标样", "标准样品，用于校准")],
    true,
    ImageExtensions)

  /** `_generate_rules_from_stats`: the loop over the statistics extends the
    * category list; sample types and filters are fixed. */
  method GenerateRulesFromStats<S>(stats: seq<(string, S)>) returns (r: EnhancedRules)
    ensures r == EnhancedRules(StatsRules(stats), EnhancedSampleTypes, EnhancedFilters)
  {
    var categories: seq<CategoryRule> := [];
    for i := 0 to |stats|
      invariant categories == StatsRules(stats[..i])
    {
      assert stats[..i + 1][..i] == stats[..i];
      assert EntryRules(stats[i]) == SourceRules(stats[i].0);
      categories := categories + SourceRules(stats[i].0);
    }
    assert stats[..|stats|] == stats;
    r := EnhancedRules(categories, EnhancedSampleTypes, EnhancedFilters);
  }

  /** The statistics themselves are never read: two dictionaries with the same
    * keys in the same order give the same rules. */
  lemma {:induction false} StatsRulesKeysOnly<S>(a: seq<(string, S)>, b: seq<(string, S)>)
    requires |a| == |b| && forall i :: 0 <= i < |a| ==> a[i].0 == b[i].0
    ensures StatsRules(a) == StatsRules(b)
  {
    if |a| > 0 {
      StatsRulesKeysOnly(a[..|a| - 1], b[..|b| - 1]);
    }
  }

  /** A rule is generated exactly when it is one of the fixed rules of a source
    * that has statistics; it names that source and has no confidence. */
  lemma StatsRulesMembers<S>(stats: seq<(string, S)>, r: CategoryRule)
    ensures r in StatsRules(stats) <==> exists i :: 0 <= i < |stats| && r in SourceRules(stats[i].0)
    ensures r in StatsRules(stats) ==> r.confidence.None? && exists i :: 0 <= i < |stats| && stats[i].0 == r.apiSource
  {
    FlatMapMembers(stats, EntryRules, r);
    assert forall i :: 0 <= i < |stats| ==> EntryRules(stats[i]) == SourceRules(stats[i].0);
  }
}
