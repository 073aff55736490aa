/** The rule learner of app/rule_learner.py: the keywords and the sample type
  * of a file name, the anomalies a file name shows and their severity, the
  * ranking of anomalous names, the category rules learned from the image
  * names of one API source, and the rule suggestions. The CSV files are
  * parameters (the image names read from them); the JSON and YAML files the
  * learner writes are not part of this model. */
module RuleLearner {
  import opened Text
  import Regex
  import Wells
  import opened CsvAnalyzer

  // ---------------------------------------------------------------- keywords

  /** `[a-zA-Z一-龥]`. */
  predicate IsKeywordChar(c: char) { IsLetter(c) || IsHan(c) }

  /** A keyword is kept when it is longer than one character. */
  predicate IsLongWord(w: string) { |w| > 1 }

  /** `_extract_keywords`: drop a final `.letters` extension, take the runs of
    * letters and Han characters, keep those longer than one character. */
  function ExtractKeywords(filename: string): (keywords: seq<string>)
    ensures forall i :: 0 <= i < |keywords| ==>
      |keywords[i]| > 1 && forall k :: 0 <= k < |keywords[i]| ==> IsKeywordChar(keywords[i][k])
  {
    var name := Regex.Sub(Wells.AlphaExtRe, filename, "");
    var runs := Runs(name, IsKeywordChar);
    var keywords := Filter(runs, IsLongWord);
    FilterExact(runs, IsLongWord);
    assert forall i :: 0 <= i < |keywords| ==> keywords[i] in keywords;
    keywords
  }

  /** The keywords are pieces of the name without its extension, in the order
    * they occur; joined, the runs they come from are all its letters and Han
    * characters. */
  lemma KeywordsOfName(filename: string)
    ensures var name := Regex.Sub(Wells.AlphaExtRe, filename, "");
      && (forall w :: w in ExtractKeywords(filename) ==> Contains(name, w))
      && Concat(Runs(name, IsKeywordChar)) == Filter(name, IsKeywordChar)
      && (forall w :: w in Runs(name, IsKeywordChar) && |w| > 1 ==> w in ExtractKeywords(filename))
  {
    var name := Regex.Sub(Wells.AlphaExtRe, filename, "");
    RunsOccur(name, IsKeywordChar);
    RunsConcat(name, IsKeywordChar);
    FilterExact(Runs(name, IsKeywordChar), IsLongWord);
  }

  // ---------------------------------------------------------------- sample type

  /** `_identify_sample_type`: the first of the five sample types the name
    * contains, or None. */
  function IdentifySampleType(filename: string): (r: Option<string>)
    ensures r.None? <==> !ContainsAny(filename, SampleTypes)
    ensures r.Some? ==> Contains(filename, r.value)
    ensures r.Some? ==> exists i :: IsFirstSampleType(filename, i) && SampleTypes[i] == r.value
  {
    FirstContained(filename, SampleTypes)
  }

  /** SampleTypes[i] is the first sample type the name contains. */
  predicate IsFirstSampleType(filename: string, i: int) {
    0 <= i < |SampleTypes| && Contains(filename, SampleTypes[i])
    && forall t :: 0 <= t < i ==> !Contains(filename, SampleTypes[t])
  }

  // ---------------------------------------------------------------- anomalies

  /** The anomalies `_check_filename_anomalies` reports, in the order it checks them. */
  datatype Anomaly = MissingWell | MissingDepth | MissingSampleType | MissingCategory | SpecialCharacters | TooLong

  /** What each anomaly adds to the severity. */
  function Weight(a: Anomaly): (w: nat)
    ensures 1 <= w <= 3
  {
    match a
    case MissingWell => 3
    case MissingDepth => 2
    case MissingSampleType => 2
    case MissingCategory => 2
    case SpecialCharacters => 1
    case TooLong => 1
  }

  /** The position of each check. */
  function Rank(a: Anomaly): nat {
    match a
    case MissingWell => 0
    case MissingDepth => 1
    case MissingSampleType => 2
    case MissingCategory => 3
    case SpecialCharacters => 4
    case TooLong => 5
  }

  /** `\d+\.?\d*` followed by tail. */
  function DepthRe(tail: string): Regex.Re {
    Regex.Cat(Regex.Digits, Regex.Cat(Regex.Opt(Regex.Lit('.')), Regex.Cat(Regex.Star(Regex.Digit, true), Regex.Word(tail))))
  }

  /** The five depth patterns: with `m`, with the full-width `ｍ`, and a number
    * right before `.jpg`, `.png` or `.pdf`. */
  const DepthPatterns: seq<Regex.Re> :=
    [DepthRe("m"), DepthRe("ｍ"), DepthRe(".jpg"), DepthRe(".png"), DepthRe(".pdf")]

  /** The thirteen words that count as a sample type here. */
  const AnomalySampleTypes: seq<string> :=
    ["岩屑", "岩心", "壁心", "泥浆", "标样", "钻井液", "井壁取心", "井液", "循环泥浆", "取心", "岩芯", "壁取心", "壁芯"]

  /** `[\w一-龥\-\._井（）()]`: the characters that are not special. */
  predicate IsPlainChar(c: char) {
    IsWordChar(c) || IsHan(c) || c == '-' || c == '.' || c == '_' || c == '井'
    || c == '（' || c == '）' || c == '(' || c == ')'
  }

  /** The outcome of the six checks on one name. */
  datatype Checks = Checks(noWell: bool, noDepth: bool, noSampleType: bool, noCategory: bool, special: bool, tooLong: bool)

  /** The six checks of `_check_filename_anomalies`. */
  function ChecksOf(f: string): Checks {
    Checks(
      !Regex.Found(Wells.WellCharRe, f),
      !exists k :: 0 <= k < |DepthPatterns| && Regex.Found(DepthPatterns[k], f),
      !ContainsAny(f, AnomalySampleTypes),
      !ContainsAny(f, Categories),
      exists i :: 0 <= i < |f| && !IsPlainChar(f[i]),
      |f| > 100)
  }

  /** Whether a check raised the anomaly. */
  predicate Raised(a: Anomaly, c: Checks) {
    match a
    case MissingWell => c.noWell
    case MissingDepth => c.noDepth
    case MissingSampleType => c.noSampleType
    case MissingCategory => c.noCategory
    case SpecialCharacters => c.special
    case TooLong => c.tooLong
  }

  /** The anomalies are listed in the order of the checks, each at most once. */
  predicate InCheckOrder(anomalies: seq<Anomaly>) {
    forall i, j :: 0 <= i < j < |anomalies| ==> Rank(anomalies[i]) < Rank(anomalies[j])
  }

  /** The sum of the weights. */
  function Severity(anomalies: seq<Anomaly>): nat {
    if |anomalies| == 0 then 0 else Severity(anomalies[..|anomalies| - 1]) + Weight(anomalies[|anomalies| - 1])
  }

  /** The anomaly checked at position n. */
  function KindAt(n: nat): (a: Anomaly)
    requires n < 6
    ensures Rank(a) == n
  {
    [MissingWell, MissingDepth, MissingSampleType, MissingCategory, SpecialCharacters, TooLong][n]
  }

  /** The anomalies raised by the first n checks, in check order. */
  function ListedFrom(c: Checks, n: nat): seq<Anomaly>
    requires n <= 6
  {
    if n == 0 then [] else ListedFrom(c, n - 1) + (if Raised(KindAt(n - 1), c) then [KindAt(n - 1)] else [])
  }

  lemma {:induction false} ListedFromSpec(c: Checks, n: nat)
    requires n <= 6
    ensures forall a :: a in ListedFrom(c, n) <==> Raised(a, c) && Rank(a) < n
    ensures InCheckOrder(ListedFrom(c, n))
    ensures forall i :: 0 <= i < |ListedFrom(c, n)| ==> Rank(ListedFrom(c, n)[i]) < n
  {
    if n > 0 {
      ListedFromSpec(c, n - 1);
      var a := KindAt(n - 1);
      assert forall b :: Rank(b) == n - 1 ==> b == a;
    }
  }

  /** The anomalies the checks raised, in check order. */
  function Listed(c: Checks): (anomalies: seq<Anomaly>)
    ensures forall a :: a in anomalies <==> Raised(a, c)
    ensures InCheckOrder(anomalies)
  {
    ListedFromSpec(c, 6);
    ListedFrom(c, 6)
  }

  /** `_check_filename_anomalies`: the six checks, then the list and the
    * severity they build. */
  method CheckFilenameAnomalies(f: string) returns (anomalies: seq<Anomaly>, severity: nat)
    ensures anomalies == Listed(ChecksOf(f))
    ensures severity == Severity(anomalies)
  {
    var c := ChecksOf(f);
    anomalies, severity := NoteChecks(c);
  }

  /** Each check that fails appends its anomaly and adds its weight. */
  method NoteChecks(c: Checks) returns (anomalies: seq<Anomaly>, severity: nat)
    ensures anomalies == Listed(c)
    ensures severity == Severity(anomalies)
  {
    anomalies, severity := [], 0;
    anomalies, severity := Check(c, 0, anomalies, severity);
    anomalies, severity := Check(c, 1, anomalies, severity);
    anomalies, severity := Check(c, 2, anomalies, severity);
    anomalies, severity := Check(c, 3, anomalies, severity);
    anomalies, severity := Check(c, 4, anomalies, severity);
    anomalies, severity := Check(c, 5, anomalies, severity);
  }

  /** Check number n: when it fails, its anomaly is noted. */
  method Check(c: Checks, n: nat, anomalies: seq<Anomaly>, severity: nat) returns (anomalies': seq<Anomaly>, severity': nat)
    requires n < 6 && anomalies == ListedFrom(c, n) && severity == Severity(anomalies)
    ensures anomalies' == ListedFrom(c, n + 1) && severity' == Severity(anomalies')
  {
    var a := KindAt(n);
    if Raised(a, c) {
      anomalies', severity' := Note(anomalies, severity, a);
    } else {
      anomalies', severity' := anomalies, severity;
    }
  }

  /** `anomalies.append(a); severity += weight`. */
  method Note(anomalies: seq<Anomaly>, severity: nat, a: Anomaly) returns (anomalies': seq<Anomaly>, severity': nat)
    requires severity == Severity(anomalies)
    ensures anomalies' == anomalies + [a] && severity' == Severity(anomalies')
  {
    anomalies', severity' := anomalies + [a], severity + Weight(a);
    assert anomalies'[..|anomalies|] == anomalies;
  }

  /** The weight of the anomalies the first n checks raised. */
  function RaisedWeight(c: Checks, n: nat): nat
    requires n <= 6
  {
    if n == 0 then 0 else RaisedWeight(c, n - 1) + (if Raised(KindAt(n - 1), c) then Weight(KindAt(n - 1)) else 0)
  }

  lemma {:induction false} SeverityListedFrom(c: Checks, n: nat)
    requires n <= 6
    ensures Severity(ListedFrom(c, n)) == RaisedWeight(c, n)
  {
    if n > 0 {
      SeverityListedFrom(c, n - 1);
      var init, a := ListedFrom(c, n - 1), KindAt(n - 1);
      if Raised(a, c) {
        assert ListedFrom(c, n) == init + [a];
        assert (init + [a])[..|init|] == init;
      } else {
        assert ListedFrom(c, n) == init;
      }
    }
  }

  /** The severity is 3 for a missing well, 2 each for a missing depth,
    * sample type or category and 1 each for special characters and a long
    * name: so it is at most 11, and 0 exactly when no anomaly is listed. */
  lemma SeverityFormula(c: Checks)
    ensures Severity(Listed(c)) ==
      (if c.noWell then 3 else 0) + (if c.noDepth then 2 else 0) + (if c.noSampleType then 2 else 0)
      + (if c.noCategory then 2 else 0) + (if c.special then 1 else 0) + (if c.tooLong then 1 else 0)
    ensures Severity(Listed(c)) <= 11
    ensures Severity(Listed(c)) == 0 <==> |Listed(c)| == 0
  {
    SeverityListedFrom(c, 6);
    assert RaisedWeight(c, 1) == (if c.noWell then 3 else 0);
    assert RaisedWeight(c, 2) == RaisedWeight(c, 1) + (if c.noDepth then 2 else 0);
    assert RaisedWeight(c, 3) == RaisedWeight(c, 2) + (if c.noSampleType then 2 else 0);
    assert RaisedWeight(c, 4) == RaisedWeight(c, 3) + (if c.noCategory then 2 else 0);
    assert RaisedWeight(c, 5) == RaisedWeight(c, 4) + (if c.special then 1 else 0);
    assert RaisedWeight(c, 6) == RaisedWeight(c, 5) + (if c.tooLong then 1 else 0);
  }

  /** A name with its anomalies and severity, as `_generate_anomaly_analysis` records it. */
  datatype Flagged = Flagged(filename: string, anomalies: seq<Anomaly>, severity: nat)

  function NegSeverity(x: Flagged): real { -(x.severity as real) }

  /** `anomalies.sort(key=severity, reverse=True)`, stable, and the first 100 kept. */
  function RankAnomalies(found: seq<Flagged>): (ranked: seq<Flagged>)
    ensures |ranked| == |found|
  {
    SortBy(found, NegSeverity)
  }

  /** The ranking is a reordering of what was found, most severe first, and
    * the saved list is its first hundred entries. */
  lemma RankAnomaliesSpec(found: seq<Flagged>)
    ensures multiset(RankAnomalies(found)) == multiset(found)
    ensures forall i, j :: 0 <= i < j < |found| ==> RankAnomalies(found)[i].severity >= RankAnomalies(found)[j].severity
    ensures var saved := RankAnomalies(found)[..Min100(|found|)];
      forall i, j :: 0 <= i < |saved| <= j < |found| ==> saved[i].severity >= RankAnomalies(found)[j].severity
  {
    SortByCorrect(found, NegSeverity);
    var r := RankAnomalies(found);
    forall i, j | 0 <= i < j < |found| ensures r[i].severity >= r[j].severity {
      assert NegSeverity(r[i]) <= NegSeverity(r[j]);
    }
  }

  /** Names of equal severity keep the order in which they were found. */
  lemma RankAnomaliesStable(found: seq<Flagged>, severity: nat)
    ensures var sameSeverity := KeyIs(NegSeverity, -(severity as real));
      Filter(RankAnomalies(found), sameSeverity) == Filter(found, sameSeverity)
  {
    SortByStable(found, NegSeverity, -(severity as real));
  }

  function Min100(n: nat): nat { if n < 100 then n else 100 }

  // ---------------------------------------------------------------- category rules

  /** The number of names that satisfy p. */
  function CountWhere(fs: seq<string>, p: string -> bool): (n: nat)
    ensures n <= |fs|
  {
    |Filter(fs, p)|
  }

  /** A count is positive exactly when some name satisfies p. */
  lemma CountPositive(fs: seq<string>, p: string -> bool)
    ensures CountWhere(fs, p) > 0 <==> exists f :: f in fs && p(f)
  {
    FilterExact(fs, p);
    if exists f :: f in fs && p(f) {
      var f :| f in fs && p(f);
      assert f in Filter(fs, p);
    }
    if |Filter(fs, p)| > 0 {
      assert Filter(fs, p)[0] in Filter(fs, p);
    }
  }

  /** Two conditions no name satisfies together count at most every name once. */
  lemma {:induction false} CountDisjoint(fs: seq<string>, p: string -> bool, q: string -> bool)
    requires forall f :: !(p(f) && q(f))
    ensures CountWhere(fs, p) + CountWhere(fs, q) <= |fs|
  {
    if |fs| > 0 {
      CountDisjoint(fs[..|fs| - 1], p, q);
    }
  }

  /** One more name in a counting loop. */
  lemma CountStep(fs: seq<string>, i: int, p: string -> bool)
    requires 0 <= i < |fs|
    ensures CountWhere(fs[..i + 1], p) == CountWhere(fs[..i], p) + (if p(fs[i]) then 1 else 0)
  {
    assert fs[..i + 1][..i] == fs[..i];
  }

  predicate HasSinglePolar(f: string) { Contains(f, "单偏光") }
  /** `elif '正交光' in filename`: counted only without 单偏光. */
  predicate HasCrossPolarOnly(f: string) { !Contains(f, "单偏光") && Contains(f, "正交光") }
  predicate HasFingerprint(f: string) { Contains(f, "指纹图") || Contains(f, "等值图") }
  /** `elif '立体图' in filename or '三维图' in filename`. */
  predicate HasStereoOnly(f: string) { !HasFingerprint(f) && (Contains(f, "立体图") || Contains(f, "三维图")) }
  predicate HasSelected(f: string) { Contains(f, "精选") }

  /** The spectrum types in the order of the counting dictionary. */
  const SpectrumTypes: seq<string> := ["轻烃谱图", "色谱谱图", "热解谱图"]

  /** A spectrum name of type st that is not a standard sample. */
  function SpectrumHit(st: string): string -> bool {
    f => Contains(f, st) && !Contains(f, "标样")
  }

  /** A learned rule: the fraction of names behind it is its confidence. */
  function Learned(name: string, priority: int, requireAll: seq<string>, imageTokens: Option<seq<string>>,
                   reject: Option<seq<string>>, api: string, count: nat, total: nat): (r: CategoryRule)
    requires 0 < count <= total
    ensures r.apiSource == api && r.confidence.Some? && 0.0 < r.confidence.value <= 1.0
  {
    CategoryRule(name, priority, requireAll, imageTokens, None, reject, api, Some(count as real / total as real))
  }

  /** The rules of 薄片鉴定 names. */
  function ThinSectionRulesOf(fs: seq<string>, api: string): seq<CategoryRule> {
    var single, cross := CountWhere(fs, HasSinglePolar), CountWhere(fs, HasCrossPolarOnly);
    (if single > 0 then [Learned("单偏光", 75, ["薄片鉴定", "单偏光"], None, None, api, single, |fs|)] else [])
    + (if cross > 0 then [Learned("正交光", 75, ["薄片鉴定", "正交光"], None, None, api, cross, |fs|)] else [])
  }

  /** The rules of 三维谱图 names. */
  function ThreeDRulesOf(fs: seq<string>, api: string): seq<CategoryRule> {
    var fingerprint, stereo := CountWhere(fs, HasFingerprint), CountWhere(fs, HasStereoOnly);
    (if fingerprint > 0 then [Learned("三维指纹", 70, ["三维谱图"], Some(["指纹图", "等值图"]), None, api, fingerprint, |fs|)] else [])
    + (if stereo > 0 then [Learned("三维立体", 70, ["三维谱图"], Some(["立体图", "三维图"]), None, api, stereo, |fs|)] else [])
  }

  /** The one rule of 荧光扫描 names. */
  function FluorescenceRuleOf(fs: seq<string>, api: string): CategoryRule {
    var special := if CountWhere(fs, HasSelected) > 0 then ["精选"] else [];
    CategoryRule("荧光扫描", 80, ["荧光扫描"], None, Some(special), None, api, Some(1.0))
  }

  /** The rule of spectrum type t, when some name counts for it. */
  function SpectrumRuleOf(fs: seq<string>, api: string, t: nat): seq<CategoryRule>
    requires t < |SpectrumTypes|
  {
    var st := SpectrumTypes[t];
    var count := CountWhere(fs, SpectrumHit(st));
    if count > 0 then [Learned(st, 65 - t * 5, [st], None, Some(["标样"]), api, count, |fs|)] else []
  }

  /** The rules of the first n spectrum types. */
  function SpectrumRulesOf(fs: seq<string>, api: string, n: nat): seq<CategoryRule>
    requires n <= |SpectrumTypes|
  {
    if n == 0 then [] else SpectrumRulesOf(fs, api, n - 1) + SpectrumRuleOf(fs, api, n - 1)
  }

  /** What `_learn_category_rules` returns for a category. */
  function CategoryRulesOf(fs: seq<string>, category: string, api: string): seq<CategoryRule> {
    if category == "薄片鉴定" then ThinSectionRulesOf(fs, api)
    else if category == "三维谱图" then ThreeDRulesOf(fs, api)
    else if category == "荧光扫描" then [FluorescenceRuleOf(fs, api)]
    else if category == "谱图分析" then SpectrumRulesOf(fs, api, 3)
    else []
  }

  /** `csv_to_category.get(api_source, '未知')`. */
  function CategoryOfSource(api: string): string {
    if api == ThinSectionSource then "薄片鉴定"
    else if api == ThreeDSource then "三维谱图"
    else if api == FluorescenceSource then "荧光扫描"
    else if api == SpectrumSource then "谱图分析"
    else "未知"
  }

  /** `_learn_category_rules`. The keyword counter it fills is never read, so
    * it is left out. */
  method LearnCategoryRules(fs: seq<string>, category: string, api: string) returns (rules: seq<CategoryRule>)
    ensures rules == CategoryRulesOf(fs, category, api)
  {
    if category == "薄片鉴定" {
      rules := LearnThinSection(fs, api);
    } else if category == "三维谱图" {
      rules := LearnThreeD(fs, api);
    } else if category == "荧光扫描" {
      rules := LearnFluorescence(fs, api);
    } else if category == "谱图分析" {
      rules := LearnSpectrum(fs, api);
    } else {
      rules := [];
    }
  }

  method LearnThinSection(fs: seq<string>, api: string) returns (rules: seq<CategoryRule>)
    ensures rules == ThinSectionRulesOf(fs, api)
  {
    var single, cross := 0, 0;
    for i := 0 to |fs|
      invariant single == CountWhere(fs[..i], HasSinglePolar)
      invariant cross == CountWhere(fs[..i], HasCrossPolarOnly)
    {
      CountStep(fs, i, HasSinglePolar);
      CountStep(fs, i, HasCrossPolarOnly);
      if Contains(fs[i], "单偏光") {
        single := single + 1;
      } else if Contains(fs[i], "正交光") {
        cross := cross + 1;
      }
    }
    assert fs[..|fs|] == fs;
    rules := [];
    if single > 0 {
      rules := rules + [Learned("单偏光", 75, ["薄片鉴定", "单偏光"], None, None, api, single, |fs|)];
    }
    if cross > 0 {
      rules := rules + [Learned("正交光", 75, ["薄片鉴定", "正交光"], None, None, api, cross, |fs|)];
    }
  }

  method LearnThreeD(fs: seq<string>, api: string) returns (rules: seq<CategoryRule>)
    ensures rules == ThreeDRulesOf(fs, api)
  {
    var fingerprint, stereo := 0, 0;
    for i := 0 to |fs|
      invariant fingerprint == CountWhere(fs[..i], HasFingerprint)
      invariant stereo == CountWhere(fs[..i], HasStereoOnly)
    {
      CountStep(fs, i, HasFingerprint);
      CountStep(fs, i, HasStereoOnly);
      var f := fs[i];
      if Contains(f, "指纹图") || Contains(f, "等值图") {
        fingerprint := fingerprint + 1;
      } else if Contains(f, "立体图") || Contains(f, "三维图") {
        stereo := stereo + 1;
      }
    }
    assert fs[..|fs|] == fs;
    rules := [];
    if fingerprint > 0 {
      rules := rules + [Learned("三维指纹", 70, ["三维谱图"], Some(["指纹图", "等值图"]), None, api, fingerprint, |fs|)];
    }
    if stereo > 0 {
      rules := rules + [Learned("三维立体", 70, ["三维谱图"], Some(["立体图", "三维图"]), None, api, stereo, |fs|)];
    }
  }

  method LearnFluorescence(fs: seq<string>, api: string) returns (rules: seq<CategoryRule>)
    ensures rules == [FluorescenceRuleOf(fs, api)]
  {
    var special := 0;
    for i := 0 to |fs|
      invariant special == CountWhere(fs[..i], HasSelected)
    {
      CountStep(fs, i, HasSelected);
      if Contains(fs[i], "精选") {
        special := special + 1;
      }
    }
    assert fs[..|fs|] == fs;
    var tokens := if special > 0 then ["精选"] else [];
    rules := [CategoryRule("荧光扫描", 80, ["荧光扫描"], None, Some(tokens), None, api, Some(1.0))];
  }

  method LearnSpectrum(fs: seq<string>, api: string) returns (rules: seq<CategoryRule>)
    ensures rules == SpectrumRulesOf(fs, api, 3)
  {
    var counts := CountSpectra(fs);
    rules := [];
    for t := 0 to 3
      invariant rules == SpectrumRulesOf(fs, api, t)
    {
      var st := SpectrumTypes[t];
      if counts[t] > 0 {
        rules := rules + [Learned(st, 65 - t * 5, [st], None, Some(["标样"]), api, counts[t], |fs|)];
      }
    }
  }

  /** The counting loop of the spectrum types: every type is checked for
    * every name, without `break`. */
  method CountSpectra(fs: seq<string>) returns (counts: seq<nat>)
    ensures |counts| == 3 && forall t :: 0 <= t < 3 ==> counts[t] == CountWhere(fs, SpectrumHit(SpectrumTypes[t]))
  {
    counts := [0, 0, 0];
    for i := 0 to |fs|
      invariant |counts| == 3
      invariant forall t :: 0 <= t < 3 ==> counts[t] == CountWhere(fs[..i], SpectrumHit(SpectrumTypes[t]))
    {
      var f := fs[i];
      ghost var before := counts;
      for t := 0 to 3
        invariant |counts| == 3
        invariant forall u :: 0 <= u < t ==> counts[u] == before[u] + (if SpectrumHit(SpectrumTypes[u])(f) then 1 else 0)
        invariant forall u :: t <= u < 3 ==> counts[u] == before[u]
      {
        if Contains(f, SpectrumTypes[t]) && !Contains(f, "标样") {
          counts := counts[t := counts[t] + 1];
        }
      }
      forall t | 0 <= t < 3
        ensures counts[t] == CountWhere(fs[..i + 1], SpectrumHit(SpectrumTypes[t]))
      {
        CountStep(fs, i, SpectrumHit(SpectrumTypes[t]));
      }
    }
    assert fs[..|fs|] == fs;
  }

  // ---------------------------------------------------------------- what the learned rules say

  /** A rule named n is among the rules. */
  predicate Names(rules: seq<CategoryRule>, n: string) {
    exists r :: r in rules && r.name == n
  }

  /** The confidence a rule carries, 0 when it carries none (`rule.get('confidence', 0)`). */
  function ConfidenceOf(r: CategoryRule): real {
    if r.confidence.Some? then r.confidence.value else 0.0
  }

  /** Every learned rule names its source and has a confidence in (0, 1]. */
  predicate WellFormedRules(rules: seq<CategoryRule>, api: string) {
    forall r :: r in rules ==> r.apiSource == api && r.confidence.Some? && 0.0 < r.confidence.value <= 1.0
  }

  lemma {:induction false} SpectrumRulesWellFormed(fs: seq<string>, api: string, n: nat)
    requires n <= |SpectrumTypes|
    ensures WellFormedRules(SpectrumRulesOf(fs, api, n), api)
  {
    if n > 0 {
      SpectrumRulesWellFormed(fs, api, n - 1);
    }
  }

  /** Whatever the category, the learned rules are well formed, and a
    * category other than the four known ones learns nothing. */
  lemma CategoryRulesWellFormed(fs: seq<string>, category: string, api: string)
    ensures WellFormedRules(CategoryRulesOf(fs, category, api), api)
    ensures category !in ["薄片鉴定", "三维谱图", "荧光扫描", "谱图分析"] ==> CategoryRulesOf(fs, category, api) == []
  {
    if category == "谱图分析" {
      SpectrumRulesWellFormed(fs, api, 3);
    }
  }

  lemma FractionSum(a: nat, b: nat, n: nat)
    requires 0 < n && a + b <= n
    ensures a as real / n as real + b as real / n as real <= 1.0
  {
    assert a as real / n as real + b as real / n as real == (a + b) as real / n as real;
  }

  /** 薄片鉴定: a 单偏光 rule exactly when some name has 单偏光, a 正交光 rule
    * exactly when some name has 正交光 but not 单偏光, and as every name
    * counts for at most one of them their confidences add up to at most 1. */
  lemma ThinSectionRulesSpec(fs: seq<string>, api: string)
    ensures Names(ThinSectionRulesOf(fs, api), "单偏光") <==> exists f :: f in fs && HasSinglePolar(f)
    ensures Names(ThinSectionRulesOf(fs, api), "正交光") <==> exists f :: f in fs && HasCrossPolarOnly(f)
    ensures |ThinSectionRulesOf(fs, api)| <= 2
    ensures |ThinSectionRulesOf(fs, api)| == 2 ==>
      ConfidenceOf(ThinSectionRulesOf(fs, api)[0]) + ConfidenceOf(ThinSectionRulesOf(fs, api)[1]) <= 1.0
  {
    var rules := ThinSectionRulesOf(fs, api);
    var single, cross := CountWhere(fs, HasSinglePolar), CountWhere(fs, HasCrossPolarOnly);
    CountPositive(fs, HasSinglePolar);
    CountPositive(fs, HasCrossPolarOnly);
    CountDisjoint(fs, HasSinglePolar, HasCrossPolarOnly);
    if single > 0 && cross > 0 {
      FractionSum(single, cross, |fs|);
    }
    if Names(rules, "单偏光") {
      assert single > 0;
    }
    if Names(rules, "正交光") {
      assert cross > 0;
    }
  }

  /** 三维谱图: a fingerprint rule exactly when some name has 指纹图 or 等值图,
    * a stereo rule exactly when some other name has 立体图 or 三维图; the two
    * confidences add up to at most 1. */
  lemma ThreeDRulesSpec(fs: seq<string>, api: string)
    ensures Names(ThreeDRulesOf(fs, api), "三维指纹") <==> exists f :: f in fs && HasFingerprint(f)
    ensures Names(ThreeDRulesOf(fs, api), "三维立体") <==> exists f :: f in fs && HasStereoOnly(f)
    ensures |ThreeDRulesOf(fs, api)| <= 2
    ensures |ThreeDRulesOf(fs, api)| == 2 ==>
      ConfidenceOf(ThreeDRulesOf(fs, api)[0]) + ConfidenceOf(ThreeDRulesOf(fs, api)[1]) <= 1.0
  {
    var rules := ThreeDRulesOf(fs, api);
    var fingerprint, stereo := CountWhere(fs, HasFingerprint), CountWhere(fs, HasStereoOnly);
    CountPositive(fs, HasFingerprint);
    CountPositive(fs, HasStereoOnly);
    CountDisjoint(fs, HasFingerprint, HasStereoOnly);
    if fingerprint > 0 && stereo > 0 {
      FractionSum(fingerprint, stereo, |fs|);
    }
    if Names(rules, "三维指纹") {
      assert fingerprint > 0;
    }
    if Names(rules, "三维立体") {
      assert stereo > 0;
    }
  }

  /** 荧光扫描: one rule of full confidence, marked 精选 exactly when some
    * name has 精选, even when there are no names at all. */
  lemma FluorescenceRuleSpec(fs: seq<string>, api: string)
    ensures FluorescenceRuleOf(fs, api).confidence == Some(1.0)
    ensures FluorescenceRuleOf(fs, api).specialTokens == Some(["精选"]) <==> exists f :: f in fs && HasSelected(f)
    ensures FluorescenceRuleOf(fs, api).specialTokens == Some([]) <==> !exists f :: f in fs && HasSelected(f)
  {
    CountPositive(fs, HasSelected);
  }

  /** The spectrum rules of the first n types, one per type in order. */
  lemma {:induction false} SpectrumRulesMembers(fs: seq<string>, api: string, n: nat, r: CategoryRule)
    requires n <= |SpectrumTypes|
    ensures r in SpectrumRulesOf(fs, api, n) <==>
      exists t :: 0 <= t < n && SpectrumRuleOf(fs, api, t) == [r]
  {
    if n > 0 {
      SpectrumRulesMembers(fs, api, n - 1, r);
      var last := SpectrumRuleOf(fs, api, n - 1);
      assert r in SpectrumRulesOf(fs, api, n) <==> r in SpectrumRulesOf(fs, api, n - 1) || r in last;
      if r in last {
        assert last == [r];
      }
    }
  }

  /** 谱图分析: a rule for spectrum type t exactly when some name has that
    * type and no 标样; it requires the type, rejects 标样 and has priority
    * 65, 60, 55 by the type's place. */
  lemma SpectrumRulesSpec(fs: seq<string>, api: string, t: nat)
    requires t < |SpectrumTypes|
    ensures Names(SpectrumRulesOf(fs, api, 3), SpectrumTypes[t]) <==>
      exists f :: f in fs && Contains(f, SpectrumTypes[t]) && !Contains(f, "标样")
    ensures forall r :: r in SpectrumRulesOf(fs, api, 3) && r.name == SpectrumTypes[t] ==>
      r.priority == 65 - 5 * t && r.requireAll == [SpectrumTypes[t]] && r.rejectAny == Some(["标样"])
  {
    var st := SpectrumTypes[t];
    CountPositive(fs, SpectrumHit(st));
    assert forall f :: SpectrumHit(st)(f) == (Contains(f, st) && !Contains(f, "标样"));
    forall r | r in SpectrumRulesOf(fs, api, 3)
      ensures r.name == st <==> SpectrumRuleOf(fs, api, t) == [r]
    {
      SpectrumRulesMembers(fs, api, 3, r);
    }
    if CountWhere(fs, SpectrumHit(st)) > 0 {
      var r := SpectrumRuleOf(fs, api, t)[0];
      SpectrumRulesMembers(fs, api, 3, r);
      assert r in SpectrumRulesOf(fs, api, 3);
    }
  }

  /** Two rules select the same names under the same name and priority. */
  predicate SameSelection(s: CategoryRule, r: CategoryRule) {
    s.name == r.name && s.priority == r.priority && s.requireAll == r.requireAll && s.rejectAny == r.rejectAny
  }

  /** The learned spectrum rules agree with the spectrum rules the analyser
    * generates for the same source: same names, priorities, required and
    * rejected tokens. */
  lemma SpectrumRulesMatchAnalyser(fs: seq<string>)
    ensures forall r :: r in SpectrumRulesOf(fs, SpectrumSource, 3) ==>
      exists s :: s in SourceRules(SpectrumSource) && SameSelection(s, r)
  {
    forall r | r in SpectrumRulesOf(fs, SpectrumSource, 3)
      ensures exists s :: s in SourceRules(SpectrumSource) && SameSelection(s, r)
    {
      SpectrumRulesMembers(fs, SpectrumSource, 3, r);
      var t :| 0 <= t < 3 && SpectrumRuleOf(fs, SpectrumSource, t) == [r];
      var s := SourceRules(SpectrumSource)[t];
      assert s in SourceRules(SpectrumSource);
    }
  }

  // ---------------------------------------------------------------- classification rules

  /** The image names of one CSV file, in its own order. */
  function ImageNames(column: seq<string>): (names: seq<string>)
    ensures forall f :: f in names <==> f in column && IsImageFile(f)
  {
    FilterExact(column, IsImageFile);
    Filter(column, IsImageFile)
  }

  /** The rules learned from one CSV file, named by its stem. */
  function SourceLearned(source: (string, seq<string>)): seq<CategoryRule> {
    CategoryRulesOf(ImageNames(source.1), CategoryOfSource(source.0), source.0)
  }

  /** `_learn_classification_rules`: the CSV files are given as their stems
    * with their `graphic_doc_name` columns, in the order they are listed. */
  method LearnClassificationRules(sources: seq<(string, seq<string>)>) returns (categories: seq<CategoryRule>)
    ensures categories == FlatMap(sources, SourceLearned)
  {
    categories := [];
    for i := 0 to |sources|
      invariant categories == FlatMap(sources[..i], SourceLearned)
    {
      var names := ImageNamesOf(sources[i].1);
      var rules := LearnCategoryRules(names, CategoryOfSource(sources[i].0), sources[i].0);
      assert sources[..i + 1][..i] == sources[..i];
      categories := categories + rules;
    }
    assert sources[..|sources|] == sources;
  }

  /** The stems `csv_to_category` knows. */
  predicate KnownSource(api: string) {
    api == ThinSectionSource || api == ThreeDSource || api == FluorescenceSource || api == SpectrumSource
  }

  /** A rule learned from one CSV file carries its stem, which is a known one,
    * and a confidence in (0, 1]. */
  lemma SourceLearnedSpec(source: (string, seq<string>), r: CategoryRule)
    requires r in SourceLearned(source)
    ensures r.apiSource == source.0 && KnownSource(source.0)
    ensures r.confidence.Some? && 0.0 < r.confidence.value <= 1.0
  {
    CategoryRulesWellFormed(ImageNames(source.1), CategoryOfSource(source.0), source.0);
  }

  /** The reading loop of one CSV file: the non-empty image names. */
  method ImageNamesOf(column: seq<string>) returns (names: seq<string>)
    ensures names == ImageNames(column)
  {
    names := [];
    for j := 0 to |column|
      invariant names == Filter(column[..j], IsImageFile)
    {
      var f := column[j];
      FilterStep(column, j, IsImageFile);
      if f != "" && IsImageFile(f) {
        names := names + [f];
      }
    }
    assert column[..|column|] == column;
  }

  /** Every rule learned from a set of CSV files carries a confidence in
    * (0, 1] and the known stem of a file it came from. */
  lemma ClassificationRulesSpec(sources: seq<(string, seq<string>)>)
    ensures forall r :: r in FlatMap(sources, SourceLearned) ==>
      r.confidence.Some? && 0.0 < r.confidence.value <= 1.0 && KnownSource(r.apiSource)
      && exists i :: 0 <= i < |sources| && sources[i].0 == r.apiSource
  {
    forall r | r in FlatMap(sources, SourceLearned)
      ensures r.confidence.Some? && 0.0 < r.confidence.value <= 1.0 && KnownSource(r.apiSource)
      ensures exists i :: 0 <= i < |sources| && sources[i].0 == r.apiSource
    {
      FlatMapMembers(sources, SourceLearned, r);
      var i :| 0 <= i < |sources| && r in SourceLearned(sources[i]);
      SourceLearnedSpec(sources[i], r);
    }
  }

  // ---------------------------------------------------------------- suggestions

  datatype Priority = Medium | High

  /** A rule suggestion; the message text is left out. */
  datatype Suggestion =
    | WellPatternSuggestion(patterns: nat)
    | DepthPatternSuggestion
    | SpecialTokenSuggestion
    | ExclusionSuggestion
    | RuleConfidenceSuggestion(ruleName: string, confidence: real)

  function PriorityOf(s: Suggestion): Priority {
    match s
    case DepthPatternSuggestion => High
    case ExclusionSuggestion => High
    case _ => Medium
  }

  predicate HasRange(depthPatterns: set<string>) {
    exists dp :: dp in depthPatterns && '-' in dp
  }

  predicate HasStandard(specialTokens: set<string>) {
    exists t :: t in specialTokens && Contains(t, "标样")
  }

  /** The suggestions drawn from the learned filename patterns. */
  function PatternSuggestions(wellPatterns: set<string>, depthPatterns: set<string>, specialTokens: set<string>): seq<Suggestion> {
    (if |wellPatterns| > 10 then [WellPatternSuggestion(|wellPatterns|)] else [])
    + (if HasRange(depthPatterns) then [DepthPatternSuggestion] else [])
    + (if "精选" in specialTokens then [SpecialTokenSuggestion] else [])
    + (if HasStandard(specialTokens) then [ExclusionSuggestion] else [])
  }

  predicate LowConfidence(r: CategoryRule) { ConfidenceOf(r) < 0.8 }

  function Suggest(r: CategoryRule): Suggestion {
    RuleConfidenceSuggestion(r.name, ConfidenceOf(r))
  }

  /** One suggestion per rule of low confidence, in rule order. */
  function ConfidenceSuggestions(rules: seq<CategoryRule>): seq<Suggestion> {
    if rules == [] then []
    else
      var last := rules[|rules| - 1];
      ConfidenceSuggestions(rules[..|rules| - 1]) + (if LowConfidence(last) then [Suggest(last)] else [])
  }

  /** `_generate_rule_suggestions`. A rule without a confidence would count as
    * one of confidence 0 and then fail on its message, so every rule must
    * carry one. */
  method GenerateRuleSuggestions(wellPatterns: set<string>, depthPatterns: set<string>, specialTokens: set<string>,
                                 rules: seq<CategoryRule>) returns (suggestions: seq<Suggestion>)
    requires forall r :: r in rules ==> r.confidence.Some?
    ensures suggestions == PatternSuggestions(wellPatterns, depthPatterns, specialTokens) + ConfidenceSuggestions(rules)
  {
    suggestions := SuggestFromPatterns(wellPatterns, depthPatterns, specialTokens);
    var more := SuggestFromRules(rules);
    suggestions := suggestions + more;
  }

  /** The first four checks of `_generate_rule_suggestions`. */
  method SuggestFromPatterns(wellPatterns: set<string>, depthPatterns: set<string>, specialTokens: set<string>)
    returns (suggestions: seq<Suggestion>)
    ensures suggestions == PatternSuggestions(wellPatterns, depthPatterns, specialTokens)
  {
    suggestions := [];
    if |wellPatterns| > 10 {
      suggestions := suggestions + [WellPatternSuggestion(|wellPatterns|)];
    }
    if exists dp :: dp in depthPatterns && '-' in dp {
      suggestions := suggestions + [DepthPatternSuggestion];
    }
    if "精选" in specialTokens {
      suggestions := suggestions + [SpecialTokenSuggestion];
    }
    if exists t :: t in specialTokens && Contains(t, "标样") {
      suggestions := suggestions + [ExclusionSuggestion];
    }
  }

  /** The loop over the learned rules of `_generate_rule_suggestions`. */
  method SuggestFromRules(rules: seq<CategoryRule>) returns (suggestions: seq<Suggestion>)
    requires forall r :: r in rules ==> r.confidence.Some?
    ensures suggestions == ConfidenceSuggestions(rules)
  {
    suggestions := [];
    for i := 0 to |rules|
      invariant suggestions == ConfidenceSuggestions(rules[..i])
    {
      var r := rules[i];
      assert rules[..i + 1][..i] == rules[..i];
      if r.confidence.value < 0.8 {
        suggestions := suggestions + [RuleConfidenceSuggestion(r.name, r.confidence.value)];
      }
    }
    assert rules[..|rules|] == rules;
  }

  lemma {:induction false} ConfidenceSuggestionsMembers(rules: seq<CategoryRule>, s: Suggestion)
    ensures s in ConfidenceSuggestions(rules) <==> exists r :: r in rules && LowConfidence(r) && s == Suggest(r)
  {
    if rules != [] {
      var init, last := rules[..|rules| - 1], rules[|rules| - 1];
      ConfidenceSuggestionsMembers(init, s);
      assert rules == init + [last];
      assert forall r :: r in rules <==> r in init || r == last;
    }
  }

  /** Each kind of suggestion appears exactly when its condition holds; the
    * confidence suggestions name exactly the rules below 0.8, in order. */
  lemma SuggestionsSpec(wellPatterns: set<string>, depthPatterns: set<string>, specialTokens: set<string>,
                        rules: seq<CategoryRule>, s: Suggestion)
    ensures var all := PatternSuggestions(wellPatterns, depthPatterns, specialTokens) + ConfidenceSuggestions(rules);
      && (WellPatternSuggestion(|wellPatterns|) in all <==> |wellPatterns| > 10)
      && (DepthPatternSuggestion in all <==> HasRange(depthPatterns))
      && (SpecialTokenSuggestion in all <==> "精选" in specialTokens)
      && (ExclusionSuggestion in all <==> HasStandard(specialTokens))
      && (s.RuleConfidenceSuggestion? ==>
            (s in all <==> exists r :: r in rules && r.name == s.ruleName && ConfidenceOf(r) == s.confidence && s.confidence < 0.8))
  {
    SuggestionKind(wellPatterns, depthPatterns, specialTokens, rules, s);
    SuggestionKind(wellPatterns, depthPatterns, specialTokens, rules, WellPatternSuggestion(|wellPatterns|));
    SuggestionKind(wellPatterns, depthPatterns, specialTokens, rules, DepthPatternSuggestion);
    SuggestionKind(wellPatterns, depthPatterns, specialTokens, rules, SpecialTokenSuggestion);
    SuggestionKind(wellPatterns, depthPatterns, specialTokens, rules, ExclusionSuggestion);
  }

  /** Where one suggestion can come from: the pattern part or the rule part. */
  lemma SuggestionKind(wellPatterns: set<string>, depthPatterns: set<string>, specialTokens: set<string>,
                       rules: seq<CategoryRule>, s: Suggestion)
    ensures s in PatternSuggestions(wellPatterns, depthPatterns, specialTokens) + ConfidenceSuggestions(rules) <==>
      PatternSuggested(wellPatterns, depthPatterns, specialTokens, s)
      || (s.RuleConfidenceSuggestion? && exists r :: r in rules && LowConfidence(r) && s == Suggest(r))
  {
    var fixed := PatternSuggestions(wellPatterns, depthPatterns, specialTokens);
    var low := ConfidenceSuggestions(rules);
    assert s in fixed + low <==> s in fixed || s in low;
    PatternSuggestionsMembers(wellPatterns, depthPatterns, specialTokens, s);
    ConfidenceSuggestionsMembers(rules, s);
  }

  /** The condition under which the pattern part holds a suggestion. */
  predicate PatternSuggested(wellPatterns: set<string>, depthPatterns: set<string>, specialTokens: set<string>, s: Suggestion) {
    (s == WellPatternSuggestion(|wellPatterns|) && |wellPatterns| > 10)
    || (s == DepthPatternSuggestion && HasRange(depthPatterns))
    || (s == SpecialTokenSuggestion && "精选" in specialTokens)
    || (s == ExclusionSuggestion && HasStandard(specialTokens))
  }

  lemma PatternSuggestionsMembers(wellPatterns: set<string>, depthPatterns: set<string>, specialTokens: set<string>, s: Suggestion)
    ensures s in PatternSuggestions(wellPatterns, depthPatterns, specialTokens) <==>
      PatternSuggested(wellPatterns, depthPatterns, specialTokens, s)
  {
  }

  /** `_generate_rule_suggestions` can be run on what
    * `_learn_classification_rules` returns, and suggests at most one thing
    * per pattern kind and per rule. */
  lemma SuggestionsOfLearned(sources: seq<(string, seq<string>)>, wellPatterns: set<string>,
                             depthPatterns: set<string>, specialTokens: set<string>)
    ensures forall r :: r in FlatMap(sources, SourceLearned) ==> r.confidence.Some?
    ensures |PatternSuggestions(wellPatterns, depthPatterns, specialTokens)
             + ConfidenceSuggestions(FlatMap(sources, SourceLearned))| <= 4 + |FlatMap(sources, SourceLearned)|
  {
    ClassificationRulesSpec(sources);
    ConfidenceSuggestionsLength(FlatMap(sources, SourceLearned));
  }

  lemma {:induction false} ConfidenceSuggestionsLength(rules: seq<CategoryRule>)
    ensures |ConfidenceSuggestions(rules)| <= |rules|
  {
    if rules != [] {
      ConfidenceSuggestionsLength(rules[..|rules| - 1]);
    }
  }
}
