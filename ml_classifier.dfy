/** The hybrid classifier: a fixed chain of filename rules, the fallback on a
  * model's prediction when no rule applies, the feature text the model is
  * trained on, and the counters of an evaluation run. The model itself
  * (a TF-IDF vectoriser and a random forest) is a parameter: what it
  * predicts for a name, or nothing when there is no trained model or the
  * prediction fails. */
module MlClassifier {
  import opened Text
  import opened Regex
  import Normalizer
  import Wells
  import CsvAnalyzer
  import RuleLearner

  // ---------------------------------------------------------------- the rule chain

  /** One link of the chain: the category it gives, the name of the rule, the
    * tokens a name needs, the tokens of which it needs one (when there are
    * any) and the tokens it must not have. */
  datatype ChainRule = ChainRule(category: string, rule: string, requireAll: seq<string>,
                                 requireAny: seq<string>, reject: seq<string>)

  /** The links of `_rule_based_classify`, in the order they are tried. */
  const Chain: seq<ChainRule> := [
    ChainRule("单偏光", "薄片鉴定_单偏光", ["薄片鉴定", "单偏光"], [], []),
    ChainRule("正交光", "薄片鉴定_正交光", ["薄片鉴定", "正交光"], [], []),
    ChainRule("三维指纹", "三维谱图_指纹图/等值图", ["三维谱图"], ["指纹图", "等值图"], []),
    ChainRule("三维立体", "三维谱图_立体图/三维图", ["三维谱图"], ["立体图", "三维图"], []),
    ChainRule("荧光扫描", "荧光扫描", ["荧光扫描"], [], []),
    ChainRule("轻烃谱图", "轻烃谱图", ["轻烃谱图"], [], ["标样"]),
    ChainRule("色谱谱图", "色谱谱图", ["色谱谱图"], [], ["标样"]),
    ChainRule("热解谱图", "热解谱图", ["热解谱图"], [], ["标样"])
  ]

  predicate HasAll(f: string, words: seq<string>) {
    forall k :: 0 <= k < |words| ==> Contains(f, words[k])
  }

  predicate Applies(r: ChainRule, f: string) {
    HasAll(f, r.requireAll) && (r.requireAny == [] || ContainsAny(f, r.requireAny)) && !ContainsAny(f, r.reject)
  }

  /** The first link that applies to f. */
  function FirstApplying(rules: seq<ChainRule>, f: string): Option<ChainRule> {
    if |rules| == 0 then None
    else if Applies(rules[0], f) then Some(rules[0])
    else FirstApplying(rules[1..], f)
  }

  /** What `_rule_based_classify` returns: the category, or nothing, and the
    * rule named in its explanation. */
  datatype RuleResult = RuleResult(category: Option<string>, rule: string)

  /** `_rule_based_classify`. The sample type argument is never read. */
  function RuleBasedClassify(f: string): RuleResult {
    if Contains(f, "薄片鉴定") && Contains(f, "单偏光") then RuleResult(Some("单偏光"), "薄片鉴定_单偏光")
    else if Contains(f, "薄片鉴定") && Contains(f, "正交光") then RuleResult(Some("正交光"), "薄片鉴定_正交光")
    else if Contains(f, "三维谱图") && (Contains(f, "指纹图") || Contains(f, "等值图")) then
      RuleResult(Some("三维指纹"), "三维谱图_指纹图/等值图")
    else if Contains(f, "三维谱图") && (Contains(f, "立体图") || Contains(f, "三维图")) then
      RuleResult(Some("三维立体"), "三维谱图_立体图/三维图")
    else if Contains(f, "荧光扫描") then RuleResult(Some("荧光扫描"), "荧光扫描")
    else if Contains(f, "轻烃谱图") && !Contains(f, "标样") then RuleResult(Some("轻烃谱图"), "轻烃谱图")
    else if Contains(f, "色谱谱图") && !Contains(f, "标样") then RuleResult(Some("色谱谱图"), "色谱谱图")
    else if Contains(f, "热解谱图") && !Contains(f, "标样") then RuleResult(Some("热解谱图"), "热解谱图")
    else RuleResult(None, "no_match")
  }

  /** The result of the chain as a table lookup. */
  function ChainResult(f: string): RuleResult {
    match FirstApplying(Chain, f)
    case Some(r) => RuleResult(Some(r.category), r.rule)
    case None => RuleResult(None, "no_match")
  }

  lemma ApplyTwo(f: string, a: string, b: string)
    ensures HasAll(f, [a, b]) <==> Contains(f, a) && Contains(f, b)
    ensures ContainsAny(f, [a, b]) <==> Contains(f, a) || Contains(f, b)
  {
    assert [a, b][0] == a && [a, b][1] == b;
  }

  lemma ApplyOne(f: string, a: string)
    ensures HasAll(f, [a]) <==> Contains(f, a)
    ensures ContainsAny(f, [a]) <==> Contains(f, a)
    ensures !ContainsAny(f, [])
  {
    assert [a][0] == a;
  }

  /** What each link asks of a name, spelled out. */
  lemma ChainConditions(f: string)
    ensures Applies(Chain[0], f) <==> Contains(f, "薄片鉴定") && Contains(f, "单偏光")
    ensures Applies(Chain[1], f) <==> Contains(f, "薄片鉴定") && Contains(f, "正交光")
    ensures Applies(Chain[2], f) <==> Contains(f, "三维谱图") && (Contains(f, "指纹图") || Contains(f, "等值图"))
    ensures Applies(Chain[3], f) <==> Contains(f, "三维谱图") && (Contains(f, "立体图") || Contains(f, "三维图"))
    ensures Applies(Chain[4], f) <==> Contains(f, "荧光扫描")
    ensures Applies(Chain[5], f) <==> Contains(f, "轻烃谱图") && !Contains(f, "标样")
    ensures Applies(Chain[6], f) <==> Contains(f, "色谱谱图") && !Contains(f, "标样")
    ensures Applies(Chain[7], f) <==> Contains(f, "热解谱图") && !Contains(f, "标样")
  {
    ApplyTwo(f, "薄片鉴定", "单偏光");
    ApplyTwo(f, "薄片鉴定", "正交光");
    ApplyTwo(f, "指纹图", "等值图");
    ApplyTwo(f, "立体图", "三维图");
    ApplyOne(f, "三维谱图");
    ApplyOne(f, "荧光扫描");
    ApplyOne(f, "轻烃谱图");
    ApplyOne(f, "色谱谱图");
    ApplyOne(f, "热解谱图");
    ApplyOne(f, "标样");
  }

  /** The first applying link, unrolled over the eight links. */
  function Unrolled(f: string): Option<ChainRule> {
    if Applies(Chain[0], f) then Some(Chain[0])
    else if Applies(Chain[1], f) then Some(Chain[1])
    else if Applies(Chain[2], f) then Some(Chain[2])
    else if Applies(Chain[3], f) then Some(Chain[3])
    else if Applies(Chain[4], f) then Some(Chain[4])
    else if Applies(Chain[5], f) then Some(Chain[5])
    else if Applies(Chain[6], f) then Some(Chain[6])
    else if Applies(Chain[7], f) then Some(Chain[7])
    else None
  }

  lemma UnrollChain(f: string)
    ensures FirstApplying(Chain, f) == Unrolled(f)
  {
    var c := Chain;
    assert FirstApplying(c[7..], f) == (if Applies(c[7], f) then Some(c[7]) else None);
    assert FirstApplying(c[6..], f) == (if Applies(c[6], f) then Some(c[6]) else FirstApplying(c[7..], f));
    assert FirstApplying(c[5..], f) == (if Applies(c[5], f) then Some(c[5]) else FirstApplying(c[6..], f));
    assert FirstApplying(c[4..], f) == (if Applies(c[4], f) then Some(c[4]) else FirstApplying(c[5..], f));
    assert FirstApplying(c[3..], f) == (if Applies(c[3], f) then Some(c[3]) else FirstApplying(c[4..], f));
    assert FirstApplying(c[2..], f) == (if Applies(c[2], f) then Some(c[2]) else FirstApplying(c[3..], f));
    assert FirstApplying(c[1..], f) == (if Applies(c[1], f) then Some(c[1]) else FirstApplying(c[2..], f));
  }

  /** The chain of ifs is the first applying link of the table: earlier
    * links win, and a name no link applies to is `no_match`. */
  lemma RuleChainIsTable(f: string)
    ensures RuleBasedClassify(f) == ChainResult(f)
  {
    ChainConditions(f);
    UnrollChain(f);
  }

  /** A name is classified by the chain exactly when some link applies to
    * it, and then the category is that of a link that applies. */
  lemma {:induction false} FirstApplyingSpec(rules: seq<ChainRule>, f: string)
    ensures FirstApplying(rules, f).None? <==> forall k :: 0 <= k < |rules| ==> !Applies(rules[k], f)
    ensures FirstApplying(rules, f).Some? ==>
      exists k :: 0 <= k < |rules| && rules[k] == FirstApplying(rules, f).value && Applies(rules[k], f)
        && forall j :: 0 <= j < k ==> !Applies(rules[j], f)
  {
    if |rules| > 0 {
      FirstApplyingSpec(rules[1..], f);
      if !Applies(rules[0], f) && FirstApplying(rules, f).Some? {
        var k :| 0 <= k < |rules[1..]| && rules[1..][k] == FirstApplying(rules, f).value && Applies(rules[1..][k], f)
          && forall j :: 0 <= j < k ==> !Applies(rules[1..][j], f);
        assert rules[k + 1] == rules[1..][k];
        forall j | 0 <= j < k + 1 ensures !Applies(rules[j], f) {
          if j > 0 {
            assert rules[j] == rules[1..][j - 1];
          }
        }
      }
      if FirstApplying(rules, f).None? {
        forall k | 0 <= k < |rules| ensures !Applies(rules[k], f) {
          if k > 0 {
            assert rules[k] == rules[1..][k - 1];
          }
        }
      }
    }
  }

  /** The link a learned rule corresponds to: same name, same required
    * tokens, same alternatives and same rejected tokens. */
  predicate SameTokens(c: ChainRule, r: CsvAnalyzer.CategoryRule) {
    c.category == r.name && c.requireAll == r.requireAll
    && c.requireAny == (if r.imageTokensAny.Some? then r.imageTokensAny.value else [])
    && c.reject == (if r.rejectAny.Some? then r.rejectAny.value else [])
  }

  /** Every rule the rule learner draws from the data selects names with
    * the same tokens as a link of the chain of the same name. */
  lemma LearnedRulesInChain(fs: seq<string>, category: string, api: string)
    ensures forall r :: r in RuleLearner.CategoryRulesOf(fs, category, api) ==>
      exists k :: 0 <= k < |Chain| && SameTokens(Chain[k], r)
  {
    forall r | r in RuleLearner.CategoryRulesOf(fs, category, api)
      ensures exists k :: 0 <= k < |Chain| && SameTokens(Chain[k], r)
    {
      if category == "谱图分析" {
        SpectrumInChain(fs, api, r);
      } else if category == "荧光扫描" {
        assert SameTokens(Chain[4], r);
      } else if category == "三维谱图" {
        ThreeDInChain(fs, api, r);
      } else {
        ThinSectionInChain(fs, api, r);
      }
    }
  }

  lemma SpectrumInChain(fs: seq<string>, api: string, r: CsvAnalyzer.CategoryRule)
    requires r in RuleLearner.SpectrumRulesOf(fs, api, 3)
    ensures exists k :: 0 <= k < |Chain| && SameTokens(Chain[k], r)
  {
    RuleLearner.SpectrumRulesMembers(fs, api, 3, r);
    var t :| 0 <= t < 3 && RuleLearner.SpectrumRuleOf(fs, api, t) == [r];
    assert SameTokens(Chain[5 + t], r);
  }

  lemma ThreeDInChain(fs: seq<string>, api: string, r: CsvAnalyzer.CategoryRule)
    requires r in RuleLearner.ThreeDRulesOf(fs, api)
    ensures SameTokens(Chain[2], r) || SameTokens(Chain[3], r)
  {
  }

  lemma ThinSectionInChain(fs: seq<string>, api: string, r: CsvAnalyzer.CategoryRule)
    requires r in RuleLearner.ThinSectionRulesOf(fs, api)
    ensures SameTokens(Chain[0], r) || SameTokens(Chain[1], r)
  {
  }

  // ---------------------------------------------------------------- hybrid classification

  datatype Route = RuleBased | MlBased | NoMethod

  /** The result of `classify`: the category, how it was found, its
    * confidence, and the rule behind a rule-based result (the message texts
    * of the other two methods are left out). */
  datatype Outcome = Outcome(category: Option<string>, route: Route, confidence: real, rule: Option<string>)

  /** `self.confidence_threshold`. */
  const ConfidenceThreshold: real := 0.8

  /** `HybridClassifier.classify`; `prediction` is what the model predicts,
    * or None when there is no trained model or the prediction raises. */
  function Classify(f: string, prediction: Option<(string, real)>): (o: Outcome)
    ensures o.route == RuleBased <==> RuleBasedClassify(f).category.Some?
    ensures o.route == RuleBased ==>
      o.category == RuleBasedClassify(f).category && o.confidence == 1.0 && o.rule == Some(RuleBasedClassify(f).rule)
    ensures o.route == MlBased <==>
      RuleBasedClassify(f).category.None? && prediction.Some? && prediction.value.1 >= ConfidenceThreshold
    ensures o.route == MlBased ==> o.category == Some(prediction.value.0) && o.confidence == prediction.value.1
    ensures o.route == NoMethod ==> o.category.None? && o.confidence == 0.0
  {
    var r := RuleBasedClassify(f);
    if r.category.Some? then Outcome(r.category, RuleBased, 1.0, Some(r.rule))
    else if prediction.Some? && prediction.value.1 >= ConfidenceThreshold then
      Outcome(Some(prediction.value.0), MlBased, prediction.value.1, None)
    else Outcome(None, NoMethod, 0.0, None)
  }

  /** A name is given a category exactly when a rule applies or the model is
    * confident enough; a given category always has confidence at least the
    * threshold, and the model is never consulted when a rule applies. */
  lemma ClassifySpec(f: string, p: Option<(string, real)>, q: Option<(string, real)>)
    ensures Classify(f, p).category.Some? <==>
      FirstApplying(Chain, f).Some? || (p.Some? && p.value.1 >= ConfidenceThreshold)
    ensures Classify(f, p).category.Some? ==> Classify(f, p).confidence >= ConfidenceThreshold
    ensures FirstApplying(Chain, f).Some? ==> Classify(f, p) == Classify(f, q)
  {
    RuleChainIsTable(f);
  }

  // ---------------------------------------------------------------- features

  datatype DepthBucket = Shallow | Medium | Deep

  /** The depth buckets of `extract_features`. */
  function BucketOf(d: real): DepthBucket {
    if d < 1000.0 then Shallow else if d < 3000.0 then Medium else Deep
  }

  function BucketRank(b: DepthBucket): nat {
    match b
    case Shallow => 0
    case Medium => 1
    case Deep => 2
  }

  /** The buckets cut the depth line at 1000 and 3000 and grow with depth. */
  lemma BucketSpec(d: real, e: real)
    ensures BucketOf(d) == Shallow <==> d < 1000.0
    ensures BucketOf(d) == Deep <==> d >= 3000.0
    ensures d <= e ==> BucketRank(BucketOf(d)) <= BucketRank(BucketOf(e))
  {
  }

  /** A feature tag of the feature text. */
  datatype Feature =
    | WellTag(well: string)
    | DepthTag(bucket: DepthBucket)
    | SampleTag(sampleType: string)
    | CategoryTag(category: string)
    | SpecialTag(token: string)

  function Render(t: Feature): string {
    match t
    case WellTag(w) => "WELL_" + w
    case DepthTag(b) => (match b case Shallow => "DEPTH_SHALLOW" case Medium => "DEPTH_MEDIUM" case Deep => "DEPTH_DEEP")
    case SampleTag(s) => "SAMPLE_" + s
    case CategoryTag(c) => "CATEGORY_" + c
    case SpecialTag(k) => "SPECIAL_" + k
  }

  function RenderAll(ts: seq<Feature>): (r: seq<string>)
    ensures |r| == |ts|
  {
    if |ts| == 0 then [] else RenderAll(ts[..|ts| - 1]) + [Render(ts[|ts| - 1])]
  }

  /** `r'([A-Za-z0-9\-]+井)'`. */
  const WellFeatureRe: Re :=
    Group(1, Cat(Plus(Set([Range('A', 'Z'), Range('a', 'z'), Range('0', '9'), Range('-', '-')], false)), Lit('井')))

  /** `r'(\d+\.?\d*)m'`. */
  const DepthFeatureRe: Re := Cat(Group(1, Cat(Digits, Cat(Opt(Lit('.')), Star(Digit, true)))), Lit('m'))

  /** The tokens `extract_features` marks wherever they occur. */
  const FeatureSpecials: seq<string> := ["精选", "单偏光", "正交光", "指纹图", "立体图"]

  /** `float(t)` for t of the shape `\d+\.?\d*`, None for any other shape. */
  function DecimalOf(t: string): (r: Option<real>)
    ensures AllDigits(t) && |t| > 0 ==> r == Some(DigitsValue(t) as real)
  {
    var dot := FindChar(t, '.');
    if dot < 0 then (if |t| > 0 && AllDigits(t) then Some(DigitsValue(t) as real) else None)
    else
      var intPart, fracPart := t[..dot], t[dot + 1..];
      if |intPart| > 0 && AllDigits(intPart) && AllDigits(fracPart) then Some(DecimalValue(intPart, fracPart)) else None
  }

  /** The name the features are taken from: no alphabetic extension, normalised. */
  function FeatureName(filename: string): string {
    Normalizer.NormalizeText(Sub(Wells.AlphaExtRe, filename, ""))
  }

  function WellFeature(name: string): seq<Feature> {
    match Search(WellFeatureRe, name)
    case Some((_, h)) => [WellTag(GroupText(name, h, 1))]
    case None => []
  }

  /** The depth the depth pattern finds in name, if any. */
  function DepthOf(name: string): Option<real> {
    match Search(DepthFeatureRe, name)
    case Some((_, h)) => DecimalOf(GroupText(name, h, 1))
    case None => None
  }

  function DepthFeature(name: string): seq<Feature> {
    match DepthOf(name)
    case Some(d) => [DepthTag(BucketOf(d))]
    case None => []
  }

  function SampleFeature(name: string): seq<Feature> {
    match CsvAnalyzer.FirstContained(name, CsvAnalyzer.SampleTypes)
    case Some(st) => [SampleTag(st)]
    case None => []
  }

  function CategoryFeature(name: string): seq<Feature> {
    match CsvAnalyzer.FirstContained(name, CsvAnalyzer.Categories)
    case Some(c) => [CategoryTag(c)]
    case None => []
  }

  /** One tag per token of tokens that occurs in name, in order. */
  function SpecialFeatures(name: string, tokens: seq<string>): seq<Feature> {
    if |tokens| == 0 then []
    else
      var last := tokens[|tokens| - 1];
      SpecialFeatures(name, tokens[..|tokens| - 1]) + (if Contains(name, last) then [SpecialTag(last)] else [])
  }

  /** The tags of `extract_features`, in the order they are appended. */
  function Features(name: string): seq<Feature> {
    WellFeature(name) + DepthFeature(name) + SampleFeature(name) + CategoryFeature(name)
    + SpecialFeatures(name, FeatureSpecials)
  }

  /** `f"{name} {' '.join(features)}"`. */
  function FeatureText(filename: string): string {
    var name := FeatureName(filename);
    name + " " + Join(RenderAll(Features(name)), " ")
  }

  /** `extract_features`. */
  method ExtractFeatures(filename: string) returns (combined: string)
    ensures combined == FeatureText(filename)
  {
    var name := FeatureName(filename);
    var well := WellTags(name);
    var depth := DepthTags(name);
    var sample := FirstTag(name, CsvAnalyzer.SampleTypes, true);
    var category := FirstTag(name, CsvAnalyzer.Categories, false);
    var specials := SpecialTags(name, FeatureSpecials);
    var features := well + depth + sample + category + specials;
    combined := name + " " + Join(RenderAll(features), " ");
  }

  /** The well tag: the first group of the first well match. */
  method WellTags(name: string) returns (tags: seq<Feature>)
    ensures tags == WellFeature(name)
  {
    tags := [];
    match Search(WellFeatureRe, name) {
      case Some((_, h)) => tags := [WellTag(GroupText(name, h, 1))];
      case None =>
    }
  }

  /** The depth tag: the bucket of the first depth found. */
  method DepthTags(name: string) returns (tags: seq<Feature>)
    ensures tags == DepthFeature(name)
  {
    tags := [];
    match DepthOf(name) {
      case Some(d) =>
        if d < 1000.0 {
          tags := [DepthTag(Shallow)];
        } else if d < 3000.0 {
          tags := [DepthTag(Medium)];
        } else {
          tags := [DepthTag(Deep)];
        }
      case None =>
    }
  }

  /** A tag for the first word of words in name (`for ... if ... break`):
    * a sample-type tag or a category tag. */
  method FirstTag(name: string, words: seq<string>, sample: bool) returns (tags: seq<Feature>)
    ensures tags == match CsvAnalyzer.FirstContained(name, words)
                    case Some(w) => [if sample then SampleTag(w) else CategoryTag(w)]
                    case None => []
  {
    tags := [];
    var i := 0;
    while i < |words|
      invariant 0 <= i <= |words|
      invariant forall t :: 0 <= t < i ==> !Contains(name, words[t])
    {
      if Contains(name, words[i]) {
        tags := [if sample then SampleTag(words[i]) else CategoryTag(words[i])];
        return;
      }
      i := i + 1;
    }
  }

  method SpecialTags(name: string, tokens: seq<string>) returns (tags: seq<Feature>)
    ensures tags == SpecialFeatures(name, tokens)
  {
    tags := [];
    for i := 0 to |tokens|
      invariant tags == SpecialFeatures(name, tokens[..i])
    {
      assert tokens[..i + 1][..i] == tokens[..i];
      if Contains(name, tokens[i]) {
        tags := tags + [SpecialTag(tokens[i])];
      }
    }
    assert tokens[..|tokens|] == tokens;
  }

  lemma {:induction false} SpecialFeaturesMembers(name: string, tokens: seq<string>, t: Feature)
    ensures t in SpecialFeatures(name, tokens) <==> t.SpecialTag? && t.token in tokens && Contains(name, t.token)
  {
    if |tokens| > 0 {
      var init := tokens[..|tokens| - 1];
      SpecialFeaturesMembers(name, init, t);
      assert tokens == init + [tokens[|tokens| - 1]];
    }
  }

  /** The feature text starts with the normalised name; the tags are at
    * most one well, one depth bucket (that of the depth found), one sample
    * type and one category (the first ones the name contains), and a
    * special tag for exactly the marks the name contains. */
  lemma FeaturesSpec(filename: string, t: Feature)
    ensures IsPrefix(FeatureName(filename) + " ", FeatureText(filename))
    ensures var fs := Features(FeatureName(filename));
      && (t.DepthTag? ==> (t in fs <==> DepthOf(FeatureName(filename)).Some?
                                        && t.bucket == BucketOf(DepthOf(FeatureName(filename)).value)))
      && (t.SampleTag? ==> (t in fs <==> CsvAnalyzer.FirstContained(FeatureName(filename), CsvAnalyzer.SampleTypes) == Some(t.sampleType)))
      && (t.CategoryTag? ==> (t in fs <==> CsvAnalyzer.FirstContained(FeatureName(filename), CsvAnalyzer.Categories) == Some(t.category)))
      && (t.SpecialTag? ==> (t in fs <==> t.token in FeatureSpecials && Contains(FeatureName(filename), t.token)))
  {
    var name := FeatureName(filename);
    SpecialFeaturesMembers(name, FeatureSpecials, t);
    var fs := Features(name);
    assert t in fs <==> (t in WellFeature(name) || t in DepthFeature(name) || t in SampleFeature(name)
                         || t in CategoryFeature(name) || t in SpecialFeatures(name, FeatureSpecials));
  }

  // ---------------------------------------------------------------- evaluation

  /** `success / count`, or 0.0 for no attempts. */
  function SuccessRate(success: nat, count: nat): (r: real)
    requires success <= count
    ensures 0.0 <= r <= 1.0
    ensures r == 1.0 <==> count > 0 && success == count
    ensures r == 0.0 <==> success == 0
  {
    if count > 0 then
      RateFacts(success, count);
      success as real / count as real
    else 0.0
  }

  lemma RateFacts(success: nat, count: nat)
    requires 0 < count && success <= count
    ensures 0.0 <= success as real / count as real <= 1.0
    ensures success as real / count as real == 1.0 <==> success == count
    ensures success as real / count as real == 0.0 <==> success == 0
  {
    var q := success as real / count as real;
    assert q * count as real == success as real;
  }

  /** The counters of `evaluate_hybrid_performance`. */
  datatype Tally = Tally(ruleCount: nat, ruleSuccess: nat, mlCount: nat, mlSuccess: nat, noneCount: nat)

  /** One classified image name counted. */
  function Count(t: Tally, o: Outcome): Tally {
    match o.route
    case RuleBased => t.(ruleCount := t.ruleCount + 1, ruleSuccess := t.ruleSuccess + (if o.category.Some? && o.category.value != "" then 1 else 0))
    case MlBased => t.(mlCount := t.mlCount + 1,
                       mlSuccess := t.mlSuccess + (if o.category.Some? && o.category.value != "" && o.confidence >= ConfidenceThreshold then 1 else 0))
    case NoMethod => t.(noneCount := t.noneCount + 1)
  }

  /** The counters after the first names of files, with the model's
    * predictions given by predict. */
  function Tallied(files: seq<string>, predict: string -> Option<(string, real)>): Tally {
    if |files| == 0 then Tally(0, 0, 0, 0, 0)
    else Count(Tallied(files[..|files| - 1], predict), Classify(files[|files| - 1], predict(files[|files| - 1])))
  }

  /** The report: counters and success rates of the rule and model methods. */
  datatype Report = Report(tally: Tally, ruleRate: real, mlRate: real)

  /** `evaluate_hybrid_performance` over the image names of files. Each
    * name is filtered through the model object, so a missing model fails on
    * the first name (the attribute lookup raises), which is None here; an
    * empty list never reaches the lookup and gives the all-zero report. */
  method EvaluateHybridPerformance(files: seq<string>, hasModel: bool, predict: string -> Option<(string, real)>)
    returns (report: Option<Report>)
    ensures report.None? <==> !hasModel && |files| > 0
    ensures |files| == 0 ==> report == Some(Report(Tally(0, 0, 0, 0, 0), 0.0, 0.0))
    ensures report.Some? ==> report.value.tally == Tallied(Filter(files, CsvAnalyzer.IsImageFile), predict)
    ensures report.Some? ==> TallyConsistent(report.value.tally)
    ensures report.Some? ==> report.value.ruleRate == (if report.value.tally.ruleCount > 0 then 1.0 else 0.0)
    ensures report.Some? ==> report.value.mlRate == SuccessRate(report.value.tally.mlSuccess, report.value.tally.mlCount)
  {
    if !hasModel && |files| > 0 {
      return None;
    }
    var images := ImagesOf(files);
    var t := Tally(0, 0, 0, 0, 0);
    for i := 0 to |images|
      invariant t == Tallied(images[..i], predict)
      invariant TallyConsistent(t)
    {
      assert images[..i + 1][..i] == images[..i];
      var o := Classify(images[i], predict(images[i]));
      RuleResultsNonEmpty(images[i]);
      t := Count(t, o);
    }
    assert images[..|images|] == images;
    report := Some(Report(t, SuccessRate(t.ruleSuccess, t.ruleCount), SuccessRate(t.mlSuccess, t.mlCount)));
  }

  /** The two comprehensions that split the names into images and others. */
  method ImagesOf(files: seq<string>) returns (images: seq<string>)
    ensures images == Filter(files, CsvAnalyzer.IsImageFile)
  {
    images := [];
    for i := 0 to |files|
      invariant images == Filter(files[..i], CsvAnalyzer.IsImageFile)
    {
      FilterStep(files, i, CsvAnalyzer.IsImageFile);
      if CsvAnalyzer.IsImageFile(files[i]) {
        images := images + [files[i]];
      }
    }
    assert files[..|files|] == files;
  }

  /** Every rule-based result counts as a success, and no success is
    * counted without an attempt. */
  predicate TallyConsistent(t: Tally) {
    t.ruleSuccess == t.ruleCount && t.mlSuccess <= t.mlCount
  }

  /** The chain only gives non-empty categories. */
  lemma RuleResultsNonEmpty(f: string)
    ensures RuleBasedClassify(f).category.Some? ==> RuleBasedClassify(f).category.value != ""
  {
  }

  /** Every image name is counted under exactly one method; every
    * rule-based result is a success; model successes are the model results
    * with a non-empty category. */
  lemma {:induction false} TalliedSpec(files: seq<string>, predict: string -> Option<(string, real)>)
    ensures var t := Tallied(files, predict);
      t.ruleCount + t.mlCount + t.noneCount == |files| && TallyConsistent(t)
  {
    if |files| > 0 {
      TalliedSpec(files[..|files| - 1], predict);
      RuleResultsNonEmpty(files[|files| - 1]);
    }
  }
}
