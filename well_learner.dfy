/** The well-name learner of app/well_name_learner.py. It collects the well
  * names written with 井 from many file names and counts their prefixes,
  * suffixes, lengths and structures. From those counts it derives prefix and
  * suffix rules, and it predicts the well of a file name that lacks 井 from
  * what it learned. The file names are a parameter; reading them from CSV
  * files is not part of this model. */
module WellLearner {
  import opened Text
  import opened Wells
  import WellParser
  import opened Counters

  // ------------------------------------------------------------ keys of a well

  /** The prefix of the well without 井. */
  function PrefixKey(w: string): Option<string> { PrefixOf(BaseOf(w)) }

  /** The suffix of the well without 井. */
  function SuffixKey(w: string): Option<string> { SuffixOf(BaseOf(w)) }

  /** The length of the well without 井. */
  function LengthKey(w: string): Option<nat> { Some(|BaseOf(w)|) }

  /** The structure of the well without 井. */
  function StructureKey(w: string): Option<string> { Some(Structure(BaseOf(w))) }

  /** The length of the run of ASCII digits that starts s. */
  function DigitRun(s: string): (k: nat)
    ensures k <= |s| && forall i :: 0 <= i < k ==> IsDigit(s[i])
    ensures k < |s| ==> !IsDigit(s[k])
  {
    if |s| == 0 || !IsDigit(s[0]) then 0 else 1 + DigitRun(s[1..])
  }

  /** `re.findall(r'\d+', s)`: the maximal runs of digits, left to right. */
  function DigitRuns(s: string): (runs: seq<string>)
    ensures forall i :: 0 <= i < |runs| ==> |runs[i]| > 0 && AllDigits(runs[i])
    decreases |s|
  {
    if |s| == 0 then []
    else if !IsDigit(s[0]) then DigitRuns(s[1..])
    else
      var k := DigitRun(s);
      [s[..k]] + DigitRuns(s[k..])
  }

  /** `''.join(re.findall(r'[^A-Za-z0-9]', s))`: the characters that are not ASCII
    * letters or digits, in order. */
  function Separators(s: string): (r: string)
    ensures |r| <= |s| && forall i :: 0 <= i < |r| ==> !IsAlnum(r[i])
  {
    if |s| == 0 then []
    else Separators(s[..|s| - 1]) + (if IsAlnum(s[|s| - 1]) then [] else [s[|s| - 1]])
  }

  /** The number pattern: the digit runs joined by '-', when there is one. */
  function NumberKey(w: string): Option<string> {
    var runs := DigitRuns(BaseOf(w));
    if |runs| > 0 then Some(Join(runs, "-")) else None
  }

  /** The separator pattern, when there is a separator. */
  function SeparatorKey(w: string): Option<string> {
    var s := Separators(BaseOf(w));
    if |s| > 0 then Some(s) else None
  }

  /** `prefix*suffix` for a well with both. */
  function PatternKey(w: string): Option<string> {
    var p, s := PrefixKey(w), SuffixKey(w);
    if p.Some? && s.Some? then Some(p.value + "*" + s.value) else None
  }

  /** No partner is counted. */
  function NoKey(w: string): Option<string> { None }

  // ------------------------------------------------------------ collected wells

  /** The `...井` matches of every non-empty file name, in order. */
  function Collected(filenames: seq<string>): seq<string> {
    if |filenames| == 0 then []
    else
      var f := filenames[|filenames| - 1];
      Collected(filenames[..|filenames| - 1]) + (if |f| > 0 then WellMatches(f) else [])
  }

  lemma CollectedStep(known: seq<string>, filenames: seq<string>, i: int)
    requires 0 <= i < |filenames|
    ensures known + Collected(filenames[..i + 1]) ==
      known + Collected(filenames[..i]) + (if |filenames[i]| > 0 then WellMatches(filenames[i]) else [])
  {
    assert filenames[..i + 1][..i] == filenames[..i];
  }

  lemma DedupStep<T>(s: seq<T>, x: T)
    ensures Dedup(s + [x]) == if x in Dedup(s) then Dedup(s) else Dedup(s) + [x]
  {
    assert (s + [x])[..|s|] == s;
  }

  // ------------------------------------------------------------ distributions

  /** `well_patterns`: the six counters of `_analyze_well_patterns`. */
  datatype Dists = Dists(
    prefixes: Counter<string>, numbers: Counter<string>, suffixes: Counter<string>,
    separators: Counter<string>, lengths: Counter<nat>, structures: Counter<string>)

  /** The counters over the known wells. */
  function Distributions(ws: seq<string>): Dists {
    Dists(TallyOf(ws, PrefixKey), TallyOf(ws, NumberKey), TallyOf(ws, SuffixKey),
      TallyOf(ws, SeparatorKey), TallyOf(ws, LengthKey), TallyOf(ws, StructureKey))
  }

  /** The six counters after one more well. */
  function AddWell(d: Dists, w: string): Dists {
    Dists(BumpAt(d.prefixes, PrefixKey(w)), BumpAt(d.numbers, NumberKey(w)), BumpAt(d.suffixes, SuffixKey(w)),
      BumpAt(d.separators, SeparatorKey(w)), BumpAt(d.lengths, LengthKey(w)), BumpAt(d.structures, StructureKey(w)))
  }

  lemma DistributionsStep(ws: seq<string>, i: int)
    requires 0 <= i < |ws|
    ensures Distributions(ws[..i + 1]) == AddWell(Distributions(ws[..i]), ws[i])
  {
    assert ws[..i + 1][..i] == ws[..i];
  }

  /** The two counters the confidence divides by have positive counts. */
  predicate DistsValid(d: Dists) {
    Positive(d.lengths) && Positive(d.structures)
  }

  lemma DistributionsValid(ws: seq<string>)
    ensures DistsValid(Distributions(ws))
  {
    TallyOfExact(ws, LengthKey, 0);
    TallyOfExact(ws, StructureKey, "");
  }

  /** Every counter counts each key exactly as often as the known wells have it. */
  lemma DistributionsExact(ws: seq<string>, n: nat, s: string)
    ensures DistsValid(Distributions(ws))
    ensures Get(Distributions(ws).lengths, n) == |Matching(ws, LengthKey, n)|
    ensures Get(Distributions(ws).structures, s) == |Matching(ws, StructureKey, s)|
    ensures Get(Distributions(ws).prefixes, s) == |Matching(ws, PrefixKey, s)|
    ensures Get(Distributions(ws).suffixes, s) == |Matching(ws, SuffixKey, s)|
    ensures Get(Distributions(ws).numbers, s) == |Matching(ws, NumberKey, s)|
    ensures Get(Distributions(ws).separators, s) == |Matching(ws, SeparatorKey, s)|
  {
    TallyOfExact(ws, LengthKey, n);
    TallyOfExact(ws, StructureKey, s);
    TallyOfExact(ws, PrefixKey, s);
    TallyOfExact(ws, SuffixKey, s);
    TallyOfExact(ws, NumberKey, s);
    TallyOfExact(ws, SeparatorKey, s);
  }

  // ------------------------------------------------------------ prefix and suffix patterns

  /** The statistics of one prefix (or suffix): how many wells have it, those
    * wells, and how often each partner suffix (or prefix) occurs among them. */
  datatype Stats = Stats(count: nat, examples: seq<string>, partners: Counter<string>)

  /** One well added to the statistics of its key. */
  function AddToGroup(g: map<string, Stats>, k: Option<string>, partner: Option<string>, w: string): map<string, Stats> {
    match k
    case None => g
    case Some(key) =>
      var s := if key in g then g[key] else Stats(0, [], []);
      var ps := if partner.Some? then Bump(s.partners, partner.value) else s.partners;
      g[key := Stats(s.count + 1, s.examples + [w], ps)]
  }

  /** The `defaultdict` of statistics after every well. */
  function Grouped(ws: seq<string>, key: string -> Option<string>, partner: string -> Option<string>): map<string, Stats> {
    if |ws| == 0 then map[]
    else
      var w := ws[|ws| - 1];
      AddToGroup(Grouped(ws[..|ws| - 1], key, partner), key(w), partner(w), w)
  }

  /** A key has statistics exactly when some well has it; its count is the number
    * of those wells, its examples are those wells in order, and its partners
    * count their partner keys. */
  lemma {:induction false} GroupedExact(ws: seq<string>, key: string -> Option<string>, partner: string -> Option<string>, k: string)
    ensures k in Grouped(ws, key, partner) <==> |Matching(ws, key, k)| > 0
    ensures k in Grouped(ws, key, partner) ==>
      var s := Grouped(ws, key, partner)[k];
      s.examples == Matching(ws, key, k) && s.count == |s.examples| && s.partners == TallyOf(s.examples, partner)
  {
    if |ws| > 0 {
      var init, w := ws[..|ws| - 1], ws[|ws| - 1];
      GroupedExact(init, key, partner, k);
      var m := Matching(init, key, k);
      if key(w) == Some(k) {
        assert (m + [w])[..|m|] == m;
      }
    }
  }

  /** The serialised statistics keep at most five examples. */
  function Trimmed(g: map<string, Stats>): (t: map<string, Stats>)
    ensures t.Keys == g.Keys
    ensures forall k :: k in t ==> |t[k].examples| <= 5 && t[k].examples <= g[k].examples
  {
    map k | k in g :: Stats(g[k].count, WellParser.Take(g[k].examples, 5), g[k].partners)
  }

  // ------------------------------------------------------------ mapping rules

  /** `direct_mappings`: each base, mapped to the last well that has it. */
  function DirectMappings(ws: seq<string>): map<string, string> {
    if |ws| == 0 then map[]
    else DirectMappings(ws[..|ws| - 1])[BaseOf(ws[|ws| - 1]) := ws[|ws| - 1]]
  }

  /** A base is mapped exactly when a known well has it, and it is mapped to such a well. */
  lemma {:induction false} DirectMappingsAt(ws: seq<string>, b: string)
    ensures b in DirectMappings(ws) <==> exists w :: w in ws && BaseOf(w) == b
    ensures b in DirectMappings(ws) ==> DirectMappings(ws)[b] in ws && BaseOf(DirectMappings(ws)[b]) == b
  {
    if |ws| > 0 {
      var init, w := ws[..|ws| - 1], ws[|ws| - 1];
      DirectMappingsAt(init, b);
      assert ws == init + [w];
    }
  }

  /** When no two known wells share a base, each base maps back to its own well. */
  lemma DirectMappingsInverse(ws: seq<string>, w: string)
    requires forall u, v :: u in ws && v in ws && BaseOf(u) == BaseOf(v) ==> u == v
    requires w in ws
    ensures BaseOf(w) in DirectMappings(ws) && DirectMappings(ws)[BaseOf(w)] == w
  {
    DirectMappingsAt(ws, BaseOf(w));
  }

  /** `pattern_mappings`: for each `prefix*suffix`, the wells that have it. */
  function PatternMappings(ws: seq<string>): map<string, seq<string>> {
    if |ws| == 0 then map[]
    else
      var pm, w := PatternMappings(ws[..|ws| - 1]), ws[|ws| - 1];
      match PatternKey(w)
      case None => pm
      case Some(k) => pm[k := (if k in pm then pm[k] else []) + [w]]
  }

  /** Each pattern lists exactly the wells with that prefix and suffix, in order. */
  lemma {:induction false} PatternMappingsExact(ws: seq<string>, k: string)
    ensures k in PatternMappings(ws) <==> |Matching(ws, PatternKey, k)| > 0
    ensures k in PatternMappings(ws) ==> PatternMappings(ws)[k] == Matching(ws, PatternKey, k)
  {
    if |ws| > 0 {
      PatternMappingsExact(ws[..|ws| - 1], k);
    }
  }

  /** A generated rule: its confidence, the three most common partners, its examples. */
  datatype Rule = Rule(confidence: real, common: seq<string>, examples: seq<string>)

  /** `min(count / 10, 1.0)`. */
  function RuleConfidence(count: nat): (r: real)
    ensures count >= 3 ==> 0.3 <= r <= 1.0
    ensures r == 1.0 <==> count >= 10
  {
    Min(count as real / 10.0, 1.0)
  }

  /** Orders entries by count, largest first. */
  function NegCount(e: (string, nat)): real { -(e.1 as real) }

  /** `[k for k, c in counter.most_common(n)]`: a stable sort by count,
    * descending, then the first n keys. */
  function MostCommon(c: Counter<string>, n: nat): (r: seq<string>)
    ensures |r| <= n && |r| <= |c|
  {
    var sorted := SortBy(c, NegCount);
    var top := WellParser.Take(sorted, n);
    seq(|top|, i requires 0 <= i < |top| => top[i].0)
  }

  /** The most common keys are keys of the counter, in non-increasing order of
    * count, and no key left out is more frequent than one that is kept. */
  lemma MostCommonSpec(c: Counter<string>, n: nat)
    requires DistinctKeys(c)
    ensures var r := MostCommon(c, n);
      && (forall i :: 0 <= i < |r| ==> Has(c, r[i]))
      && (forall i, j :: 0 <= i < j < |r| ==> Get(c, r[i]) >= Get(c, r[j]))
      && (forall k, i :: Has(c, k) && k !in r && 0 <= i < |r| ==> Get(c, k) <= Get(c, r[i]))
  {
    var r := MostCommon(c, n);
    forall i | 0 <= i < |r|
      ensures Has(c, r[i])
    {
      MostCommonEntry(c, n, i);
    }
    forall i, j | 0 <= i < j < |r|
      ensures Get(c, r[i]) >= Get(c, r[j])
    {
      MostCommonOrdered(c, n, i, j);
    }
    forall k, i | Has(c, k) && k !in r && 0 <= i < |r|
      ensures Get(c, k) <= Get(c, r[i])
    {
      MostCommonMaximal(c, n, k, i);
    }
  }

  /** The kept keys are the keys of the first entries of the sorted counter. */
  lemma MostCommonAt(c: Counter<string>, n: nat)
    ensures var r, sorted := MostCommon(c, n), SortBy(c, NegCount);
      forall i :: 0 <= i < |r| ==> i < |sorted| && r[i] == sorted[i].0
  {
  }

  lemma MostCommonEntry(c: Counter<string>, n: nat, i: int)
    requires DistinctKeys(c) && 0 <= i < |MostCommon(c, n)|
    ensures Has(c, MostCommon(c, n)[i]) && Get(c, MostCommon(c, n)[i]) == SortBy(c, NegCount)[i].1
  {
    MostCommonAt(c, n);
    SortByKeepsElements(c, NegCount);
    SortedEntry(c, SortBy(c, NegCount), i);
  }

  lemma MostCommonOrdered(c: Counter<string>, n: nat, i: int, j: int)
    requires DistinctKeys(c) && 0 <= i < j < |MostCommon(c, n)|
    ensures Get(c, MostCommon(c, n)[i]) >= Get(c, MostCommon(c, n)[j])
  {
    MostCommonEntry(c, n, i);
    MostCommonEntry(c, n, j);
    SortByOrdered(c, NegCount);
    var sorted := SortBy(c, NegCount);
    assert NegCount(sorted[i]) <= NegCount(sorted[j]);
  }

  lemma MostCommonMaximal(c: Counter<string>, n: nat, k: string, i: int)
    requires DistinctKeys(c) && Has(c, k) && k !in MostCommon(c, n) && 0 <= i < |MostCommon(c, n)|
    ensures Get(c, k) <= Get(c, MostCommon(c, n)[i])
  {
    var r, sorted := MostCommon(c, n), SortBy(c, NegCount);
    SortByKeepsElements(c, NegCount);
    SortByOrdered(c, NegCount);
    MostCommonEntry(c, n, i);
    MostCommonAt(c, n);
    var e := IndexOf(c, k);
    assert c[e] in multiset(sorted);
    var j :| 0 <= j < |sorted| && sorted[j] == c[e];
    assert forall t :: 0 <= t < |r| ==> r[t] != k;
    assert j >= |r|;
    assert NegCount(sorted[i]) <= NegCount(sorted[j]);
  }

  /** An entry of the sorted counter is an entry of the counter. */
  lemma SortedEntry(c: Counter<string>, sorted: Counter<string>, i: int)
    requires DistinctKeys(c) && multiset(sorted) == multiset(c) && 0 <= i < |sorted|
    ensures Has(c, sorted[i].0) && Get(c, sorted[i].0) == sorted[i].1
  {
    assert sorted[i] in multiset(c);
    var j :| 0 <= j < |c| && c[j] == sorted[i];
    EntryGet(c, j);
  }

  /** The rule of one pattern. */
  function RuleOf(s: Stats): Rule {
    Rule(RuleConfidence(s.count), MostCommon(s.partners, 3), s.examples)
  }

  /** The rules generated from the patterns whose keys are in done. */
  function RulesOver(patterns: map<string, Stats>, done: set<string>): map<string, Rule> {
    map k | k in done && k in patterns && patterns[k].count >= 3 :: RuleOf(patterns[k])
  }

  /** A rule exists exactly for a pattern seen at least three times; its
    * confidence lies in [0.3, 1.0] and is 1.0 from ten wells on; it keeps at
    * most three partners, each a partner of the pattern. */
  lemma RulesSpec(patterns: map<string, Stats>, k: string)
    requires k in patterns ==> DistinctKeys(patterns[k].partners)
    ensures k in RulesOver(patterns, patterns.Keys) <==> k in patterns && patterns[k].count >= 3
    ensures k in RulesOver(patterns, patterns.Keys) ==>
      var r := RulesOver(patterns, patterns.Keys)[k];
      && 0.3 <= r.confidence <= 1.0
      && (r.confidence == 1.0 <==> patterns[k].count >= 10)
      && |r.common| <= 3
      && (forall i :: 0 <= i < |r.common| ==> Has(patterns[k].partners, r.common[i]))
      && r.examples == patterns[k].examples
  {
    if k in patterns {
      MostCommonSpec(patterns[k].partners, 3);
    }
  }

  /** `_generate_prefix_rules` and `_generate_suffix_rules`: the loop over the
    * patterns that keeps those seen at least three times. */
  method GenerateRules(patterns: map<string, Stats>) returns (rules: map<string, Rule>)
    ensures rules == RulesOver(patterns, patterns.Keys)
  {
    rules := map[];
    var todo := patterns.Keys;
    while todo != {}
      invariant todo <= patterns.Keys
      invariant rules == RulesOver(patterns, patterns.Keys - todo)
      decreases |todo|
    {
      var k :| k in todo;
      ghost var done := patterns.Keys - todo;
      var stats := patterns[k];
      if stats.count >= 3 {
        rules := rules[k := Rule(RuleConfidence(stats.count), MostCommon(stats.partners, 3), stats.examples)];
        assert rules[k] == RuleOf(stats);
      }
      todo := todo - {k};
      RulesOverStep(patterns, done, k);
      assert patterns.Keys - todo == done + {k};
    }
  }

  lemma RulesOverStep(patterns: map<string, Stats>, done: set<string>, k: string)
    requires k in patterns
    ensures RulesOver(patterns, done + {k}) ==
      if patterns[k].count >= 3 then RulesOver(patterns, done)[k := RuleOf(patterns[k])] else RulesOver(patterns, done)
  {
  }

  // ------------------------------------------------------------ confidence

  /** `well_mapping`: the direct and pattern mappings and the two rule tables. */
  datatype Mapping = Mapping(
    direct: map<string, string>, patterns: map<string, seq<string>>,
    prefixRules: map<string, Rule>, suffixRules: map<string, Rule>)

  /** One frequency term: 0.1 times the key's count over the largest count. */
  function FrequencyTerm<K(==)>(c: Counter<K>, k: K): (r: real)
    requires Positive(c)
    ensures 0.0 <= r <= 0.1
    ensures r > 0.0 <==> Has(c, k)
  {
    if Has(c, k) then
      var i := IndexOf(c, k);
      assert 0 < c[i].1 <= MaxCount(c);
      RatioBounds(Get(c, k), MaxCount(c));
      0.1 * (Get(c, k) as real / MaxCount(c) as real)
    else 0.0
  }

  lemma RatioBounds(g: nat, m: nat)
    requires 0 < g <= m
    ensures 0.0 < g as real / m as real <= 1.0
  {
  }

  function DirectTerm(m: Mapping, w: string): real {
    if w in m.direct then 0.8 else 0.0
  }

  /** The direct mapping and the two rules together. */
  function RuleTerms(m: Mapping, w: string): real {
    DirectTerm(m, w) + (if HasPrefixRule(m, w) then 0.3 else 0.0) + (if HasSuffixRule(m, w) then 0.2 else 0.0)
  }

  predicate HasPrefixRule(m: Mapping, w: string) {
    PrefixOf(w).Some? && PrefixOf(w).value in m.prefixRules
  }

  predicate HasSuffixRule(m: Mapping, w: string) {
    SuffixOf(w).Some? && SuffixOf(w).value in m.suffixRules
  }

  /** `_calculate_well_confidence`: 0.8 for a direct mapping, 0.3 for a prefix
    * rule, 0.2 for a suffix rule and up to 0.1 each for the length and the
    * structure, capped at 1.0. */
  function LearnedConfidence(m: Mapping, d: Dists, w: string): (c: real)
    requires DistsValid(d)
    ensures 0.0 <= c <= 1.0
    ensures w in m.direct ==> c >= 0.8
  {
    Min(RuleTerms(m, w) + FrequencyTerm(d.lengths, |w|) + FrequencyTerm(d.structures, Structure(w)), 1.0)
  }

  /** A confidence above 0.5 needs a direct mapping, or both rules and a known
    * length or structure: without a mapping the rules give at most 0.5. */
  lemma ConfidenceEvidence(m: Mapping, d: Dists, w: string)
    requires DistsValid(d)
    ensures LearnedConfidence(m, d, w) > 0.5 ==>
      w in m.direct || (HasPrefixRule(m, w) && HasSuffixRule(m, w) && (Has(d.lengths, |w|) || Has(d.structures, Structure(w))))
    ensures w !in m.direct ==> LearnedConfidence(m, d, w) <= 0.7
  {
  }

  // ------------------------------------------------------------ prediction

  /** The confidences of the candidates. */
  function LearnedScores(m: Mapping, d: Dists, cands: seq<string>): (cs: seq<real>)
    requires DistsValid(d)
    ensures |cs| == |cands|
  {
    seq(|cands|, i requires 0 <= i < |cands| => LearnedConfidence(m, d, cands[i]))
  }

  /** `predict_well_name` with the candidates in the order given. */
  function Predicted(m: Mapping, d: Dists, filename: string, cands: seq<string>): (r: (Option<string>, real))
    requires DistsValid(d)
    ensures |filename| == 0 ==> r == (None, 0.0)
    ensures |filename| > 0 && |WellMatches(filename)| > 0 ==> r == (Some(WellMatches(filename)[0]), 1.0)
    ensures r.0.None? ==> r.1 == 0.0
    ensures r.0.Some? && |WellMatches(filename)| == 0 ==>
      && 0.5 < r.1 == WellParser.BestValue(LearnedScores(m, d, cands))
      && exists j :: 0 <= j < |cands| && r.0 == Some(cands[j] + "井") && LearnedConfidence(m, d, cands[j]) == r.1
    ensures |filename| > 0 && |WellMatches(filename)| == 0 ==>
      (r.0.Some? <==> WellParser.BestValue(LearnedScores(m, d, cands)) > 0.5 && |cands[WellParser.FirstBest(LearnedScores(m, d, cands))]| > 0)
  {
    if |filename| == 0 then (None, 0.0)
    else
      var matches := WellMatches(filename);
      if |matches| > 0 then (Some(matches[0]), 1.0)
      else
        var cs := LearnedScores(m, d, cands);
        var b := WellParser.FirstBest(cs);
        if b >= 0 && |cands[b]| > 0 && cs[b] > 0.5 then (Some(cands[b] + "井"), cs[b])
        else (None, 0.0)
  }

  /** The prediction on the candidates of the file name. */
  function Prediction(m: Mapping, d: Dists, filename: string): (Option<string>, real)
    requires DistsValid(d)
  {
    Predicted(m, d, filename, PotentialWells(filename))
  }

  /** Candidates that include all of another list's candidates score at least as well. */
  lemma LearnedScoresCover(m: Mapping, d: Dists, xs: seq<string>, ys: seq<string>)
    requires DistsValid(d)
    requires forall w :: w in xs ==> w in ys
    ensures WellParser.BestValue(LearnedScores(m, d, xs)) <= WellParser.BestValue(LearnedScores(m, d, ys))
  {
    var a, b := LearnedScores(m, d, xs), LearnedScores(m, d, ys);
    forall i | 0 <= i < |a|
      ensures a[i] in b
    {
      assert xs[i] in xs;
      var j :| 0 <= j < |ys| && ys[j] == xs[i];
      assert b[j] == a[i];
    }
    WellParser.BestValueCovers(a, b);
  }

  /** The candidate order (a Python set's) never changes the confidence, and
    * changes whether a name is predicted only through the empty candidate. */
  lemma PredictedOrderFree(m: Mapping, d: Dists, filename: string, xs: seq<string>, ys: seq<string>)
    requires DistsValid(d)
    requires forall w :: w in xs <==> w in ys
    requires forall w :: w in xs ==> |w| > 0
    ensures Predicted(m, d, filename, xs).1 == Predicted(m, d, filename, ys).1
    ensures Predicted(m, d, filename, xs).0.Some? == Predicted(m, d, filename, ys).0.Some?
  {
    LearnedScoresCover(m, d, xs, ys);
    LearnedScoresCover(m, d, ys, xs);
    var kx, ky := WellParser.FirstBest(LearnedScores(m, d, xs)), WellParser.FirstBest(LearnedScores(m, d, ys));
    if kx >= 0 {
      assert xs[kx] in xs;
    }
    if ky >= 0 {
      assert ys[ky] in ys;
    }
  }

  /** A name predicted without 井 in the file name comes from a candidate that
    * has a direct mapping, or both rules and a known length or structure. */
  lemma PredictionEvidence(m: Mapping, d: Dists, filename: string)
    requires DistsValid(d)
    ensures var r := Prediction(m, d, filename);
      r.0.Some? && |WellMatches(filename)| == 0 ==>
        exists w :: w in PotentialWells(filename) && r.0 == Some(w + "井") &&
          (w in m.direct || (HasPrefixRule(m, w) && HasSuffixRule(m, w)))
  {
    var cands := PotentialWells(filename);
    var r := Prediction(m, d, filename);
    if r.0.Some? && |WellMatches(filename)| == 0 {
      var j :| 0 <= j < |cands| && r.0 == Some(cands[j] + "井") && LearnedConfidence(m, d, cands[j]) == r.1;
      ConfidenceEvidence(m, d, cands[j]);
    }
  }

  // ------------------------------------------------------------ the learner

  // ------------------------------------------------------------ the loops

  /** The loop of `_collect_known_wells` over the file names. */
  method CollectInto(known: seq<string>, filenames: seq<string>) returns (r: seq<string>)
    requires NoDuplicates(known)
    ensures r == Dedup(known + Collected(filenames))
  {
    DedupNoop(known);
    r := known;
    assert known + Collected(filenames[..0]) == known;
    for i := 0 to |filenames|
      invariant r == Dedup(known + Collected(filenames[..i]))
    {
      ghost var before := known + Collected(filenames[..i]);
      var filename := filenames[i];
      if |filename| > 0 {
        var matches := WellMatches(filename);
        r := AddWells(r, matches, before);
      } else {
        assert before + [] == before;
      }
      CollectedStep(known, filenames, i);
    }
    assert filenames[..|filenames|] == filenames;
  }

  /** The inner loop: `known_wells.add(well)` for each match. */
  method AddWells(known: seq<string>, matches: seq<string>, ghost seen: seq<string>) returns (r: seq<string>)
    requires known == Dedup(seen)
    ensures r == Dedup(seen + matches)
  {
    r := known;
    assert seen + matches[..0] == seen;
    for j := 0 to |matches|
      invariant r == Dedup(seen + matches[..j])
    {
      var well := matches[j];
      DedupStep(seen + matches[..j], well);
      assert seen + matches[..j + 1] == (seen + matches[..j]) + [well];
      if well !in r {
        r := r + [well];
      }
    }
    assert matches[..|matches|] == matches;
  }

  /** The loop of `_analyze_well_patterns`. */
  method Analyze(ws: seq<string>) returns (d: Dists)
    ensures d == Distributions(ws)
  {
    d := Dists([], [], [], [], [], []);
    for i := 0 to |ws|
      invariant d == Distributions(ws[..i])
    {
      d := AnalyzeWell(d, ws[i]);
      DistributionsStep(ws, i);
    }
    assert ws[..|ws|] == ws;
  }

  /** The body of that loop: one well counted. */
  method AnalyzeWell(d: Dists, well: string) returns (r: Dists)
    ensures r.prefixes == BumpAt(d.prefixes, PrefixKey(well))
    ensures r.numbers == BumpAt(d.numbers, NumberKey(well))
    ensures r.suffixes == BumpAt(d.suffixes, SuffixKey(well))
    ensures r.separators == BumpAt(d.separators, SeparatorKey(well))
    ensures r.lengths == BumpAt(d.lengths, LengthKey(well))
    ensures r.structures == BumpAt(d.structures, StructureKey(well))
  {
    var prefixes, numbers, suffixes, separators, lengths, structures :=
      d.prefixes, d.numbers, d.suffixes, d.separators, d.lengths, d.structures;
    var base := BaseOf(well);
    var prefix := PrefixOf(base);
    if prefix.Some? {
      prefixes := Bump(prefixes, prefix.value);
    }
    var runs := DigitRuns(base);
    if |runs| > 0 {
      numbers := Bump(numbers, Join(runs, "-"));
    }
    var suffix := SuffixOf(base);
    if suffix.Some? {
      suffixes := Bump(suffixes, suffix.value);
    }
    var seps := Separators(base);
    if |seps| > 0 {
      separators := Bump(separators, seps);
    }
    var length: nat := |base|;
    assert LengthKey(well) == Some(length);
    lengths := Bump(lengths, length);
    var structure := ExtractStructurePattern(base);
    structures := Bump(structures, structure);
    r := Dists(prefixes, numbers, suffixes, separators, lengths, structures);
  }

  /** The loop of `_learn_prefix_suffix_patterns` that fills both `defaultdict`s. */
  method GroupPrefixesSuffixes(ws: seq<string>) returns (prefixStats: map<string, Stats>, suffixStats: map<string, Stats>)
    ensures prefixStats == Grouped(ws, PrefixKey, SuffixKey)
    ensures suffixStats == Grouped(ws, SuffixKey, PrefixKey)
  {
    prefixStats, suffixStats := map[], map[];
    for i := 0 to |ws|
      invariant prefixStats == Grouped(ws[..i], PrefixKey, SuffixKey)
      invariant suffixStats == Grouped(ws[..i], SuffixKey, PrefixKey)
    {
      var well := ws[i];
      var base := BaseOf(well);
      var prefix, suffix := PrefixOf(base), SuffixOf(base);
      prefixStats := AddToGroup(prefixStats, prefix, suffix, well);
      suffixStats := AddToGroup(suffixStats, suffix, prefix, well);
      assert ws[..i + 1][..i] == ws[..i];
    }
    assert ws[..|ws|] == ws;
  }

  /** The loop of `_generate_well_mapping_rules` that fills the two mappings. */
  method MapWells(ws: seq<string>) returns (direct: map<string, string>, patterns: map<string, seq<string>>)
    ensures direct == DirectMappings(ws) && patterns == PatternMappings(ws)
  {
    direct, patterns := map[], map[];
    for i := 0 to |ws|
      invariant direct == DirectMappings(ws[..i])
      invariant patterns == PatternMappings(ws[..i])
    {
      var well := ws[i];
      var base := BaseOf(well);
      direct := direct[base := well];
      var prefix := PrefixOf(base);
      if prefix.Some? {
        var suffix := SuffixOf(base);
        if suffix.Some? {
          var key := prefix.value + "*" + suffix.value;
          if key !in patterns {
            patterns := patterns[key := []];
          }
          patterns := patterns[key := patterns[key] + [well]];
        }
      }
      assert ws[..i + 1][..i] == ws[..i];
    }
    assert ws[..|ws|] == ws;
  }

  /** `_calculate_well_confidence`, accumulated term by term over what was learned. */
  method CalculateWellConfidence(m: Mapping, d: Dists, w: string) returns (confidence: real)
    requires DistsValid(d)
    ensures confidence == LearnedConfidence(m, d, w)
  {
    confidence := 0.0;
    if w in m.direct {
      confidence := confidence + 0.8;
    }
    var prefix := PrefixOf(w);
    if prefix.Some? && prefix.value in m.prefixRules {
      confidence := confidence + 0.3;
    }
    var suffix := SuffixOf(w);
    if suffix.Some? && suffix.value in m.suffixRules {
      confidence := confidence + 0.2;
    }
    assert confidence == RuleTerms(m, w);
    if Has(d.lengths, |w|) {
      confidence := confidence + FrequencyTerm(d.lengths, |w|);
    }
    var structure := ExtractStructurePattern(w);
    if Has(d.structures, structure) {
      confidence := confidence + FrequencyTerm(d.structures, structure);
    }
    confidence := Min(confidence, 1.0);
  }

  /** The loop of `predict_well_name` that keeps the best candidate, replaced
    * only on a strictly greater confidence. */
  method FindBestLearned(m: Mapping, d: Dists, cands: seq<string>) returns (best: Option<string>, bestConfidence: real)
    requires DistsValid(d)
    ensures var k := WellParser.FirstBest(LearnedScores(m, d, cands));
      (k < 0 ==> best.None? && bestConfidence == 0.0) &&
      (k >= 0 ==> best == Some(cands[k]) && bestConfidence == LearnedConfidence(m, d, cands[k]))
  {
    ghost var cs := LearnedScores(m, d, cands);
    ghost var k := -1;
    best, bestConfidence := None, 0.0;
    for i := 0 to |cands|
      invariant k == WellParser.FirstBest(cs[..i])
      invariant k < 0 ==> best.None? && bestConfidence == 0.0
      invariant k >= 0 ==> k < i && best == Some(cands[k]) && bestConfidence == cs[k]
    {
      WellParser.FirstBestStep(cs, i);
      var c := CalculateWellConfidence(m, d, cands[i]);
      if c > bestConfidence {
        best, bestConfidence := Some(cands[i]), c;
        k := i;
      }
    }
    assert cs[..|cands|] == cs;
  }

  // ------------------------------------------------------------ the learner

  class WellNameLearner {
    /** `known_wells`, a set; the sequence keeps the order of first collection. */
    var knownWells: seq<string>
    /** `well_patterns`; None while it is still the empty dict. */
    var wellPatterns: Option<Dists>
    var prefixPatterns: map<string, Stats>
    var suffixPatterns: map<string, Stats>
    /** `well_mapping`; None while it is still the empty dict. */
    var wellMapping: Option<Mapping>

    ghost predicate Valid()
      reads this
    {
      NoDuplicates(knownWells) && (wellPatterns.Some? ==> DistsValid(wellPatterns.value))
    }

    constructor()
      ensures Valid()
      ensures knownWells == [] && wellPatterns.None? && wellMapping.None?
      ensures prefixPatterns == map[] && suffixPatterns == map[]
    {
      knownWells, wellPatterns, wellMapping := [], None, None;
      prefixPatterns, suffixPatterns := map[], map[];
    }

    /** `_collect_known_wells`: adds every `...井` match of every non-empty file
      * name to the known wells. */
    method CollectKnownWells(filenames: seq<string>)
      requires Valid()
      modifies this
      ensures Valid()
      ensures knownWells == Dedup(old(knownWells) + Collected(filenames))
      ensures forall w :: w in knownWells <==> w in old(knownWells) || w in Collected(filenames)
      ensures wellPatterns == old(wellPatterns) && wellMapping == old(wellMapping)
      ensures prefixPatterns == old(prefixPatterns) && suffixPatterns == old(suffixPatterns)
    {
      knownWells := CollectInto(knownWells, filenames);
      DedupExact(old(knownWells) + Collected(filenames));
    }

    /** `_analyze_well_patterns`: the six counters over the known wells. */
    method AnalyzeWellPatterns()
      requires Valid()
      modifies this
      ensures Valid()
      ensures wellPatterns == Some(Distributions(knownWells))
      ensures knownWells == old(knownWells) && wellMapping == old(wellMapping)
      ensures prefixPatterns == old(prefixPatterns) && suffixPatterns == old(suffixPatterns)
    {
      var d := Analyze(knownWells);
      DistributionsValid(knownWells);
      wellPatterns := Some(d);
    }

    /** `_learn_prefix_suffix_patterns`: the statistics of every prefix and every
      * suffix, each keeping its first five examples. */
    method LearnPrefixSuffixPatterns()
      requires Valid()
      modifies this
      ensures Valid()
      ensures prefixPatterns == Trimmed(Grouped(knownWells, PrefixKey, SuffixKey))
      ensures suffixPatterns == Trimmed(Grouped(knownWells, SuffixKey, PrefixKey))
      ensures knownWells == old(knownWells) && wellPatterns == old(wellPatterns) && wellMapping == old(wellMapping)
    {
      var prefixStats, suffixStats := GroupPrefixesSuffixes(knownWells);
      prefixPatterns := Trimmed(prefixStats);
      suffixPatterns := Trimmed(suffixStats);
    }

    /** `_generate_well_mapping_rules`: the direct and pattern mappings of the
      * known wells and the rules of the learned patterns. */
    method GenerateWellMappingRules()
      requires Valid()
      modifies this
      ensures Valid()
      ensures wellMapping == Some(Mapping(DirectMappings(knownWells), PatternMappings(knownWells),
        RulesOver(prefixPatterns, prefixPatterns.Keys), RulesOver(suffixPatterns, suffixPatterns.Keys)))
      ensures knownWells == old(knownWells) && wellPatterns == old(wellPatterns)
      ensures prefixPatterns == old(prefixPatterns) && suffixPatterns == old(suffixPatterns)
    {
      var direct, patterns := MapWells(knownWells);
      var prefixRules := GenerateRules(prefixPatterns);
      var suffixRules := GenerateRules(suffixPatterns);
      wellMapping := Some(Mapping(direct, patterns, prefixRules, suffixRules));
    }

    /** `learn_from_csv_data` without the validation pass: collect, analyse,
      * learn the patterns and generate the rules. */
    method LearnFromFilenames(filenames: seq<string>)
      requires Valid()
      modifies this
      ensures Valid()
      ensures knownWells == Dedup(old(knownWells) + Collected(filenames))
      ensures wellPatterns == Some(Distributions(knownWells))
      ensures prefixPatterns == Trimmed(Grouped(knownWells, PrefixKey, SuffixKey))
      ensures suffixPatterns == Trimmed(Grouped(knownWells, SuffixKey, PrefixKey))
      ensures wellMapping == Some(Mapping(DirectMappings(knownWells), PatternMappings(knownWells),
        RulesOver(prefixPatterns, prefixPatterns.Keys), RulesOver(suffixPatterns, suffixPatterns.Keys)))
    {
      CollectKnownWells(filenames);
      AnalyzeWellPatterns();
      LearnPrefixSuffixPatterns();
      GenerateWellMappingRules();
    }

    /** `predict_well_name`. Before learning, `well_mapping` and
      * `well_patterns` are empty dicts: scoring a candidate then raises
      * `KeyError` (first at `well_mapping['direct_mappings']`), while a call
      * that scores nothing returns normally. */
    method PredictWellName(filename: string) returns (well: Option<string>, confidence: real, raised: bool)
      requires Valid()
      ensures raised <==> (wellMapping.None? || wellPatterns.None?) && ScoresCandidates(filename)
      ensures !raised && wellMapping.Some? && wellPatterns.Some? ==>
        (well, confidence) == Prediction(wellMapping.value, wellPatterns.value, filename)
      ensures !raised && !ScoresCandidates(filename) ==>
        (well, confidence) == (if |filename| > 0 && |WellMatches(filename)| > 0 then (Some(WellMatches(filename)[0]), 1.0) else (None, 0.0))
    {
      if |filename| == 0 {
        return None, 0.0, false;
      }
      var matches := WellMatches(filename);
      if |matches| > 0 {
        return Some(matches[0]), 1.0, false;
      }
      var cands := PotentialWells(filename);
      if |cands| > 0 && (wellMapping.None? || wellPatterns.None?) {
        return None, 0.0, true;
      }
      if |cands| == 0 {
        return None, 0.0, false;
      }
      var best, bestConfidence := FindBestLearned(wellMapping.value, wellPatterns.value, cands);
      if best.Some? && |best.value| > 0 && bestConfidence > 0.5 {
        return Some(best.value + "井"), bestConfidence, false;
      }
      return None, 0.0, false;
    }
  }

  /** The name reaches the scoring loop: it is non-empty, has no `…井` match
    * and yields at least one candidate. */
  predicate ScoresCandidates(filename: string) {
    |filename| > 0 && |WellMatches(filename)| == 0 && |PotentialWells(filename)| > 0
  }

  /** Deduplicating a duplicate-free sequence changes nothing. */
  lemma {:induction false} DedupNoop<T>(s: seq<T>)
    requires NoDuplicates(s)
    ensures Dedup(s) == s
  {
    if |s| > 0 {
      var init := s[..|s| - 1];
      DedupNoop(init);
      assert s == init + [s[|s| - 1]];
      assert s[|s| - 1] !in init;
    }
  }
}
