/** The enhanced well-name parser of app/enhanced_well_parser.py: a well name
  * read from a file name by a `...井` match, a learned direct mapping or a
  * confidence score built from learned prefix and suffix rules, and the batch
  * statistics over many file names. The learned rules are a value; reading
  * them from their JSON file is not part of this model. */
module WellParser {
  import opened Text
  import opened Wells

  /** The learned rules: `direct_mappings` and the confidence of each prefix
    * rule and each suffix rule. */
  datatype Rules = Rules(wellMapping: map<string, string>, prefixRules: map<string, real>, suffixRules: map<string, real>)

  /** Rule confidences as the learner produces them, `min(count / 10, 1.0)`. */
  predicate RulesValid(rules: Rules) {
    (forall p :: p in rules.prefixRules ==> 0.0 <= rules.prefixRules[p] <= 1.0) &&
    (forall s :: s in rules.suffixRules ==> 0.0 <= rules.suffixRules[s] <= 1.0)
  }

  /** How a name was found; the `method` entry of the details. */
  datatype Method = NoFilename | DirectMatch | DirectMapping | RuleBased | NoMatch

  function MethodName(m: Method): string {
    match m
    case NoFilename => "none"
    case DirectMatch => "direct_match"
    case DirectMapping => "direct_mapping"
    case RuleBased => "rule_based_prediction"
    case NoMatch => "no_match"
  }

  /** The well name, its confidence and the method. */
  datatype Parsed = Parsed(well: Option<string>, confidence: real, via: Method)

  // ------------------------------------------------------------ confidence

  predicate HasPrefixRule(rules: Rules, w: string) {
    PrefixOf(w).Some? && PrefixOf(w).value in rules.prefixRules
  }

  predicate HasSuffixRule(rules: Rules, w: string) {
    SuffixOf(w).Some? && SuffixOf(w).value in rules.suffixRules
  }

  function PrefixScore(rules: Rules, w: string): real {
    if HasPrefixRule(rules, w) then 0.3 * rules.prefixRules[PrefixOf(w).value] else 0.0
  }

  function SuffixScore(rules: Rules, w: string): real {
    if HasSuffixRule(rules, w) then 0.2 * rules.suffixRules[SuffixOf(w).value] else 0.0
  }

  /** The length term: positive exactly on lengths 8 to 15, largest at 12. */
  function LengthScore(n: int): (r: real)
    ensures 0.0 <= r <= 0.1
    ensures r > 0.0 <==> 8 <= n <= 15
    ensures r == 0.1 <==> n == 12
  {
    if 8 <= n <= 15 then 0.1 * (1.0 - Abs((n - 12) as real) / 7.0) else 0.0
  }

  function StructureScore(w: string): real {
    if IsValidStructure(Structure(w)) then 0.1 else 0.0
  }

  /** `_calculate_well_confidence`: the four terms, capped at 1.0. */
  function Confidence(rules: Rules, w: string): (c: real)
    ensures c <= 1.0
    ensures RulesValid(rules) ==> 0.0 <= c
    ensures c < 1.0 ==> c == PrefixScore(rules, w) + SuffixScore(rules, w) + LengthScore(|w|) + StructureScore(w)
  {
    Min(PrefixScore(rules, w) + SuffixScore(rules, w) + LengthScore(|w|) + StructureScore(w), 1.0)
  }

  /** Length and structure together give at most 0.2, a prefix rule at most 0.3
    * and a suffix rule at most 0.2: a confidence above 0.5 needs both rules. */
  lemma ConfidenceNeedsBothRules(rules: Rules, w: string)
    requires RulesValid(rules)
    ensures Confidence(rules, w) > 0.5 ==> HasPrefixRule(rules, w) && HasSuffixRule(rules, w)
    ensures !HasPrefixRule(rules, w) && !HasSuffixRule(rules, w) ==> Confidence(rules, w) <= 0.2
  {
    var ps, ss := PrefixScore(rules, w), SuffixScore(rules, w);
    assert HasPrefixRule(rules, w) ==> ps <= 0.3;
    assert HasSuffixRule(rules, w) ==> ss <= 0.2;
    assert StructureScore(w) <= 0.1 && LengthScore(|w|) <= 0.1;
  }

  /** The empty name scores nothing. */
  lemma ConfidenceOfEmpty(rules: Rules)
    ensures Confidence(rules, "") == 0.0
  {
    assert PrefixOf("").None? && SuffixOf("").None?;
    assert Structure("") == "";
  }

  // ------------------------------------------------------------ candidates

  /** The first candidate the direct mapping knows, or -1. */
  function FirstMappedIndex(mapping: map<string, string>, cands: seq<string>): (k: int)
    ensures -1 <= k < |cands|
    ensures k >= 0 ==> cands[k] in mapping && forall j :: 0 <= j < k ==> cands[j] !in mapping
    ensures k < 0 <==> forall j :: 0 <= j < |cands| ==> cands[j] !in mapping
  {
    if |cands| == 0 then -1
    else if cands[0] in mapping then 0
    else
      var k := FirstMappedIndex(mapping, cands[1..]);
      if k < 0 then -1 else k + 1
  }

  /** The scores of the candidates. */
  function Scores(rules: Rules, cands: seq<string>): (cs: seq<real>)
    ensures |cs| == |cands|
  {
    seq(|cands|, i requires 0 <= i < |cands| => Confidence(rules, cands[i]))
  }

  /** The running best of a scan that starts at 0.0 and is replaced only on a
    * strictly greater score: the first maximum, or -1 when no score is positive. */
  function FirstBest(cs: seq<real>): (k: int)
    ensures -1 <= k < |cs|
    ensures k < 0 <==> forall j :: 0 <= j < |cs| ==> cs[j] <= 0.0
    ensures k >= 0 ==> cs[k] > 0.0 && forall j :: 0 <= j < |cs| ==> cs[j] <= cs[k]
    ensures k >= 0 ==> forall j :: 0 <= j < k ==> cs[j] < cs[k]
  {
    if |cs| == 0 then -1
    else
      var k := FirstBest(cs[..|cs| - 1]);
      assert k >= 0 ==> cs[..|cs| - 1][k] == cs[k];
      var best := if k < 0 then 0.0 else cs[k];
      if cs[|cs| - 1] > best then |cs| - 1 else k
  }

  /** The best score, 0.0 when none is positive. */
  function BestValue(cs: seq<real>): real {
    var k := FirstBest(cs);
    if k < 0 then 0.0 else cs[k]
  }

  lemma FirstBestStep(cs: seq<real>, i: int)
    requires 0 <= i < |cs|
    ensures FirstBest(cs[..i + 1]) == if cs[i] > BestValue(cs[..i]) then i else FirstBest(cs[..i])
    ensures FirstBest(cs[..i]) >= 0 ==> cs[..i][FirstBest(cs[..i])] == cs[FirstBest(cs[..i])]
  {
    var p := cs[..i + 1];
    assert p[..|p| - 1] == cs[..i] && p[|p| - 1] == cs[i];
  }

  /** Scores that all occur among other scores are beaten by those. */
  lemma BestValueCovers(a: seq<real>, b: seq<real>)
    requires forall x :: x in a ==> x in b
    ensures BestValue(a) <= BestValue(b)
  {
    var k := FirstBest(a);
    if k >= 0 {
      assert a[k] in a;
      var j :| 0 <= j < |b| && b[j] == a[k];
    }
  }

  /** Candidates that include all of another list's candidates score at least as well. */
  lemma ScoresCover(rules: Rules, xs: seq<string>, ys: seq<string>)
    requires forall w :: w in xs ==> w in ys
    ensures BestValue(Scores(rules, xs)) <= BestValue(Scores(rules, ys))
  {
    var a, b := Scores(rules, xs), Scores(rules, ys);
    forall i | 0 <= i < |a|
      ensures a[i] in b
    {
      assert xs[i] in xs;
      var j :| 0 <= j < |ys| && ys[j] == xs[i];
      assert b[j] == a[i];
    }
    BestValueCovers(a, b);
  }

  // ------------------------------------------------------------ parsing

  /** `parse_well_name` with the candidates in the order given. */
  function Decide(rules: Rules, filename: string, cands: seq<string>): (p: Parsed)
    ensures |filename| == 0 <==> p.via == NoFilename
    ensures p.via == DirectMatch <==> |filename| > 0 && |WellMatches(filename)| > 0
    ensures p.via == DirectMatch ==> p == Parsed(Some(WellMatches(filename)[0]), 1.0, DirectMatch)
    ensures p.via == DirectMapping <==>
      |filename| > 0 && |WellMatches(filename)| == 0 && exists j :: 0 <= j < |cands| && cands[j] in rules.wellMapping
    ensures p.via == DirectMapping ==> (p.confidence == 0.9 &&
      exists j :: 0 <= j < |cands| && cands[j] in rules.wellMapping && p.well == Some(rules.wellMapping[cands[j]]))
    ensures p.via == RuleBased ==> (p.confidence > 0.5 && p.confidence == BestValue(Scores(rules, cands)) &&
      exists j :: 0 <= j < |cands| && p.well == Some(cands[j] + "井") && Confidence(rules, cands[j]) == p.confidence)
    ensures p.via == RuleBased <==>
      |filename| > 0 && |WellMatches(filename)| == 0 && (forall j :: 0 <= j < |cands| ==> cands[j] !in rules.wellMapping) &&
      BestValue(Scores(rules, cands)) > 0.5
    ensures p.well.None? <==> p.via == NoFilename || p.via == NoMatch
    ensures p.well.None? ==> p.confidence == 0.0
  {
    if |filename| == 0 then Parsed(None, 0.0, NoFilename)
    else
      var matches := WellMatches(filename);
      if |matches| > 0 then Parsed(Some(matches[0]), 1.0, DirectMatch)
      else
        var k := FirstMappedIndex(rules.wellMapping, cands);
        if k >= 0 then Parsed(Some(rules.wellMapping[cands[k]]), 0.9, DirectMapping)
        else
          var cs := Scores(rules, cands);
          var b := FirstBest(cs);
          ConfidenceOfEmpty(rules);
          if b >= 0 && |cands[b]| > 0 && cs[b] > 0.5 then Parsed(Some(cands[b] + "井"), cs[b], RuleBased)
          else Parsed(None, 0.0, NoMatch)
  }

  /** `parse_well_name` on the candidates of the file name. */
  function ParseOf(rules: Rules, filename: string): Parsed {
    Decide(rules, filename, PotentialWells(filename))
  }

  /** The candidate order (a Python set's) decides only which of several mapped
    * or equally scored candidates is named, never the method or the confidence. */
  lemma DecideOrderFree(rules: Rules, filename: string, xs: seq<string>, ys: seq<string>)
    requires forall w :: w in xs <==> w in ys
    ensures Decide(rules, filename, xs).via == Decide(rules, filename, ys).via
    ensures Decide(rules, filename, xs).confidence == Decide(rules, filename, ys).confidence
  {
    ScoresCover(rules, xs, ys);
    ScoresCover(rules, ys, xs);
    MappedCover(rules, xs, ys);
    MappedCover(rules, ys, xs);
  }

  /** A mapped candidate among xs is a mapped candidate among ys. */
  lemma MappedCover(rules: Rules, xs: seq<string>, ys: seq<string>)
    requires forall w :: w in xs ==> w in ys
    ensures (exists j :: 0 <= j < |xs| && xs[j] in rules.wellMapping) ==>
      (exists i :: 0 <= i < |ys| && ys[i] in rules.wellMapping)
  {
    if exists j :: 0 <= j < |xs| && xs[j] in rules.wellMapping {
      var j :| 0 <= j < |xs| && xs[j] in rules.wellMapping;
      assert xs[j] in xs;
      var i :| 0 <= i < |ys| && ys[i] == xs[j];
    }
  }

  /** A name is predicted from the rules only when some candidate has both a
    * prefix rule and a suffix rule. */
  lemma RuleBasedNeedsBothRules(rules: Rules, filename: string)
    requires RulesValid(rules)
    ensures ParseOf(rules, filename).via == RuleBased ==>
      exists w :: w in PotentialWells(filename) && HasPrefixRule(rules, w) && HasSuffixRule(rules, w)
  {
    var cands := PotentialWells(filename);
    var p := ParseOf(rules, filename);
    if p.via == RuleBased {
      var j :| 0 <= j < |cands| && p.well == Some(cands[j] + "井") && Confidence(rules, cands[j]) == p.confidence;
      ConfidenceNeedsBothRules(rules, cands[j]);
    }
  }

  /** The loop over the candidates that returns on the first mapped one. */
  method FindMapped(mapping: map<string, string>, cands: seq<string>) returns (k: int)
    ensures k == FirstMappedIndex(mapping, cands)
  {
    for i := 0 to |cands|
      invariant forall j :: 0 <= j < i ==> cands[j] !in mapping
    {
      if cands[i] in mapping {
        var r := FirstMappedIndex(mapping, cands);
        assert r >= 0 && r <= i;
        return i;
      }
    }
    return -1;
  }

  /** The loop that keeps the best candidate, replaced only on a strictly greater confidence. */
  method FindBest(rules: Rules, cands: seq<string>) returns (best: Option<string>, bestConfidence: real)
    ensures var k := FirstBest(Scores(rules, cands));
      (k < 0 ==> best.None? && bestConfidence == 0.0) &&
      (k >= 0 ==> best == Some(cands[k]) && bestConfidence == Confidence(rules, cands[k]))
  {
    ghost var cs := Scores(rules, cands);
    ghost var k := -1;
    best, bestConfidence := None, 0.0;
    for i := 0 to |cands|
      invariant k == FirstBest(cs[..i])
      invariant k < 0 ==> best.None? && bestConfidence == 0.0
      invariant k >= 0 ==> k < i && best == Some(cands[k]) && bestConfidence == cs[k]
    {
      FirstBestStep(cs, i);
      var confidence := Confidence(rules, cands[i]);
      if confidence > bestConfidence {
        best, bestConfidence := Some(cands[i]), confidence;
        k := i;
      }
    }
    assert cs[..|cands|] == cs;
  }

  /** `parse_well_name`. */
  method ParseWellName(rules: Rules, filename: string) returns (p: Parsed)
    ensures p == ParseOf(rules, filename)
  {
    if |filename| == 0 {
      return Parsed(None, 0.0, NoFilename);
    }
    var matches := WellMatches(filename);
    if |matches| > 0 {
      return Parsed(Some(matches[0]), 1.0, DirectMatch);
    }
    var cands := PotentialWells(filename);
    var k := FindMapped(rules.wellMapping, cands);
    if k >= 0 {
      return Parsed(Some(rules.wellMapping[cands[k]]), 0.9, DirectMapping);
    }
    var best, bestConfidence := FindBest(rules, cands);
    if best.Some? && |best.value| > 0 && bestConfidence > 0.5 {
      return Parsed(Some(best.value + "井"), bestConfidence, RuleBased);
    }
    return Parsed(None, 0.0, NoMatch);
  }

  // ------------------------------------------------------------ batches

  /** One entry of `examples`. */
  datatype Example = Example(filename: string, well: string, confidence: real, via: Method)

  /** The statistics of `batch_parse_well_names`: the counters keyed by method
    * name and by confidence range, and the first examples. */
  datatype BatchResult = BatchResult(
    total: nat, successful: nat, failed: nat,
    methods: map<string, nat>, confidenceRanges: map<string, nat>, examples: seq<Example>)

  /** `if well_name:`: a name that is present and not empty. */
  predicate Succeeded(p: Parsed) {
    p.well.Some? && |p.well.value| > 0
  }

  /** `counter[key] += 1`. */
  function Bump(counter: map<string, nat>, key: string): (r: map<string, nat>)
    ensures key in r && r[key] == (if key in counter then counter[key] else 0) + 1
    ensures forall k :: k != key ==> (k in r <==> k in counter) && (k in counter ==> r[k] == counter[k])
  {
    counter[key := (if key in counter then counter[key] else 0) + 1]
  }

  /** Python's `int(x)`, which truncates toward zero. */
  function Truncate(x: real): (n: int)
    ensures x >= 0.0 ==> n as real <= x < n as real + 1.0
    ensures x < 0.0 ==> n as real - 1.0 < x <= n as real
  {
    if x >= 0.0 then x.Floor else -((-x).Floor)
  }

  function IntToString(n: int): string {
    if n < 0 then "-" + NatToString(-n) else NatToString(n)
  }

  /** The tenth a confidence falls in, as an integer. */
  function Tenth(confidence: real): (t: int)
    ensures confidence >= 0.0 ==> t >= 0 && (t * 10) as real <= confidence * 100.0 < ((t + 1) * 10) as real
  {
    Truncate(confidence * 10.0)
  }

  /** The key `f"{t*10}-{(t+1)*10}%"` of the confidence distribution. */
  function ConfidenceRange(confidence: real): string {
    var t := Tenth(confidence);
    IntToString(t * 10) + "-" + IntToString((t + 1) * 10) + "%"
  }

  /** One file's contribution to the statistics. */
  function Record(res: BatchResult, filename: string, p: Parsed): BatchResult {
    if Succeeded(p) then
      var res' := res.(successful := res.successful + 1,
                       methods := Bump(res.methods, MethodName(p.via)),
                       confidenceRanges := Bump(res.confidenceRanges, ConfidenceRange(p.confidence)));
      if |res'.examples| < 20 then
        res'.(examples := res'.examples + [Example(filename, p.well.value, p.confidence, p.via)])
      else res'
    else res.(failed := res.failed + 1)
  }

  /** Each file with its parse, in order. */
  function Parses(rules: Rules, filenames: seq<string>): (ps: seq<(string, Parsed)>)
    ensures |ps| == |filenames|
  {
    seq(|filenames|, i requires 0 <= i < |filenames| => (filenames[i], ParseOf(rules, filenames[i])))
  }

  /** The statistics after the given parses, out of `total`. */
  function Tally(parses: seq<(string, Parsed)>, total: nat): BatchResult {
    if |parses| == 0 then BatchResult(total, 0, 0, map[], map[], [])
    else
      var last := parses[|parses| - 1];
      Record(Tally(parses[..|parses| - 1], total), last.0, last.1)
  }

  function BatchOf(rules: Rules, filenames: seq<string>): BatchResult {
    Tally(Parses(rules, filenames), |filenames|)
  }

  /** The reference list: every success as an example, in file order. */
  function Successes(parses: seq<(string, Parsed)>): seq<Example> {
    if |parses| == 0 then []
    else
      var last := parses[|parses| - 1];
      Successes(parses[..|parses| - 1]) +
        (if Succeeded(last.1) then [Example(last.0, last.1.well.value, last.1.confidence, last.1.via)] else [])
  }

  function Take<T>(s: seq<T>, n: nat): seq<T> {
    if |s| <= n then s else s[..n]
  }

  /** Every file is counted once, as a success or a failure; the examples are
    * the first twenty successes; each success is counted under its method. */
  lemma {:induction false} TallyCounts(parses: seq<(string, Parsed)>, total: nat)
    ensures var res := Tally(parses, total);
      res.total == total && res.successful + res.failed == |parses| &&
      res.successful == |Successes(parses)| &&
      res.examples == Take(Successes(parses), 20)
    ensures var res := Tally(parses, total);
      forall e :: e in res.examples ==> MethodName(e.via) in res.methods && res.methods[MethodName(e.via)] > 0
  {
    if |parses| > 0 {
      var init := parses[..|parses| - 1];
      TallyCounts(init, total);
      var last := parses[|parses| - 1];
      if Succeeded(last.1) {
        var e := Example(last.0, last.1.well.value, last.1.confidence, last.1.via);
        var ss := Successes(init);
        assert Successes(parses) == ss + [e];
        if |ss| < 20 {
          assert Take(ss + [e], 20) == ss + [e];
        } else {
          assert (ss + [e])[..20] == ss[..20];
        }
      }
    }
  }

  /** `batch_parse_well_names`: successes plus failures make the total, and at
    * most twenty examples are kept, the first successes in file order. */
  lemma BatchCounts(rules: Rules, filenames: seq<string>)
    ensures var res := BatchOf(rules, filenames);
      res.total == |filenames| && res.successful + res.failed == res.total &&
      |res.examples| <= 20 && res.examples == Take(Successes(Parses(rules, filenames)), 20)
  {
    TallyCounts(Parses(rules, filenames), |filenames|);
  }

  lemma TallyStep(parses: seq<(string, Parsed)>, total: nat, i: int)
    requires 0 <= i < |parses|
    ensures Tally(parses[..i + 1], total) == Record(Tally(parses[..i], total), parses[i].0, parses[i].1)
  {
    assert parses[..i + 1][..i] == parses[..i];
  }

  /** `batch_parse_well_names`: one pass over the files updating the counters. */
  method BatchParseWellNames(rules: Rules, filenames: seq<string>) returns (res: BatchResult)
    ensures res == BatchOf(rules, filenames)
  {
    res := BatchResult(|filenames|, 0, 0, map[], map[], []);
    ghost var parses := Parses(rules, filenames);
    for i := 0 to |filenames|
      invariant res == Tally(parses[..i], |filenames|)
    {
      TallyStep(parses, |filenames|, i);
      var p := ParseWellName(rules, filenames[i]);
      res := CountParse(res, filenames[i], p);
    }
    assert parses[..|filenames|] == parses;
  }

  /** The loop body of `batch_parse_well_names`: one parse counted. */
  method CountParse(res: BatchResult, filename: string, p: Parsed) returns (r: BatchResult)
    ensures r == Record(res, filename, p)
  {
    r := res;
    if p.well.Some? && |p.well.value| > 0 {
      r := r.(successful := r.successful + 1);
      r := r.(methods := Bump(r.methods, MethodName(p.via)));
      r := r.(confidenceRanges := Bump(r.confidenceRanges, ConfidenceRange(p.confidence)));
      if |r.examples| < 20 {
        r := r.(examples := r.examples + [Example(filename, p.well.value, p.confidence, p.via)]);
      }
    } else {
      r := r.(failed := r.failed + 1);
    }
  }
}
