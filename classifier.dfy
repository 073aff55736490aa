/** The rule classifier of app/classifier.py: every rule is checked against
  * the normalised path (exclusions, required tokens), scored from its token
  * hits and the sample-type preference, and the lexicographic best of
  * (score, priority, -index) wins when its score is positive. */
module Classifier {
  import opened Text
  import N = Normalizer

  // ------------------------------------------------------------ _contains_any

  /** `_contains_any(hay, needles)`: the non-empty needles whose lower-case
    * form occurs in hay, in input order. */
  function NeedlesIn(hay: string, needles: seq<string>): seq<string> {
    if |needles| == 0 then []
    else
      var t := needles[|needles| - 1];
      NeedlesIn(hay, needles[..|needles| - 1]) + (if IsHit(hay, t) then [t] else [])
  }

  /** `t and t.lower() in hay`. */
  predicate IsHit(hay: string, t: string) { |t| > 0 && Contains(hay, Lower(t)) }

  /** Each needle appears in the result exactly as often as in the input when
    * it is a hit, and not at all otherwise. */
  lemma {:induction false} NeedlesInCount(hay: string, needles: seq<string>)
    ensures forall t :: multiset(NeedlesIn(hay, needles))[t] == (if IsHit(hay, t) then multiset(needles)[t] else 0)
  {
    if |needles| > 0 {
      var init, t := needles[..|needles| - 1], needles[|needles| - 1];
      NeedlesInCount(hay, init);
      assert needles == init + [t];
    }
  }

  /** The hits keep the input order: the hits of a concatenation are the hits
    * of the first part followed by those of the second. */
  lemma {:induction false} NeedlesInOrder(hay: string, a: seq<string>, b: seq<string>)
    ensures NeedlesIn(hay, a + b) == NeedlesIn(hay, a) + NeedlesIn(hay, b)
  {
    if |b| == 0 {
      assert a + b == a;
    } else {
      var init := b[..|b| - 1];
      NeedlesInOrder(hay, a, init);
      assert (a + b)[..|a + b| - 1] == a + init;
    }
  }

  /** A single needle gives itself exactly when it is a hit. */
  lemma NeedlesInSingle(hay: string, t: string)
    ensures NeedlesIn(hay, [t]) == (if IsHit(hay, t) then [t] else [])
  {
    assert [t][..0] == [];
  }

  /** The loop of `_contains_any`. */
  method ContainsAnyHits(hay: string, needles: seq<string>) returns (hit: seq<string>)
    ensures hit == NeedlesIn(hay, needles)
  {
    hit := [];
    var i := 0;
    while i < |needles|
      invariant 0 <= i <= |needles|
      invariant hit == NeedlesIn(hay, needles[..i])
    {
      var t := needles[i];
      assert needles[..i + 1][..i] == needles[..i];
      if |t| > 0 && Contains(hay, Lower(t)) {
        hit := hit + [t];
      }
      i := i + 1;
    }
    assert needles[..i] == needles;
  }

  // ------------------------------------------------------------ _split_dir_file

  /** `_split_dir_file`: backslashes become '/', then the directory part
    * (ending in '/' when not empty) and the base name. */
  function SplitDirFile(pathNorm: string): (string, string) {
    var s := ReplaceChar(pathNorm, '\\', '/');
    var base := AfterLast(s, '/');
    (s[..|s| - |base|], base)
  }

  /** The two parts put together give the input with '/' for '\\'; the base
    * has no '/', and a non-empty directory part ends with one. */
  lemma SplitDirFileCorrect(pathNorm: string)
    ensures var (dirs, base) := SplitDirFile(pathNorm);
      && dirs + base == ReplaceChar(pathNorm, '\\', '/')
      && !HasChar(base, '/')
      && (|dirs| > 0 ==> dirs[|dirs| - 1] == '/')
  {
    var s := ReplaceChar(pathNorm, '\\', '/');
    var base := AfterLast(s, '/');
    assert s[..|s| - |base|] + s[|s| - |base|..] == s;
  }

  // ------------------------------------------------------------ rules

  /** A dictionary entry that may be missing, present with None, or present
    * with a value. */
  datatype Field<T> = Missing | Null | Present(value: T)

  /** `d.get(key)`: a missing entry reads as None. */
  function Got<T>(f: Field<T>): Option<T> {
    if f.Present? then Some(f.value) else None
  }

  /** One entry of the rules' `categories` list; a missing list is empty, a
    * missing mode is None. The name keeps whether its key is there, since
    * only `rule.get("name")` forgives a missing one. */
  datatype Rule = Rule(
    name: Field<string>, mode: Option<string>, priority: int,
    requireAll: seq<string>, requireAny: seq<string>, imageTokensAny: seq<string>,
    preferDirsAny: seq<string>, sideViewTokens: seq<string>,
    excludeAny: seq<string>, rejectAny: seq<string>, sampleSensitive: seq<string>)

  function LowerAll(ts: seq<string>): (r: seq<string>)
    ensures |r| == |ts| && forall k :: 0 <= k < |ts| ==> r[k] == Lower(ts[k])
  {
    seq(|ts|, k requires 0 <= k < |ts| => Lower(ts[k]))
  }

  /** `(rule.get("mode") or "dir").lower()`. */
  function Mode(r: Rule): string {
    Lower(if r.mode.Some? && |r.mode.value| > 0 then r.mode.value else "dir")
  }

  /** `exclude_any or reject_any`, lower-cased. */
  function Exclusions(r: Rule): seq<string> {
    LowerAll(if |r.excludeAny| > 0 then r.excludeAny else r.rejectAny)
  }

  /** The lower-cased directory part, file name and whole normalised path. */
  datatype Scopes = Scopes(dirs: string, file: string, full: string)

  function ScopesOf(path: string): Scopes {
    var norm := N.NormalizeText(path);
    var (d, f) := SplitDirFile(norm);
    Scopes(Lower(d), Lower(f), Lower(norm))
  }

  /** The scope the requirements are looked up in: the file name in mode "file",
    * the whole path otherwise. */
  function ScopeOf(r: Rule, sc: Scopes): string {
    if Mode(r) == "file" then sc.file else sc.full
  }

  /** `[t for t in ts if t in a or t in b]`. */
  function Occurring(ts: seq<string>, a: string, b: string): seq<string> {
    if |ts| == 0 then []
    else
      var t := ts[|ts| - 1];
      Occurring(ts[..|ts| - 1], a, b) + (if Contains(a, t) || Contains(b, t) then [t] else [])
  }

  /** The comprehension keeps exactly the tokens that occur, and keeps them
    * all exactly when every token occurs. */
  lemma {:induction false} OccurringExact(ts: seq<string>, a: string, b: string)
    ensures forall t :: t in Occurring(ts, a, b) <==> t in ts && (Contains(a, t) || Contains(b, t))
    ensures |Occurring(ts, a, b)| <= |ts|
    ensures |Occurring(ts, a, b)| == |ts| <==> forall k :: 0 <= k < |ts| ==> Contains(a, ts[k]) || Contains(b, ts[k])
  {
    if |ts| > 0 {
      var init := ts[..|ts| - 1];
      OccurringExact(init, a, b);
      assert ts == init + [ts[|ts| - 1]];
      if forall k :: 0 <= k < |ts| ==> Contains(a, ts[k]) || Contains(b, ts[k]) {
        assert forall k :: 0 <= k < |init| ==> init[k] == ts[k];
      }
    }
  }

  /** A rule that survived the filters, with its hits and score. */
  datatype Detail = Detail(
    index: nat, name: Option<string>, mode: string, priority: int, score: real,
    requireAllHit: seq<string>, requireAnyHit: seq<string>, imageTokensHit: seq<string>,
    preferDirsHit: seq<string>, sideViewHit: seq<string>)

  /** Some exclusion token occurs in the scope. */
  predicate Excluded(r: Rule, sc: Scopes) {
    exists x :: x in Exclusions(r) && Contains(ScopeOf(r, sc), x)
  }

  /** The sample-type preference: +0.5 when a declared rule lists the given
    * type, -0.2 when it does not, nothing without a type or a declaration. */
  function SampleBonus(r: Rule, st: string): real {
    var sens := LowerAll(r.sampleSensitive);
    if |sens| == 0 then 0.0
    else if |st| > 0 && st in LowerAll(sens) then 0.5
    else if |st| > 0 then -0.2
    else 0.0
  }

  /** The score and hit lists of a rule that passed the filters. */
  function Scored(r: Rule, idx: nat, sc: Scopes, st: string, allHit: seq<string>, anyHit: seq<string>): Detail {
    var scope := ScopeOf(r, sc);
    var img := Occurring(LowerAll(r.imageTokensAny), sc.file, sc.dirs);
    var dir := Occurring(LowerAll(r.preferDirsAny), sc.dirs, sc.dirs);
    var side := Occurring(LowerAll(r.sideViewTokens), scope, scope);
    var score := 2.0 * |allHit| as real + |anyHit| as real + |img| as real
      + 0.5 * |dir| as real + 0.2 * |side| as real + SampleBonus(r, st);
    Detail(idx, Got(r.name), Mode(r), r.priority, score, allHit, anyHit, img, dir, side)
  }

  /** One iteration of the rule loop: None when the rule is skipped (an
    * exclusion hit, a missing require_all token, no require_any token). */
  function Assess(r: Rule, idx: nat, sc: Scopes, st: string): (a: Option<Detail>)
    ensures a.Some? ==> a.value.index == idx
  {
    var scope := ScopeOf(r, sc);
    var allHit := Occurring(LowerAll(r.requireAll), scope, scope);
    var anyHit := if |r.requireAny| > 0 then Occurring(LowerAll(r.requireAny), scope, scope) else [];
    if Excluded(r, sc) then None
    else if |r.requireAll| > 0 && |allHit| < |r.requireAll| then None
    else if |r.requireAny| > 0 && |anyHit| == 0 then None
    else Some(Scored(r, idx, sc, st, allHit, anyHit))
  }

  /** The require_all test: some token is not hit exactly when fewer hits
    * than tokens are found. */
  lemma AllHitTest(ts: seq<string>, scope: string)
    ensures (|ts| > 0 && |Occurring(LowerAll(ts), scope, scope)| < |ts|) <==>
      !(forall k :: 0 <= k < |ts| ==> Contains(scope, Lower(ts[k])))
  {
    OccurringExact(LowerAll(ts), scope, scope);
  }

  /** The require_any test: no hit exactly when no token occurs. */
  lemma AnyHitTest(ts: seq<string>, scope: string)
    ensures (|ts| > 0 && |Occurring(LowerAll(ts), scope, scope)| == 0) <==>
      (|ts| > 0 && forall k :: 0 <= k < |ts| ==> !Contains(scope, Lower(ts[k])))
  {
    var lo := LowerAll(ts);
    var hit := Occurring(lo, scope, scope);
    OccurringExact(lo, scope, scope);
    if exists k :: 0 <= k < |ts| && Contains(scope, Lower(ts[k])) {
      var k :| 0 <= k < |ts| && Contains(scope, Lower(ts[k]));
      assert lo[k] in hit;
    }
    if |hit| > 0 {
      assert hit[0] in hit;
    }
  }

  /** A rule survives exactly when no exclusion token occurs in its scope,
    * every require_all token does, and (when there are any) some
    * require_any token does. */
  lemma AssessSurvives(r: Rule, idx: nat, sc: Scopes, st: string)
    ensures var scope := ScopeOf(r, sc);
      Assess(r, idx, sc, st).Some? <==>
        && (forall x :: x in Exclusions(r) ==> !Contains(scope, x))
        && (forall k :: 0 <= k < |r.requireAll| ==> Contains(scope, Lower(r.requireAll[k])))
        && !(|r.requireAny| > 0 && forall k :: 0 <= k < |r.requireAny| ==> !Contains(scope, Lower(r.requireAny[k])))
  {
    var scope := ScopeOf(r, sc);
    AllHitTest(r.requireAll, scope);
    AnyHitTest(r.requireAny, scope);
    var allHit := Occurring(LowerAll(r.requireAll), scope, scope);
    var anyHit := if |r.requireAny| > 0 then Occurring(LowerAll(r.requireAny), scope, scope) else [];
    assert Assess(r, idx, sc, st).Some? <==>
      !Excluded(r, sc) && !(|r.requireAll| > 0 && |allHit| < |r.requireAll|) && !(|r.requireAny| > 0 && |anyHit| == 0);
  }

  /** A surviving rule's detail: its index, name and priority, the hits of
    * each token list (exactly the lower-cased tokens found in the list's
    * scope), and the score, which counts those hits with weights 2, 1, 1,
    * 0.5 and 0.2 and adds the sample-type preference. */
  lemma AssessDetail(r: Rule, idx: nat, sc: Scopes, st: string)
    requires Assess(r, idx, sc, st).Some?
    ensures var d, scope := Assess(r, idx, sc, st).value, ScopeOf(r, sc);
      && d.index == idx && d.name == Got(r.name) && d.priority == r.priority
      && |d.requireAllHit| == |r.requireAll|
      && (forall t :: t in d.requireAnyHit <==> t in LowerAll(r.requireAny) && Contains(scope, t))
      && (forall t :: t in d.imageTokensHit <==> t in LowerAll(r.imageTokensAny) && (Contains(sc.file, t) || Contains(sc.dirs, t)))
      && (forall t :: t in d.preferDirsHit <==> t in LowerAll(r.preferDirsAny) && Contains(sc.dirs, t))
      && (forall t :: t in d.sideViewHit <==> t in LowerAll(r.sideViewTokens) && Contains(scope, t))
      && d.score == 2.0 * |d.requireAllHit| as real + |d.requireAnyHit| as real + |d.imageTokensHit| as real
           + 0.5 * |d.preferDirsHit| as real + 0.2 * |d.sideViewHit| as real + SampleBonus(r, st)
  {
    var scope := ScopeOf(r, sc);
    var all := LowerAll(r.requireAll);
    OccurringExact(all, scope, scope);
    OccurringExact(LowerAll(r.requireAny), scope, scope);
    OccurringExact(LowerAll(r.imageTokensAny), sc.file, sc.dirs);
    OccurringExact(LowerAll(r.preferDirsAny), sc.dirs, sc.dirs);
    OccurringExact(LowerAll(r.sideViewTokens), scope, scope);
  }

  // ------------------------------------------------------------ the best rule

  /** `(a.score, a.priority, -a.index) > (b.score, b.priority, -b.index)`. */
  predicate Outranks(a: Detail, b: Detail) {
    || a.score > b.score
    || (a.score == b.score && a.priority > b.priority)
    || (a.score == b.score && a.priority == b.priority && -(a.index as int) > -(b.index as int))
  }

  lemma OutranksOrder(a: Detail, b: Detail, c: Detail)
    ensures Outranks(a, b) && Outranks(b, c) ==> Outranks(a, c)
    ensures a.index != b.index ==> Outranks(a, b) || Outranks(b, a)
    ensures !(Outranks(a, b) && Outranks(b, a))
  {
  }

  /** The replacement test of the loop. */
  function Choose(best: Option<Detail>, e: Option<Detail>): Option<Detail> {
    if e.Some? && (best.None? || Outranks(e.value, best.value)) then e else best
  }

  /** The running best over the assessments. */
  function Best(es: seq<Option<Detail>>): Option<Detail> {
    if |es| == 0 then None else Choose(Best(es[..|es| - 1]), es[|es| - 1])
  }

  /** Each present assessment carries its own index. */
  predicate Indexed(es: seq<Option<Detail>>) {
    forall i :: 0 <= i < |es| && es[i].Some? ==> es[i].value.index == i
  }

  /** The best is present exactly when some assessment is, is one of them,
    * and outranks every other one. */
  lemma {:induction false} BestCorrect(es: seq<Option<Detail>>)
    requires Indexed(es)
    ensures Best(es).Some? <==> exists i :: 0 <= i < |es| && es[i].Some?
    ensures Best(es).Some? ==> var b := Best(es).value;
      && b.index < |es| && es[b.index] == Best(es)
      && forall j :: 0 <= j < |es| && j != b.index && es[j].Some? ==> Outranks(b, es[j].value)
  {
    if |es| > 0 {
      var n := |es| - 1;
      var init := es[..n];
      assert forall i :: 0 <= i < n ==> init[i] == es[i];
      BestCorrect(init);
      var prev := Best(init);
      if es[n].Some? && prev.Some? {
        var p, e := prev.value, es[n].value;
        OutranksOrder(e, p, e);
        forall j | 0 <= j < |es| && j != Best(es).value.index && es[j].Some?
          ensures Outranks(Best(es).value, es[j].value)
        {
          if j < n && j != p.index {
            OutranksOrder(e, p, es[j].value);
          }
        }
      }
    }
  }

  /** The assessments of the rules, in order. */
  function Assessments(rules: seq<Rule>, sc: Scopes, st: string): (es: seq<Option<Detail>>)
    ensures |es| == |rules| && forall i :: 0 <= i < |rules| ==> es[i] == Assess(rules[i], i, sc, st)
  {
    seq(|rules|, i requires 0 <= i < |rules| => Assess(rules[i], i, sc, st))
  }

  lemma AssessmentsIndexed(rules: seq<Rule>, sc: Scopes, st: string)
    ensures Indexed(Assessments(rules, sc, st))
  {
    var es := Assessments(rules, sc, st);
    forall i | 0 <= i < |es| && es[i].Some? ensures es[i].value.index == i {
      assert es[i] == Assess(rules[i], i, sc, st);
    }
  }

  lemma BestStep(es: seq<Option<Detail>>, i: int, e: Option<Detail>)
    requires 0 <= i < |es| && es[i] == e
    ensures Best(es[..i + 1]) == Choose(Best(es[..i]), e)
  {
    assert es[..i + 1][..i] == es[..i];
  }

  lemma AllOf(es: seq<Option<Detail>>)
    ensures es[..|es|] == es
  {
  }

  /** What `classify` returns: no rule, or the winner's name with its
    * detail; or the `KeyError` of `best[3]["name"]` when the winning rule
    * has no "name" entry. */
  datatype Verdict = NoRuleMatched | Chosen(detail: Detail) | NameKeyError(detail: Detail)

  /** `if not best or best[0] <= 0`: no winner unless its score is positive. */
  function Decide(best: Option<Detail>): Verdict {
    if best.None? || best.value.score <= 0.0 then NoRuleMatched else Chosen(best.value)
  }

  /** Over any indexed assessments: no rule is chosen exactly when every
    * present one scores at most 0; otherwise the chosen one is present,
    * scores above 0 and outranks every other present one. */
  lemma DecideCorrect(es: seq<Option<Detail>>)
    requires Indexed(es)
    ensures Decide(Best(es)) == NoRuleMatched <==>
      forall i :: 0 <= i < |es| && es[i].Some? ==> es[i].value.score <= 0.0
    ensures Decide(Best(es)).Chosen? ==>
      var d := Decide(Best(es)).detail;
      && d.index < |es| && es[d.index] == Some(d) && d.score > 0.0
      && forall j :: 0 <= j < |es| && j != d.index && es[j].Some? ==> Outranks(d, es[j].value)
  {
    BestCorrect(es);
    if Best(es).Some? {
      var b := Best(es).value;
      forall j | 0 <= j < |es| && es[j].Some? ensures es[j].value.score <= b.score {
        if j != b.index {
          assert Outranks(b, es[j].value);
        }
      }
    }
  }

  function OrEmpty(s: Option<string>): string { if s.Some? then s.value else "" }

  /** The outcome of the rule loop for given scopes and lower-cased sample type. */
  function Outcome(rules: seq<Rule>, sc: Scopes, st: string): Verdict {
    Decide(Best(Assessments(rules, sc, st)))
  }

  /** `return best[3]["name"], best[4]`: reading the winner's name raises
    * when its rule has no "name" entry. */
  function NameOfWinner(rules: seq<Rule>, v: Verdict): Verdict {
    if v.Chosen? && v.detail.index < |rules| && rules[v.detail.index].name.Missing? then NameKeyError(v.detail) else v
  }

  /** `classify(path, sample_type, rules)` with the `categories` list given. */
  function Classification(path: string, sampleType: Option<string>, rules: seq<Rule>): Verdict {
    NameOfWinner(rules, Outcome(rules, ScopesOf(path), Lower(OrEmpty(sampleType))))
  }

  /** `classify` raises exactly when the rule loop picks a winner whose rule
    * has no "name" entry; otherwise it returns what the loop decided, and a
    * name given as None comes back as None. */
  lemma ClassificationKeyError(path: string, sampleType: Option<string>, rules: seq<Rule>)
    ensures var o := Outcome(rules, ScopesOf(path), Lower(OrEmpty(sampleType)));
      && (Classification(path, sampleType, rules).NameKeyError? <==>
            o.Chosen? && o.detail.index < |rules| && rules[o.detail.index].name.Missing?)
      && (o.Chosen? ==> o.detail.index < |rules| && o.detail.name == Got(rules[o.detail.index].name))
      && (!Classification(path, sampleType, rules).NameKeyError? ==> Classification(path, sampleType, rules) == o)
  {
    var sc, st := ScopesOf(path), Lower(OrEmpty(sampleType));
    OutcomeCorrect(rules, sc, st);
    var o := Outcome(rules, sc, st);
    if o.Chosen? {
      AssessDetail(rules[o.detail.index], o.detail.index, sc, st);
    }
  }

  /** No rule is chosen exactly when every surviving rule scores at most 0;
    * otherwise the chosen rule survives with a positive score and outranks
    * every other survivor by (score, priority, -index). */
  lemma OutcomeCorrect(rules: seq<Rule>, sc: Scopes, st: string)
    ensures Outcome(rules, sc, st) == NoRuleMatched <==>
      forall i :: 0 <= i < |rules| && Assess(rules[i], i, sc, st).Some? ==> Assess(rules[i], i, sc, st).value.score <= 0.0
    ensures Outcome(rules, sc, st).Chosen? ==>
      var d := Outcome(rules, sc, st).detail;
      && d.index < |rules| && Assess(rules[d.index], d.index, sc, st) == Some(d) && d.score > 0.0
      && forall j :: 0 <= j < |rules| && j != d.index && Assess(rules[j], j, sc, st).Some? ==>
           Outranks(d, Assess(rules[j], j, sc, st).value)
  {
    AssessmentsIndexed(rules, sc, st);
    DecideCorrect(Assessments(rules, sc, st));
  }

  /** The rule loop of `classify`, keeping the running best. */
  method RuleLoop(rules: seq<Rule>, sc: Scopes, st: string) returns (v: Verdict)
    ensures v == Outcome(rules, sc, st)
  {
    ghost var es := Assessments(rules, sc, st);
    var best: Option<Detail> := None;
    var i := 0;
    while i < |rules|
      invariant 0 <= i <= |rules|
      invariant best == Best(es[..i])
    {
      var e := Assess(rules[i], i, sc, st);
      BestStep(es, i, e);
      if e.Some? && (best.None? || Outranks(e.value, best.value)) {
        best := e;
      }
      i := i + 1;
    }
    AllOf(es);
    if best.None? || best.value.score <= 0.0 {
      v := NoRuleMatched;
    } else {
      v := Chosen(best.value);
    }
  }

  /** `classify`: the scopes of the normalised path, then the rule loop. */
  method Classify(path: string, sampleType: Option<string>, rules: seq<Rule>) returns (v: Verdict)
    ensures v == Classification(path, sampleType, rules)
  {
    var norm := N.NormalizeText(path);
    var (dirs, file) := SplitDirFile(norm);
    var sc := Scopes(Lower(dirs), Lower(file), Lower(norm));
    v := RuleLoop(rules, sc, Lower(OrEmpty(sampleType)));
    if v.Chosen? && v.detail.index < |rules| && rules[v.detail.index].name.Missing? {
      v := NameKeyError(v.detail);
    }
  }
}
