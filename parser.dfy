/** The file-name metadata parser of app/parser.py: the well name, the depth
  * range and the sample type read from one archive path. The sample-type
  * rules are a parameter instead of a file read. */
module Parser {
  import opened Text
  import opened Regex
  import N = Normalizer

  // ------------------------------------------------------------ patterns

  /** `[A-Za-z]{1,4}\d+(?:-\d+){0,3}(?:-[A-Za-z0-9]+)?` */
  const WellCode: Re :=
    Cat(Between(Letter, 1, 4), Cat(Digits, Cat(UpTo(Cat(Lit('-'), Digits), 3), Opt(Cat(Lit('-'), Plus(Alnum))))))

  /** `WELL_RE`: `(?P<well>` the code above `|.+?(?=井))`, the group numbered 1. */
  const WellRe: Re :=
    Group(1, Alt(WellCode, Cat(Cat(AnyChar, Star(AnyChar, false)), Ahead(Lit('井'), true))))

  /** `\.[^.]+$`: a final extension. */
  const ExtRe: Re := Cat(Lit('.'), Cat(Plus(Set([Range('.', '.')], true)), End))

  /** `m|米` under IGNORECASE. */
  const UnitRe: Re := Alt(Either('m', 'M'), Lit('米'))

  /** `-|—|~|to` under IGNORECASE. */
  const RangeSep: Re := Alt(Lit('-'), Alt(Lit('—'), Alt(Lit('~'), Cat(Either('t', 'T'), Either('o', 'O')))))

  /** `(?P<start>\d+(?:\.\d+)?)\s*(?:-|—|~|to)\s*(?P<end>\d+(?:\.\d+)?)\s*(?P<unit>m|米)\b`
    * with the groups start, end and unit numbered 1, 2 and 3. */
  const DepthRangeRe: Re :=
    Cat(Group(1, Number), Cat(Blanks, Cat(RangeSep, Cat(Blanks,
      Cat(Group(2, Number), Cat(Blanks, Cat(Group(3, UnitRe), Boundary)))))))

  /** `(?P<start>\d+(?:\.\d+)?)\s*(?P<unit>m|米)\b`, start and unit numbered 1 and 3. */
  const DepthOneRe: Re := Cat(Group(1, Number), Cat(Blanks, Cat(Group(3, UnitRe), Boundary)))

  /** Both depth patterns capture their numbers in groups that read the text of a number. */
  lemma DepthGroups()
    ensures NumberGroupIn(DepthRangeRe, 1) && NumberGroupIn(DepthRangeRe, 2) && NumberGroupIn(DepthOneRe, 1)
  {
    UnitTailIds();
    RangeTailIds();
    assert NumberGroupIn(Cat(Group(2, Number), Cat(Blanks, Cat(Group(3, UnitRe), Boundary))), 2);
  }

  /** Only the unit group is captured after a number. */
  lemma UnitTailIds()
    ensures Ids(Cat(Blanks, Cat(Group(3, UnitRe), Boundary))) == {3}
  {
    assert Ids(Blanks) == {} && Ids(UnitRe) == {} && Ids(Boundary) == {};
  }

  /** After the start group the range pattern captures only end and unit. */
  lemma RangeTailIds()
    ensures Ids(Cat(Blanks, Cat(RangeSep, Cat(Blanks,
      Cat(Group(2, Number), Cat(Blanks, Cat(Group(3, UnitRe), Boundary))))))) == {2, 3}
  {
    UnitTailIds();
    assert Ids(Blanks) == {} && Ids(RangeSep) == {} && Ids(Number) == {};
  }

  // ------------------------------------------------------------ _units_to_m

  /** `_units_to_m`: only "cm" (in any case) scales the value; no unit, "m",
    * "米", "mm" and every other unit keep it. */
  function UnitsToM(val: real, unit: Option<string>): (m: real)
    ensures unit.Some? && Lower(unit.value) == "cm" ==> m * 100.0 == val
    ensures m != val ==> unit.Some? && Lower(unit.value) == "cm"
    ensures val >= 0.0 ==> m >= 0.0
  {
    if unit.None? || unit.value == "" then val
    else
      var u := Lower(unit.value);
      if u == "m" || u == "米" then val
      else if u == "cm" then val / 100.0
      else if u == "mm" then val
      else val
  }

  // ------------------------------------------------------------ _legacy_well

  /** Segment k holds '井' after position 0 and no later segment does. */
  predicate WellSegmentAt(parts: seq<string>, k: int) {
    0 <= k < |parts| && FindChar(parts[k], '井') > 0 &&
    forall j :: k < j < |parts| ==> FindChar(parts[j], '井') <= 0
  }

  /** The segment the scan of `_legacy_well` stops at, last to first: the
    * first one holding '井' after position 0, or -1 when none does. */
  function WellSegment(parts: seq<string>): (k: int)
    ensures -1 <= k < |parts|
    ensures k >= 0 ==> WellSegmentAt(parts, k)
    ensures k < 0 <==> forall j :: 0 <= j < |parts| ==> FindChar(parts[j], '井') <= 0
  {
    if |parts| == 0 then -1
    else if FindChar(parts[|parts| - 1], '井') > 0 then |parts| - 1
    else
      var k := WellSegment(parts[..|parts| - 1]);
      assert forall j :: 0 <= j < |parts| - 1 ==> parts[..|parts| - 1][j] == parts[j];
      k
  }

  /** The stripped text before '井' in that segment. */
  function SegmentWell(parts: seq<string>): Option<string> {
    var k := WellSegment(parts);
    if k < 0 then None else Some(Strip(parts[k][..FindChar(parts[k], '井')]))
  }

  /** What `_legacy_well` returns. */
  function LegacyWellOf(path: string): Option<string> {
    var s := N.NormalizeText(path);
    var w := SegmentWell(Split(s, '/'));
    if w.Some? then w
    else match Search(WellCode, s)
      case Some((q, h)) => Some(s[q..h.end])
      case None => None
  }

  /** The loop of `_legacy_well` over the segments, last to first. */
  method ScanSegments(parts: seq<string>) returns (k: int)
    ensures k == WellSegment(parts)
  {
    k := |parts|;
    assert parts[..k] == parts;
    while k > 0
      invariant 0 <= k <= |parts|
      invariant WellSegment(parts) == WellSegment(parts[..k])
    {
      if FindChar(parts[k - 1], '井') > 0 {
        assert parts[..k][k - 1] == parts[k - 1];
        return k - 1;
      }
      assert parts[..k][..k - 1] == parts[..k - 1];
      k := k - 1;
    }
    return -1;
  }

  /** `_legacy_well`. */
  method LegacyWell(path: string) returns (w: Option<string>)
    ensures w == LegacyWellOf(path)
  {
    var s := N.NormalizeText(path);
    var parts := Split(s, '/');
    var k := ScanSegments(parts);
    if k >= 0 {
      return Some(Strip(parts[k][..FindChar(parts[k], '井')]));
    }
    var m := Search(WellCode, s);
    if m.Some? {
      return Some(s[m.value.0..m.value.1.end]);
    }
    return None;
  }

  /** Every match of the well-code pattern reads at least one character. */
  lemma WellCodeHits(s: string, q: nat, h: Hit)
    requires q <= |s| && h in Match(WellCode, s, q, map[])
    ensures q < h.end
  {
    var tail := Cat(Digits, Cat(UpTo(Cat(Lit('-'), Digits), 3), Opt(Cat(Lit('-'), Plus(Alnum)))));
    assert WellCode == Cat(Cat(Letter, UpTo(Letter, 3)), tail);
    var firsts := Match(Cat(Letter, UpTo(Letter, 3)), s, q, map[]);
    CatAllMember(tail, s, q, firsts, h);
    var k :| 0 <= k < |firsts| && h in Match(tail, s, firsts[k].end, firsts[k].groups);
    FirstSetHits([Range('A', 'Z'), Range('a', 'z')], false, UpTo(Letter, 3), s, q, map[]);
  }

  /** Without a segment holding '井' after its start, the result is the
    * pattern's match, which is never empty, or None. */
  lemma LegacyWellFallback(path: string)
    requires WellSegment(Split(N.NormalizeText(path), '/')) < 0
    ensures LegacyWellOf(path).Some? <==> Found(WellCode, N.NormalizeText(path))
    ensures LegacyWellOf(path).Some? ==> |LegacyWellOf(path).value| > 0
  {
    var s := N.NormalizeText(path);
    var m := Search(WellCode, s);
    if m.Some? {
      SearchHit(WellCode, s, 0);
      WellCodeHits(s, m.value.0, m.value.1);
    }
  }

  // ------------------------------------------------------------ _legacy_depth_last_segment

  /** `re.findall(r"\d+(?:\.\d+)?", s)`: texts of numbers only. */
  function NumberTexts(s: string): (ns: seq<string>)
    ensures forall k :: 0 <= k < |ns| ==> NumberShape(ns[k])
  {
    FindAllNumbers(s);
    FindAll(Number, s)
  }

  /** The part of a name `_legacy_depth_last_segment` reads numbers from:
    * after depth normalisation, without a final extension, after the last '_'. */
  function LegacySegment(nameOnly: string): string {
    AfterLast(Sub(ExtRe, N.NormalizeForDepth(nameOnly), ""), '_')
  }

  /** The depth pair `_legacy_depth_last_segment` makes of the numbers it
    * found: none gives no depth, one number d gives (d, d), more give the
    * first two in ascending order. */
  function DepthPair(ns: seq<string>): (r: (Option<real>, Option<real>))
    requires forall k :: 0 <= k < |ns| ==> NumberShape(ns[k])
    ensures r.0.Some? <==> r.1.Some?
    ensures r.0.None? <==> |ns| == 0
    ensures |ns| > 0 ==>
      var a, b := NumberValue(ns[0]), NumberValue(ns[if |ns| == 1 then 0 else 1]);
      r == (Some(Min(a, b)), Some(Max(a, b)))
    ensures r.0.Some? ==> 0.0 <= r.0.value <= r.1.value
  {
    if |ns| == 0 then (None, None)
    else if |ns| == 1 then
      var d := NumberValue(ns[0]);
      (Some(d), Some(d))
    else
      var start, end := NumberValue(ns[0]), NumberValue(ns[1]);
      if start > end then (Some(end), Some(start)) else (Some(start), Some(end))
  }

  /** `_legacy_depth_last_segment`. */
  function LegacyDepthLastSegment(nameOnly: string): (Option<real>, Option<real>) {
    DepthPair(NumberTexts(LegacySegment(nameOnly)))
  }

  // ------------------------------------------------------------ _determine_sample_type_by_rules

  /** One entry of the rules' `sample_types` list. */
  datatype SampleTypeEntry = SampleTypeEntry(name: Option<string>, tokens: seq<string>)

  /** The (label, token) pairs of one entry, in order. */
  function PairsOf(e: SampleTypeEntry): (ps: seq<(Option<string>, string)>)
    ensures |ps| == |e.tokens|
    ensures forall j :: 0 <= j < |ps| ==> ps[j] == (e.name, e.tokens[j])
  {
    seq(|e.tokens|, j requires 0 <= j < |e.tokens| => (e.name, e.tokens[j]))
  }

  /** The flattened (label, token) list, entry by entry. */
  function Pairs(types: seq<SampleTypeEntry>): seq<(Option<string>, string)> {
    if |types| == 0 then [] else Pairs(types[..|types| - 1]) + PairsOf(types[|types| - 1])
  }

  /** A pair comes from some entry's label and one of its tokens, and every
    * such combination is a pair. */
  lemma {:induction false} PairsMembers(types: seq<SampleTypeEntry>, p: (Option<string>, string))
    ensures p in Pairs(types) <==>
      exists i, j :: 0 <= i < |types| && 0 <= j < |types[i].tokens| && p == (types[i].name, types[i].tokens[j])
  {
    if |types| > 0 {
      var init, last := types[..|types| - 1], types[|types| - 1];
      PairsMembers(init, p);
      if p in PairsOf(last) {
        var j :| 0 <= j < |PairsOf(last)| && PairsOf(last)[j] == p;
        assert types[|types| - 1].tokens[j] == last.tokens[j];
      }
      if exists i, j :: 0 <= i < |types| && 0 <= j < |types[i].tokens| && p == (types[i].name, types[i].tokens[j]) {
        var i, j :| 0 <= i < |types| && 0 <= j < |types[i].tokens| && p == (types[i].name, types[i].tokens[j]);
        if i < |types| - 1 {
          assert init[i] == types[i];
        } else {
          assert PairsOf(last)[j] == p;
        }
      }
    }
  }

  /** The sort key of `pairs.sort(key=len(token), reverse=True)`. */
  function TokenKey(p: (Option<string>, string)): real { -(|p.1| as real) }

  /** The pairs, longest token first; a stable sort keeps the order of equal lengths. */
  function Ranked(types: seq<SampleTypeEntry>): seq<(Option<string>, string)> {
    SortBy(Pairs(types), TokenKey)
  }

  /** Tokens of equal length keep the order of the rule table. */
  lemma RankedStable(types: seq<SampleTypeEntry>, length: nat)
    ensures var sameLength := KeyIs(TokenKey, -(length as real));
      Filter(Ranked(types), sameLength) == Filter(Pairs(types), sameLength)
  {
    SortByStable(Pairs(types), TokenKey, -(length as real));
  }

  /** The index of the first pair whose lower-cased token occurs in sLow, or -1. */
  function FirstHit(pairs: seq<(Option<string>, string)>, sLow: string): (k: int)
    ensures -1 <= k < |pairs|
    ensures k >= 0 ==> Contains(sLow, Lower(pairs[k].1))
    ensures forall j :: 0 <= j < |pairs| && (k < 0 || j < k) ==> !Contains(sLow, Lower(pairs[j].1))
  {
    if |pairs| == 0 then -1
    else if Contains(sLow, Lower(pairs[0].1)) then 0
    else
      var k := FirstHit(pairs[1..], sLow);
      assert forall j :: 1 <= j < |pairs| ==> pairs[1..][j - 1] == pairs[j];
      if k < 0 then -1 else k + 1
  }

  /** The label the second `_determine_sample_type_by_rules` returns. */
  function SampleTypeOf(s: string, types: seq<SampleTypeEntry>): Option<string> {
    var ps := Ranked(types);
    var k := FirstHit(ps, Lower(s));
    if k < 0 then None else ps[k].0
  }

  /** The second `_determine_sample_type_by_rules` (it shadows the first). */
  method SampleTypeByRules(s: string, types: seq<SampleTypeEntry>) returns (st: Option<string>)
    ensures st == SampleTypeOf(s, types)
  {
    var sLow := Lower(s);
    var pairs: seq<(Option<string>, string)> := [];
    for i := 0 to |types|
      invariant pairs == Pairs(types[..i])
    {
      var item := types[i];
      for j := 0 to |item.tokens|
        invariant pairs == Pairs(types[..i]) + PairsOf(item)[..j]
      {
        pairs := pairs + [(item.name, item.tokens[j])];
      }
      assert PairsOf(item)[..|item.tokens|] == PairsOf(item);
      assert types[..i + 1][..i] == types[..i];
    }
    assert types[..|types|] == types;
    pairs := SortBy(pairs, TokenKey);
    for k := 0 to |pairs|
      invariant forall j :: 0 <= j < k ==> !Contains(sLow, Lower(pairs[j].1))
    {
      if Contains(sLow, Lower(pairs[k].1)) {
        return pairs[k].0;
      }
    }
    return None;
  }

  /** No token is tried before a longer one: the winning token is at least
    * as long as every token that occurs, and there is no winner only when
    * no token occurs. */
  lemma SampleTypeLongest(s: string, types: seq<SampleTypeEntry>)
    ensures var ps := Ranked(types); var k := FirstHit(ps, Lower(s));
      && (k < 0 <==> forall p :: p in Pairs(types) ==> !Contains(Lower(s), Lower(p.1)))
      && (k >= 0 ==> ps[k] in Pairs(types) && SampleTypeOf(s, types) == ps[k].0)
      && (k >= 0 ==> forall p :: p in Pairs(types) && Contains(Lower(s), Lower(p.1)) ==> |p.1| <= |ps[k].1|)
  {
    var ps := Ranked(types);
    var k := FirstHit(ps, Lower(s));
    SortByCorrect(Pairs(types), TokenKey);
    forall p | p in Pairs(types) ensures p in ps {
      assert p in multiset(Pairs(types));
    }
    if k >= 0 {
      assert ps[k] in multiset(ps);
      forall p | p in Pairs(types) && Contains(Lower(s), Lower(p.1)) ensures |p.1| <= |ps[k].1| {
        var j :| 0 <= j < |ps| && ps[j] == p;
        assert !(j < k);
        if k < j {
          assert TokenKey(ps[k]) <= TokenKey(ps[j]);
        }
      }
    } else {
      forall p | p in Pairs(types) ensures !Contains(Lower(s), Lower(p.1)) {
        var j :| 0 <= j < |ps| && ps[j] == p;
      }
    }
  }

  // ------------------------------------------------------------ parse_metadata

  /** The depth given with a unit: the range pattern first, then the single
    * value (whose end is its start). The unit text is the matched one. */
  function UnitDepth(seg: string): (d: Option<(real, real)>)
    ensures d.Some? <==> Found(DepthRangeRe, seg) || Found(DepthOneRe, seg)
    ensures d.Some? ==> d.value.0 >= 0.0 && d.value.1 >= 0.0
    ensures d.Some? && !Found(DepthRangeRe, seg) ==> d.value.0 == d.value.1
  {
    DepthGroups();
    match Search(DepthRangeRe, seg)
    case Some((_, h)) =>
      var unit := Some(GroupText(seg, h, 3));
      Some((UnitsToM(SearchedNumber(DepthRangeRe, seg, 1), unit), UnitsToM(SearchedNumber(DepthRangeRe, seg, 2), unit)))
    case None =>
      match Search(DepthOneRe, seg)
      case Some((_, h)) =>
        var start := UnitsToM(SearchedNumber(DepthOneRe, seg, 1), Some(GroupText(seg, h, 3)));
        Some((start, start))
      case None => None
  }

  /** The well name `parse_metadata` settles on: `_legacy_well`, and when
    * that gives nothing or "", the stripped `WELL_RE` match if any. */
  function WellOf(norm: string): Option<string> {
    var w := LegacyWellOf(norm);
    if w.Some? && w.value != "" then w
    else match Search(WellRe, norm)
      case Some((_, h)) => Some(Strip(GroupText(norm, h, 1)))
      case None => w
  }

  /** The file name the depth is read from: the base name after depth normalisation. */
  function DepthFileName(norm: string): string { AfterLast(N.NormalizeForDepth(norm), '/') }

  /** The part of that file name after its last '_', without a final extension. */
  function LastSegment(fname: string): string { Sub(ExtRe, AfterLast(fname, '_'), "") }

  /** The anomaly notes `parse_metadata` can add. */
  datatype Anomaly = MissingWell | DepthOrderFixed | MissingDepth

  /** The text of each note. */
  function AnomalyText(a: Anomaly): string {
    match a
    case MissingWell => "缺少井号"
    case DepthOrderFixed => "深度顺序已更正"
    case MissingDepth => "缺少深度"
  }

  /** The parsed fields of one path. */
  datatype Metadata = Metadata(
    well: Option<string>, start: Option<real>, end: Option<real>,
    sampleType: Option<string>, anomalies: seq<Anomaly>)

  /** The well-name steps of `parse_metadata`. */
  method SettleWell(norm: string) returns (well: Option<string>)
    ensures well == WellOf(norm)
  {
    well := LegacyWell(norm);
    if well.None? || well.value == "" {
      var mw := Search(WellRe, norm);
      if mw.Some? {
        well := Some(Strip(GroupText(norm, mw.value.1, 1)));
      }
    }
  }

  /** The depth steps of `parse_metadata` on the file name: the unit patterns
    * on its last segment, ordered with a note when swapped, else the legacy
    * reading with a note when it finds nothing. */
  method SettleDepth(fname: string) returns (start: Option<real>, end: Option<real>, notes: seq<Anomaly>)
    ensures start.Some? <==> end.Some?
    ensures start.Some? ==> 0.0 <= start.value <= end.value
    ensures (MissingDepth in notes) <==> start.None?
    ensures MissingWell !in notes && |notes| <= 1
    ensures match UnitDepth(LastSegment(fname))
      case Some((a, b)) =>
        start == Some(Min(a, b)) && end == Some(Max(a, b)) && ((DepthOrderFixed in notes) <==> a > b)
      case None =>
        (start, end) == LegacyDepthLastSegment(fname) && DepthOrderFixed !in notes
  {
    var md := UnitDepth(LastSegment(fname));
    if md.Some? {
      start, end, notes := OrderDepths(md.value.0, md.value.1);
    } else {
      start, end, notes := LegacyDepths(LegacyDepthLastSegment(fname));
    }
  }

  /** The unit-marked pair, swapped and noted when it is out of order. */
  method OrderDepths(a: real, b: real) returns (start: Option<real>, end: Option<real>, notes: seq<Anomaly>)
    ensures start == Some(Min(a, b)) && end == Some(Max(a, b))
    ensures notes == (if a > b then [DepthOrderFixed] else [])
    ensures (DepthOrderFixed in notes <==> a > b) && MissingDepth !in notes && MissingWell !in notes && |notes| <= 1
  {
    notes := [];
    start, end := Some(a), Some(b);
    if a > b {
      start, end := end, start;
      notes := notes + [DepthOrderFixed];
    }
  }

  /** The legacy pair, with a note when it is missing. */
  method LegacyDepths(legacy: (Option<real>, Option<real>)) returns (start: Option<real>, end: Option<real>, notes: seq<Anomaly>)
    ensures (start, end) == legacy
    ensures notes == (if legacy.0.None? || legacy.1.None? then [MissingDepth] else [])
    ensures (MissingDepth in notes <==> start.None? || end.None?) && DepthOrderFixed !in notes && MissingWell !in notes && |notes| <= 1
  {
    notes := [];
    start, end := legacy.0, legacy.1;
    if start.None? || end.None? {
      notes := notes + [MissingDepth];
    }
  }

  /** `parse_metadata` with the sample-type rules given. */
  method ParseMetadata(path: string, types: seq<SampleTypeEntry>) returns (m: Metadata)
    ensures MetadataOk(m, N.NormalizeText(path), DepthFileName(N.NormalizeText(path)), types)
  {
    var norm := N.NormalizeText(path);
    m := ParseNormalized(norm, DepthFileName(norm), types);
  }

  predicate MetadataOk(m: Metadata, norm: string, fname: string, types: seq<SampleTypeEntry>) {
    && m.well == WellOf(norm)
    && m.sampleType == SampleTypeOf(norm, types)
    && ((MissingWell in m.anomalies) <==> (m.well.None? || m.well.value == ""))
    && (m.start.Some? <==> m.end.Some?)
    && (m.start.Some? ==> 0.0 <= m.start.value <= m.end.value)
    && ((MissingDepth in m.anomalies) <==> m.start.None?)
    && (match UnitDepth(LastSegment(fname))
        case Some((a, b)) =>
          m.start == Some(Min(a, b)) && m.end == Some(Max(a, b)) && ((DepthOrderFixed in m.anomalies) <==> a > b)
        case None =>
          (m.start, m.end) == LegacyDepthLastSegment(fname) && DepthOrderFixed !in m.anomalies)
    && |m.anomalies| <= 2
  }

  method ParseNormalized(norm: string, fname: string, types: seq<SampleTypeEntry>) returns (m: Metadata)
    ensures MetadataOk(m, norm, fname, types)
  {
    var well := SettleWell(norm);
    var head: seq<Anomaly> := [];
    if well.None? || well.value == "" {
      head := [MissingWell];
    }
    var sampleType := SampleTypeByRules(norm, types);
    var start, end, notes := SettleDepth(fname);
    var anomalies := head + notes;
    m := Metadata(well, start, end, sampleType, anomalies);
  }
}
