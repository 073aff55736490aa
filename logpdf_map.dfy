/** Choosing the depth-axis column of each page and the depth map it gives
  * (`_depth_map_by_text`, the missing pages of `ingest_log_pdf`, and the
  * two-point `calibrate_log_pdf` in app/routes_logpdf.py). */
module LogPdfMap {
  import opened Text
  import opened LogPdfFit
  import opened LogPdfTokens
  import opened LogPdfUnfold

  // ------------------------------------------------------------ x buckets

  /** One entry of the `buckets` dict: a key and the tokens filed under it. */
  datatype Bucket = Bucket(key: int, items: seq<Token>)

  /** `int(round(x0 / 8.0))`, with Python's round-half-to-even. */
  function BucketKey(t: Token): int { RoundHalfEven(t.x0 / 8.0) }

  /** The position of key `k` among the buckets, or `|bs|` when it is new. */
  function KeyIndex(bs: seq<Bucket>, k: int): (i: nat)
    ensures i <= |bs|
    ensures i < |bs| ==> bs[i].key == k
    ensures forall j :: 0 <= j < i ==> bs[j].key != k
  {
    if |bs| == 0 then 0 else if bs[0].key == k then 0 else 1 + KeyIndex(bs[1..], k)
  }

  /** `buckets.setdefault(k, []).append(t)`: an existing key keeps its place
    * (dicts keep insertion order), a new key goes last. */
  function File(bs: seq<Bucket>, t: Token): seq<Bucket> {
    var k := BucketKey(t);
    var i := KeyIndex(bs, k);
    if i < |bs| then bs[i := Bucket(k, bs[i].items + [t])] else bs + [Bucket(k, [t])]
  }

  function Buckets(ts: seq<Token>): seq<Bucket> {
    if |ts| == 0 then [] else File(Buckets(ts[..|ts| - 1]), ts[|ts| - 1])
  }

  /** Keys are distinct, no bucket is empty, and every token sits under its own key. */
  predicate BucketsWellFormed(bs: seq<Bucket>) {
    (forall i, j :: 0 <= i < j < |bs| ==> bs[i].key != bs[j].key)
    && (forall i :: 0 <= i < |bs| ==> |bs[i].items| > 0)
    && (forall i, j :: 0 <= i < |bs| && 0 <= j < |bs[i].items| ==> BucketKey(bs[i].items[j]) == bs[i].key)
  }

  /** All tokens held by the buckets. */
  function BucketBag(bs: seq<Bucket>): multiset<Token> {
    if |bs| == 0 then multiset{} else BucketBag(bs[..|bs| - 1]) + multiset(bs[|bs| - 1].items)
  }

  lemma FileWellFormed(bs: seq<Bucket>, t: Token)
    requires BucketsWellFormed(bs)
    ensures BucketsWellFormed(File(bs, t))
  {
    var k := BucketKey(t);
    var i := KeyIndex(bs, k);
    var r := File(bs, t);
    forall a, b | 0 <= a < |r| && 0 <= b < |r[a].items| ensures BucketKey(r[a].items[b]) == r[a].key {
      if a < |bs| && (a != i || b < |bs[a].items|) {
        assert r[a].items[b] == bs[a].items[b];
      } else {
        assert r[a].items[b] == t;
      }
    }
  }

  lemma {:induction false} BucketBagUpdate(bs: seq<Bucket>, i: int, t: Token)
    requires 0 <= i < |bs|
    ensures BucketBag(bs[i := Bucket(bs[i].key, bs[i].items + [t])]) == BucketBag(bs) + multiset{t}
  {
    var r := bs[i := Bucket(bs[i].key, bs[i].items + [t])];
    var n := |bs| - 1;
    if i == n {
      assert r[..n] == bs[..n];
    } else {
      BucketBagUpdate(bs[..n], i, t);
      assert r[..n] == bs[..n][i := Bucket(bs[i].key, bs[i].items + [t])];
    }
  }

  lemma FileBag(bs: seq<Bucket>, t: Token)
    ensures BucketBag(File(bs, t)) == BucketBag(bs) + multiset{t}
  {
    var i := KeyIndex(bs, BucketKey(t));
    if i < |bs| {
      BucketBagUpdate(bs, i, t);
    } else {
      assert (bs + [Bucket(BucketKey(t), [t])])[..|bs|] == bs;
    }
  }

  lemma {:induction false} BucketsWellFormedAll(ts: seq<Token>)
    ensures BucketsWellFormed(Buckets(ts))
  {
    if |ts| > 0 {
      var init := ts[..|ts| - 1];
      BucketsWellFormedAll(init);
      FileWellFormed(Buckets(init), ts[|ts| - 1]);
    }
  }

  lemma {:induction false} BucketsBagAll(ts: seq<Token>)
    ensures BucketBag(Buckets(ts)) == multiset(ts)
  {
    if |ts| > 0 {
      var init, last := ts[..|ts| - 1], ts[|ts| - 1];
      assert ts == init + [last];
      assert multiset(ts) == multiset(init) + multiset{last};
      assert Buckets(ts) == File(Buckets(init), last);
      BucketsBagAll(init);
      FileBag(Buckets(init), last);
    }
  }

  /** Bucketing files every token exactly once, under its own key, in
    * non-empty buckets with distinct keys. */
  lemma BucketsCorrect(ts: seq<Token>)
    ensures BucketsWellFormed(Buckets(ts))
    ensures BucketBag(Buckets(ts)) == multiset(ts)
  {
    BucketsWellFormedAll(ts);
    BucketsBagAll(ts);
  }

  /** The bucketing loop. */
  method BuildBuckets(ts: seq<Token>) returns (bs: seq<Bucket>)
    ensures bs == Buckets(ts)
  {
    bs := [];
    var n := 0;
    while n < |ts|
      invariant 0 <= n <= |ts|
      invariant bs == Buckets(ts[..n])
    {
      assert ts[..n + 1][..n] == ts[..n];
      var t := ts[n];
      var k := BucketKey(t);
      var i := KeyIndex(bs, k);
      if i < |bs| {
        bs := bs[i := Bucket(k, bs[i].items + [t])];
      } else {
        bs := bs + [Bucket(k, [t])];
      }
      n := n + 1;
    }
    assert ts[..|ts|] == ts;
  }

  // ------------------------------------------------------------ candidate columns

  function SumX(ts: seq<Token>): real {
    if |ts| == 0 then 0.0 else SumX(ts[..|ts| - 1]) + ts[|ts| - 1].x0
  }

  /** The mean x0 of a column. */
  function MeanX(ts: seq<Token>): real requires |ts| > 0 { SumX(ts) / |ts| as real }

  /** A column to try: anchored to a header band, or a plain cluster. */
  datatype Candidate = Candidate(anchored: bool, band: Option<Band>, key: int, items: seq<Token>)

  /** The bucket's mean x0 lies inside the band. */
  predicate InBand(b: Band, bk: Bucket) {
    |bk.items| > 0 && b.x0 <= MeanX(bk.items) <= b.x1
  }

  /** The inner loop for one band, over the buckets in order. */
  function AnchoredFor(b: Band, bs: seq<Bucket>): seq<Candidate> {
    if |bs| == 0 then []
    else
      var rest := AnchoredFor(b, bs[..|bs| - 1]);
      var bk := bs[|bs| - 1];
      if InBand(b, bk) then rest + [Candidate(true, Some(b), bk.key, bk.items)] else rest
  }

  /** The outer loop, band by band. */
  function Anchored(bands: seq<Band>, bs: seq<Bucket>): seq<Candidate> {
    if |bands| == 0 then [] else Anchored(bands[..|bands| - 1], bs) + AnchoredFor(bands[|bands| - 1], bs)
  }

  /** Every non-empty bucket as a cluster. */
  function Clusters(bs: seq<Bucket>): seq<Candidate> {
    if |bs| == 0 then []
    else
      var rest := Clusters(bs[..|bs| - 1]);
      var bk := bs[|bs| - 1];
      if |bk.items| > 0 then rest + [Candidate(false, None, bk.key, bk.items)] else rest
  }

  /** Anchored candidates when there are any, the clusters otherwise. */
  function Candidates(bands: seq<Band>, bs: seq<Bucket>): seq<Candidate> {
    var a := Anchored(bands, bs);
    if |a| > 0 then a else Clusters(bs)
  }

  lemma {:induction false} AnchoredForExact(b: Band, bs: seq<Bucket>)
    ensures forall c :: c in AnchoredFor(b, bs) <==>
      exists bk :: bk in bs && InBand(b, bk) && c == Candidate(true, Some(b), bk.key, bk.items)
  {
    if |bs| > 0 {
      AnchoredForExact(b, bs[..|bs| - 1]);
      assert bs == bs[..|bs| - 1] + [bs[|bs| - 1]];
    }
  }

  /** A candidate is anchored exactly when some band contains the mean x0 of
    * some bucket; it then carries that band and that bucket. */
  lemma {:induction false} AnchoredExact(bands: seq<Band>, bs: seq<Bucket>)
    ensures forall c :: c in Anchored(bands, bs) <==>
      exists b, bk :: b in bands && bk in bs && InBand(b, bk) && c == Candidate(true, Some(b), bk.key, bk.items)
  {
    if |bands| > 0 {
      var init, b := bands[..|bands| - 1], bands[|bands| - 1];
      AnchoredExact(init, bs);
      AnchoredForExact(b, bs);
      assert bands == init + [b];
    }
  }

  lemma {:induction false} ClustersExact(bs: seq<Bucket>)
    ensures forall c :: c in Clusters(bs) <==>
      exists bk :: bk in bs && |bk.items| > 0 && c == Candidate(false, None, bk.key, bk.items)
  {
    if |bs| > 0 {
      ClustersExact(bs[..|bs| - 1]);
      assert bs == bs[..|bs| - 1] + [bs[|bs| - 1]];
    }
  }

  /** Without header bands every non-empty bucket is tried as a cluster. */
  lemma NoBandsClusters(bs: seq<Bucket>)
    ensures Candidates([], bs) == Clusters(bs)
  {
  }

  /** The two candidate loops. */
  method BuildCandidates(bands: seq<Band>, bs: seq<Bucket>) returns (cs: seq<Candidate>)
    ensures cs == Candidates(bands, bs)
  {
    cs := [];
    var bi := 0;
    while bi < |bands|
      invariant 0 <= bi <= |bands|
      invariant cs == Anchored(bands[..bi], bs)
    {
      var b := bands[bi];
      var inner := AnchoredLoop(b, bs);
      assert bands[..bi + 1][..bi] == bands[..bi];
      cs := cs + inner;
      bi := bi + 1;
    }
    assert bands[..|bands|] == bands;
    if |cs| == 0 {
      var j := 0;
      while j < |bs|
        invariant 0 <= j <= |bs|
        invariant cs == Clusters(bs[..j])
      {
        assert bs[..j + 1][..j] == bs[..j];
        if |bs[j].items| > 0 {
          cs := cs + [Candidate(false, None, bs[j].key, bs[j].items)];
        }
        j := j + 1;
      }
      assert bs[..|bs|] == bs;
    }
  }

  method AnchoredLoop(b: Band, bs: seq<Bucket>) returns (cs: seq<Candidate>)
    ensures cs == AnchoredFor(b, bs)
  {
    cs := [];
    var j := 0;
    while j < |bs|
      invariant 0 <= j <= |bs|
      invariant cs == AnchoredFor(b, bs[..j])
    {
      assert bs[..j + 1][..j] == bs[..j];
      var items := bs[j].items;
      if |items| > 0 {
        var xMean := SumX(items) / |items| as real;
        if b.x0 <= xMean && xMean <= b.x1 {
          cs := cs + [Candidate(true, Some(b), bs[j].key, items)];
        }
      }
      j := j + 1;
    }
    assert bs[..|bs|] == bs;
  }

  // ------------------------------------------------------------ fitting and scoring a candidate

  /** The smallest depth of the pairs. */
  function MinDepth(ps: seq<Pair>): (r: real)
    requires |ps| > 0
    ensures forall k :: 0 <= k < |ps| ==> r <= ps[k].depth
    ensures exists k :: 0 <= k < |ps| && r == ps[k].depth
  {
    if |ps| == 1 then ps[0].depth
    else
      var m := MinDepth(ps[..|ps| - 1]);
      assert forall k :: 0 <= k < |ps| - 1 ==> ps[..|ps| - 1][k] == ps[k];
      Min(m, ps[|ps| - 1].depth)
  }

  /** The largest depth of the pairs. */
  function MaxDepth(ps: seq<Pair>): (r: real)
    requires |ps| > 0
    ensures forall k :: 0 <= k < |ps| ==> r >= ps[k].depth
    ensures exists k :: 0 <= k < |ps| && r == ps[k].depth
  {
    if |ps| == 1 then ps[0].depth
    else
      var m := MaxDepth(ps[..|ps| - 1]);
      assert forall k :: 0 <= k < |ps| - 1 ==> ps[..|ps| - 1][k] == ps[k];
      Max(m, ps[|ps| - 1].depth)
  }

  /** The running `best` record. */
  datatype Best = Best(score: real, axis: Axis, dmin: real, dmax: real, anchored: bool,
                       band: Option<Band>, xMean: real, r2: real, span: real)

  /** The quality gate: falling depth axis, a span of at least 60, R² of at least 0.97. */
  predicate PassesGate(l: Axis, span: real, r2: real) {
    l.a < 0.0 && span >= 60.0 && r2 >= 0.97
  }

  /** The score: R², the span capped at 0.35, 0.2 for an anchored column, and
    * up to 0.12 for lying near the band's centre. */
  function Score(anchored: bool, band: Option<Band>, r2: real, span: real, xMean: real, pageW: real): real
    requires pageW > 0.0
  {
    r2 + Min(span / 1000.0, 0.35) + (if anchored then 0.2 else 0.0)
    + (if band.Some? then Max(0.0, 0.12 - Abs(xMean - (band.value.x0 + band.value.x1) / 2.0) / pageW) else 0.0)
  }

  /** A column that can be tried: non-empty, all labels numeric. */
  predicate Triable(c: Candidate) { |c.items| > 0 && AllNumeric(c.items) }

  /** Fitting and gating one candidate; `None` when it is skipped. */
  function Evaluate(c: Candidate, pageW: real): Option<Best>
    requires Triable(c) && pageW > 0.0
  {
    var pairs := UnfoldPairs(c.items);
    if |pairs| < 4 then None
    else match FitLinear(pairs)
      case Degenerate => None
      case Fitted(l) =>
        var dmin, dmax := MinDepth(pairs), MaxDepth(pairs);
        var span := dmax - dmin;
        var r2 := R2(pairs, l);
        var xMean := MeanX(c.items);
        if !PassesGate(l, span, r2) then None
        else Some(Best(Score(c.anchored, c.band, r2, span, xMean, pageW), l, dmin, dmax, c.anchored, c.band, xMean, r2, span))
  }

  /** A kept candidate has at least four pairs, a non-degenerate least-squares
    * fit, passes the gate, and scores between 1.03 and 1.67. */
  lemma EvaluateGate(c: Candidate, pageW: real)
    requires Triable(c) && pageW > 0.0
    requires Evaluate(c, pageW).Some?
    ensures var e := Evaluate(c, pageW).value; var pairs := UnfoldPairs(c.items);
      && |pairs| >= 4
      && FitLinear(pairs) == Fitted(e.axis)
      && Normal(Totals(pairs), e.axis)
      && PassesGate(e.axis, e.span, e.r2)
      && e.span == MaxDepth(pairs) - MinDepth(pairs)
      && e.anchored == c.anchored
      && 1.03 <= e.score <= 1.67
  {
    FitSolvesNormal(UnfoldPairs(c.items));
  }

  /** One step of the running best: a new evaluation replaces it only with a
    * strictly higher score. */
  function Pick(prev: Option<Best>, e: Option<Best>): Option<Best> {
    if e.Some? && (prev.None? || e.value.score > prev.value.score) then e else prev
  }

  /** The running best over a sequence of evaluations. */
  function Running(es: seq<Option<Best>>): Option<Best> {
    if |es| == 0 then None else Pick(Running(es[..|es| - 1]), es[|es| - 1])
  }

  /** The running best is one of the evaluations; no evaluation scores higher;
    * every earlier one scores strictly lower (the earliest maximum wins); and
    * there is a best exactly when some evaluation is present. */
  lemma {:induction false} RunningCorrect(es: seq<Option<Best>>)
    ensures Running(es).Some? <==> exists i :: 0 <= i < |es| && es[i].Some?
    ensures Running(es).Some? ==>
      exists i :: 0 <= i < |es| && es[i] == Running(es)
        && forall j :: 0 <= j < i && es[j].Some? ==> es[j].value.score < Running(es).value.score
    ensures forall j :: 0 <= j < |es| && es[j].Some? ==>
      Running(es).Some? && es[j].value.score <= Running(es).value.score
  {
    if |es| > 0 {
      var init := es[..|es| - 1];
      assert forall i :: 0 <= i < |init| ==> init[i] == es[i];
      RunningCorrect(init);
    }
  }

  /** The evaluations of the candidates, in order. */
  function Evaluations(cs: seq<Candidate>, pageW: real): (es: seq<Option<Best>>)
    requires pageW > 0.0 && forall i :: 0 <= i < |cs| ==> Triable(cs[i])
    ensures |es| == |cs|
  {
    if |cs| == 0 then [] else Evaluations(cs[..|cs| - 1], pageW) + [Evaluate(cs[|cs| - 1], pageW)]
  }

  lemma {:induction false} EvaluationsAt(cs: seq<Candidate>, pageW: real, i: int)
    requires pageW > 0.0 && forall i :: 0 <= i < |cs| ==> Triable(cs[i])
    requires 0 <= i < |cs|
    ensures Evaluations(cs, pageW)[i] == Evaluate(cs[i], pageW)
  {
    if i < |cs| - 1 {
      EvaluationsAt(cs[..|cs| - 1], pageW, i);
    }
  }

  lemma EvaluationsStep(cs: seq<Candidate>, pageW: real, i: int)
    requires pageW > 0.0 && forall i :: 0 <= i < |cs| ==> Triable(cs[i])
    requires 0 <= i < |cs|
    ensures Running(Evaluations(cs[..i + 1], pageW)) == Pick(Running(Evaluations(cs[..i], pageW)), Evaluate(cs[i], pageW))
  {
    assert cs[..i + 1][..i] == cs[..i];
  }

  /** The page's best column. */
  function BestOf(cs: seq<Candidate>, pageW: real): Option<Best>
    requires pageW > 0.0 && forall i :: 0 <= i < |cs| ==> Triable(cs[i])
  {
    Running(Evaluations(cs, pageW))
  }

  /** The best column is the evaluation of some candidate, scores at least as
    * high as every surviving candidate and strictly higher than every earlier
    * one; there is one exactly when some candidate survives. */
  lemma BestOfCorrect(cs: seq<Candidate>, pageW: real)
    requires pageW > 0.0 && forall i :: 0 <= i < |cs| ==> Triable(cs[i])
    ensures BestOf(cs, pageW).Some? <==> exists i :: 0 <= i < |cs| && Evaluate(cs[i], pageW).Some?
    ensures BestOf(cs, pageW).Some? ==>
      exists i :: 0 <= i < |cs| && Evaluate(cs[i], pageW) == BestOf(cs, pageW)
        && forall j :: 0 <= j < i && Evaluate(cs[j], pageW).Some? ==> Evaluate(cs[j], pageW).value.score < BestOf(cs, pageW).value.score
    ensures forall j :: 0 <= j < |cs| && Evaluate(cs[j], pageW).Some? ==>
      BestOf(cs, pageW).Some? && Evaluate(cs[j], pageW).value.score <= BestOf(cs, pageW).value.score
  {
    var es := Evaluations(cs, pageW);
    forall i | 0 <= i < |cs| ensures es[i] == Evaluate(cs[i], pageW) {
      EvaluationsAt(cs, pageW, i);
    }
    RunningCorrect(es);
  }

  /** The scoring loop. */
  method SelectBest(cs: seq<Candidate>, pageW: real) returns (best: Option<Best>)
    requires pageW > 0.0 && forall i :: 0 <= i < |cs| ==> Triable(cs[i])
    ensures best == BestOf(cs, pageW)
  {
    best := None;
    var i := 0;
    while i < |cs|
      invariant 0 <= i <= |cs|
      invariant best == Running(Evaluations(cs[..i], pageW))
    {
      var e := Evaluate(cs[i], pageW);
      EvaluationsStep(cs, pageW, i);
      if e.Some? && (best.None? || e.value.score > best.value.score) {
        best := e;
      }
      i := i + 1;
    }
    assert cs[..|cs|] == cs;
  }

  // ------------------------------------------------------------ every candidate can be tried

  lemma {:induction false} BucketBagHas(bs: seq<Bucket>, i: int, j: int)
    requires 0 <= i < |bs| && 0 <= j < |bs[i].items|
    ensures bs[i].items[j] in BucketBag(bs)
  {
    var n := |bs| - 1;
    if i < n {
      BucketBagHas(bs[..n], i, j);
      assert bs[..n][i] == bs[i];
    } else {
      assert bs[i].items[j] in multiset(bs[i].items);
    }
  }

  /** Buckets of numeric tokens hold numeric tokens, and none is empty. */
  lemma NumericBuckets(ts: seq<Token>)
    requires forall t :: t in ts ==> Numeric(t)
    ensures forall i :: 0 <= i < |Buckets(ts)| ==> |Buckets(ts)[i].items| > 0 && AllNumeric(Buckets(ts)[i].items)
  {
    var bs := Buckets(ts);
    BucketsCorrect(ts);
    forall i, j | 0 <= i < |bs| && 0 <= j < |bs[i].items| ensures Numeric(bs[i].items[j]) {
      BucketBagHas(bs, i, j);
      assert bs[i].items[j] in multiset(ts);
    }
  }

  /** Every candidate built from such buckets can be tried. */
  lemma CandidatesTriable(bands: seq<Band>, bs: seq<Bucket>)
    requires forall i :: 0 <= i < |bs| ==> |bs[i].items| > 0 && AllNumeric(bs[i].items)
    ensures forall i :: 0 <= i < |Candidates(bands, bs)| ==> Triable(Candidates(bands, bs)[i])
  {
    AnchoredExact(bands, bs);
    ClustersExact(bs);
    var cs := Candidates(bands, bs);
    forall i | 0 <= i < |cs| ensures Triable(cs[i]) {
      assert cs[i] in cs;
      var bk :| bk in bs && cs[i].items == bk.items;
    }
  }

  // ------------------------------------------------------------ pages and the depth map

  /** What the text layer of one PDF page provides. */
  datatype Page = Page(chars: seq<Glyph>, width: real, height: real)

  /** One depth-map entry: page index, `y = a * depth + b`, and the depth range
    * of the labels it was fitted on (unit: PDF points). */
  datatype Entry = Entry(page: int, axis: Axis, depthMin: real, depthMax: real)

  predicate PositiveWidths(pages: seq<Page>) {
    forall i :: 0 <= i < |pages| ==> pages[i].width > 0.0
  }

  function DigitTokensOf(p: Page): seq<Token> { Tokens(p.chars, true, p.height, 2.5, 8.0) }

  function PageCandidates(p: Page): seq<Candidate> {
    Candidates(FindBands(p.chars, p.height), Buckets(DigitTokensOf(p)))
  }

  lemma PageCandidatesTriable(p: Page)
    ensures forall i :: 0 <= i < |PageCandidates(p)| ==> Triable(PageCandidates(p)[i])
  {
    DigitTokensAreNumbers(p.chars, p.height, 2.5, 8.0);
    NumericBuckets(DigitTokensOf(p));
    CandidatesTriable(FindBands(p.chars, p.height), Buckets(DigitTokensOf(p)));
  }

  /** The best column of a page; a page without characters is skipped. */
  function PageBest(p: Page): Option<Best>
    requires p.width > 0.0
  {
    if |p.chars| == 0 then None
    else
      PageCandidatesTriable(p);
      BestOf(PageCandidates(p), p.width)
  }

  function EntryOf(i: int, b: Best): Entry { Entry(i, b.axis, b.dmin, b.dmax) }

  /** The best column of every page, in page order. */
  function PageBests(pages: seq<Page>): (r: seq<Option<Best>>)
    requires PositiveWidths(pages)
    ensures |r| == |pages|
  {
    if |pages| == 0 then [] else PageBests(pages[..|pages| - 1]) + [PageBest(pages[|pages| - 1])]
  }

  lemma {:induction false} PageBestsAt(pages: seq<Page>, i: int)
    requires PositiveWidths(pages) && 0 <= i < |pages|
    ensures PageBests(pages)[i] == PageBest(pages[i])
  {
    var init := pages[..|pages| - 1];
    assert PageBests(pages) == PageBests(init) + [PageBest(pages[|pages| - 1])];
    if i < |pages| - 1 {
      assert PositiveWidths(init) by {
        forall k | 0 <= k < |init| ensures init[k].width > 0.0 { assert init[k] == pages[k]; }
      }
      PageBestsAt(init, i);
      assert init[i] == pages[i];
    }
  }

  /** The entries for a sequence of per-page results: one per page that has a
    * best column, in page order. */
  function Entries(rs: seq<Option<Best>>): (dm: seq<Entry>)
    ensures |dm| <= |rs|
  {
    if |rs| == 0 then []
    else
      var n := |rs| - 1;
      var prev := Entries(rs[..n]);
      match rs[n]
      case None => prev
      case Some(b) => prev + [EntryOf(n, b)]
  }

  /** `depth_map` of `_depth_map_by_text`. */
  function DepthMap(pages: seq<Page>): seq<Entry>
    requires PositiveWidths(pages)
  {
    Entries(PageBests(pages))
  }

  /** Entries come in strictly increasing page order, each inside the document. */
  predicate PageOrdered(dm: seq<Entry>, n: int) {
    (forall i :: 0 <= i < |dm| ==> 0 <= dm[i].page < n)
    && (forall i, j :: 0 <= i < j < |dm| ==> dm[i].page < dm[j].page)
  }

  /** Page `p` has an entry in the depth map. */
  predicate Covered(dm: seq<Entry>, p: int) { exists e :: e in dm && e.page == p }

  lemma {:induction false} EntriesOrdered(rs: seq<Option<Best>>)
    ensures PageOrdered(Entries(rs), |rs|)
  {
    if |rs| > 0 {
      EntriesOrdered(rs[..|rs| - 1]);
    }
  }

  lemma {:induction false} EntriesFromResults(rs: seq<Option<Best>>)
    ensures forall e :: e in Entries(rs) ==> 0 <= e.page < |rs| && rs[e.page].Some? && e == EntryOf(e.page, rs[e.page].value)
  {
    if |rs| > 0 {
      var init := rs[..|rs| - 1];
      EntriesFromResults(init);
      assert forall k :: 0 <= k < |init| ==> init[k] == rs[k];
    }
  }

  lemma {:induction false} EntriesCover(rs: seq<Option<Best>>)
    ensures forall p :: 0 <= p < |rs| && rs[p].Some? ==> Covered(Entries(rs), p)
  {
    if |rs| > 0 {
      var n := |rs| - 1;
      var init := rs[..n];
      EntriesCover(init);
      forall p | 0 <= p < |rs| && rs[p].Some? ensures Covered(Entries(rs), p) {
        if p < n {
          assert init[p] == rs[p];
          var e :| e in Entries(init) && e.page == p;
          assert e in Entries(rs);
        } else {
          assert EntryOf(n, rs[n].value) in Entries(rs);
        }
      }
    }
  }

  /** The entries are page-ordered, each one is its page's best column, and
    * every page with a best column has one. */
  lemma EntriesCorrect(rs: seq<Option<Best>>)
    ensures PageOrdered(Entries(rs), |rs|)
    ensures forall e :: e in Entries(rs) ==> 0 <= e.page < |rs| && rs[e.page].Some? && e == EntryOf(e.page, rs[e.page].value)
    ensures forall p :: 0 <= p < |rs| && rs[p].Some? ==> Covered(Entries(rs), p)
  {
    EntriesOrdered(rs);
    EntriesFromResults(rs);
    EntriesCover(rs);
  }

  /** The depth map is page-ordered; a page has an entry exactly when it has a
    * best column, and then the entry is that column's axis and depth range. */
  lemma DepthMapCorrect(pages: seq<Page>)
    requires PositiveWidths(pages)
    ensures PageOrdered(DepthMap(pages), |pages|)
    ensures forall p :: 0 <= p < |pages| ==> (Covered(DepthMap(pages), p) <==> PageBest(pages[p]).Some?)
    ensures forall e :: e in DepthMap(pages) ==>
      0 <= e.page < |pages| && PageBest(pages[e.page]).Some? && e == EntryOf(e.page, PageBest(pages[e.page]).value)
  {
    var rs := PageBests(pages);
    forall i | 0 <= i < |pages| ensures rs[i] == PageBest(pages[i]) {
      PageBestsAt(pages, i);
    }
    EntriesCorrect(rs);
  }

  /** `missing_pages`: the pages below `n` without an entry, ascending. */
  function MissingPages(n: nat, dm: seq<Entry>): (ms: seq<int>)
    ensures |ms| <= n
  {
    if n == 0 then [] else MissingPages(n - 1, dm) + (if Covered(dm, n - 1) then [] else [n - 1])
  }

  lemma {:induction false} MissingPagesExact(n: nat, dm: seq<Entry>)
    ensures forall p :: p in MissingPages(n, dm) <==> 0 <= p < n && !Covered(dm, p)
    ensures forall i, j :: 0 <= i < j < |MissingPages(n, dm)| ==> MissingPages(n, dm)[i] < MissingPages(n, dm)[j]
  {
    if n > 0 {
      MissingPagesExact(n - 1, dm);
      var m := MissingPages(n - 1, dm);
      assert forall i :: 0 <= i < |m| ==> m[i] in m;
    }
  }

  /** A page is reported missing exactly when it has no best column (which
    * includes every page without characters). */
  lemma MissingPagesCorrect(pages: seq<Page>)
    requires PositiveWidths(pages)
    ensures forall p :: p in MissingPages(|pages|, DepthMap(pages)) <==> 0 <= p < |pages| && PageBest(pages[p]).None?
    ensures forall p :: 0 <= p < |pages| && |pages[p].chars| == 0 ==> p in MissingPages(|pages|, DepthMap(pages))
  {
    DepthMapCorrect(pages);
    MissingPagesExact(|pages|, DepthMap(pages));
  }

  /** The candidate columns of one page: the bands, the digit tokens, their
    * buckets. */
  method PageCandidatesByText(p: Page) returns (candidates: seq<Candidate>)
    ensures candidates == PageCandidates(p)
  {
    var bands := FindBandsByChars(p.chars, p.height);
    var digitTokens := CharsToTokens(p.chars, true, p.height, 2.5, 8.0);
    var buckets := BuildBuckets(digitTokens);
    candidates := BuildCandidates(bands, buckets);
  }

  /** The body of the page loop: skip a page without characters, otherwise
    * keep the best-scoring candidate. */
  method PageBestByText(p: Page) returns (best: Option<Best>)
    requires p.width > 0.0
    ensures best == PageBest(p)
  {
    if |p.chars| == 0 {
      return None;
    }
    var candidates := PageCandidatesByText(p);
    PageCandidatesTriable(p);
    best := SelectBest(candidates, p.width);
  }

  lemma EntriesStep(rs: seq<Option<Best>>, i: int)
    requires 0 <= i < |rs|
    ensures Entries(rs[..i + 1]) == Entries(rs[..i]) + (if rs[i].Some? then [EntryOf(i, rs[i].value)] else [])
  {
    assert rs[..i + 1][..i] == rs[..i];
  }

  /** `_depth_map_by_text`: the page loop. */
  method DepthMapByText(pages: seq<Page>) returns (dm: seq<Entry>)
    requires PositiveWidths(pages)
    ensures dm == DepthMap(pages)
  {
    dm := [];
    var i := 0;
    ghost var rs := PageBests(pages);
    while i < |pages|
      invariant 0 <= i <= |pages|
      invariant dm == Entries(rs[..i])
    {
      var best := PageBestByText(pages[i]);
      PageBestsAt(pages, i);
      EntriesStep(rs, i);
      if best.Some? {
        dm := dm + [EntryOf(i, best.value)];
      }
      i := i + 1;
    }
    assert rs[..|pages|] == rs;
  }

  /** The part of `ingest_log_pdf` that follows the parse: the depth map and
    * the pages it does not cover. */
  method Ingest(pages: seq<Page>) returns (dm: seq<Entry>, missing: seq<int>)
    requires PositiveWidths(pages)
    ensures dm == DepthMap(pages)
    ensures forall p :: p in missing <==> 0 <= p < |pages| && PageBest(pages[p]).None?
    ensures forall i, j :: 0 <= i < j < |missing| ==> missing[i] < missing[j]
  {
    dm := DepthMapByText(pages);
    MissingPagesCorrect(pages);
    MissingPagesExact(|pages|, dm);
    missing := MissingPages(|pages|, dm);
  }

  /** Drops one trailing 井. */
  function DropWellSuffix(w: string): string {
    if |w| > 0 && w[|w| - 1] == '井' then w[..|w| - 1] else w
  }

  /** The well name reported by `ingest_log_pdf`: the parsed name (empty when
    * none), stripped, without one trailing 井. */
  function IngestWell(parsed: Option<string>): string {
    DropWellSuffix(Strip(if parsed.Some? then parsed.value else ""))
  }

  /** The result is a prefix of the name, shorter by exactly one character
    * when and only when the name ends in 井, and the name itself otherwise. */
  lemma DropWellSuffixShape(w: string)
    ensures IsPrefix(DropWellSuffix(w), w)
    ensures IsSuffix("井", w) <==> |DropWellSuffix(w)| == |w| - 1
    ensures !IsSuffix("井", w) <==> DropWellSuffix(w) == w
  {
    if |w| > 0 && w[|w| - 1] == '井' {
      assert w[|w| - 1..] == "井";
    } else if |w| > 0 {
      assert w[|w| - 1..] == [w[|w| - 1]];
    }
  }

  // ------------------------------------------------------------ two-point calibration

  datatype CalibrationError = InvalidPayload | DegenerateFit

  datatype Calibrated = Ok(entry: Entry) | Err(error: CalibrationError)

  /** The entry `calibrate_log_pdf` computes: a payload without a PDF id
    * (absent and empty alike), without a page, or with fewer than two pairs is
    * rejected; a fit whose depths are all equal raises; otherwise the
    * least-squares axis and the depth range of the pairs. No quality gate
    * applies. */
  function Calibration(pdfId: string, page: Option<int>, pairs: seq<Pair>): Calibrated {
    if |pdfId| == 0 || page.None? || |pairs| < 2 then Err(InvalidPayload)
    else match FitLinear(pairs)
      case Degenerate => Err(DegenerateFit)
      case Fitted(l) => Ok(Entry(page.value, l, MinDepth(pairs), MaxDepth(pairs)))
  }

  /** Calibration succeeds exactly for a valid payload with two different
    * depths, whatever the slope's sign or the fit's quality; the entry is
    * the least-squares axis for the given page and bounds every depth. */
  lemma CalibrationAccepts(pdfId: string, page: Option<int>, pairs: seq<Pair>)
    ensures Calibration(pdfId, page, pairs) == Err(InvalidPayload) <==> |pdfId| == 0 || page.None? || |pairs| < 2
    ensures Calibration(pdfId, page, pairs).Ok? <==>
      |pdfId| > 0 && page.Some? && |pairs| >= 2 && exists i, j :: 0 <= i < j < |pairs| && pairs[i].depth != pairs[j].depth
    ensures Calibration(pdfId, page, pairs).Ok? ==>
      var e := Calibration(pdfId, page, pairs).entry;
      && e.page == page.value
      && Normal(Totals(pairs), e.axis)
      && (forall k :: 0 <= k < |pairs| ==> e.depthMin <= pairs[k].depth <= e.depthMax)
      && e.depthMin < e.depthMax
  {
    DegenerateIffOneDepth(pairs);
    FitSolvesNormal(pairs);
  }

  /** The axis through two points of different depth. */
  function Through(p: Pair, q: Pair): Axis
    requires p.depth != q.depth
  {
    var a := (q.y - p.y) / (q.depth - p.depth);
    Axis(a, p.y - a * p.depth)
  }

  lemma ThroughBoth(p: Pair, q: Pair)
    requires p.depth != q.depth
    ensures OnAxis(p, Through(p, q)) && OnAxis(q, Through(p, q))
  {
    var a := (q.y - p.y) / (q.depth - p.depth);
    assert a * (q.depth - p.depth) == q.y - p.y;
    assert a * q.depth + (p.y - a * p.depth) == a * (q.depth - p.depth) + p.y;
  }

  /** Two pairs of different depth calibrate to the exact line through both. */
  lemma CalibrationTwoPoint(pdfId: string, page: int, p: Pair, q: Pair)
    requires |pdfId| > 0 && p.depth != q.depth
    ensures Calibration(pdfId, Some(page), [p, q]) ==
      Ok(Entry(page, Through(p, q), Min(p.depth, q.depth), Max(p.depth, q.depth)))
    ensures OnAxis(p, Calibration(pdfId, Some(page), [p, q]).entry.axis)
    ensures OnAxis(q, Calibration(pdfId, Some(page), [p, q]).entry.axis)
  {
    var ps := [p, q];
    ThroughBoth(p, q);
    assert ps[0].depth != ps[1].depth;
    FitRecoversAxis(ps, Through(p, q));
    assert ps[..1] == [p];
  }

  /** The position of the first entry for `page`, or `|es|` when there is none. */
  function PageIndex(es: seq<Entry>, page: int): (i: nat)
    ensures i <= |es|
    ensures i < |es| ==> es[i].page == page
    ensures forall j :: 0 <= j < i ==> es[j].page != page
  {
    if |es| == 0 then 0 else if es[0].page == page then 0 else 1 + PageIndex(es[1..], page)
  }

  /** The first entry for the page is overwritten; otherwise the entry is appended. */
  function Upsert(es: seq<Entry>, e: Entry): seq<Entry> {
    var i := PageIndex(es, e.page);
    if i < |es| then es[i := e] else es + [e]
  }

  function PageKey(e: Entry): real { e.page as real }

  /** The file contents after a calibration: upserted, then sorted by page. */
  function Stored(es: seq<Entry>, e: Entry): seq<Entry> { SortBy(Upsert(es, e), PageKey) }

  /** Upserting adds the new entry, drops at most the first old entry for its
    * page, and keeps every entry for any other page with its multiplicity. */
  lemma UpsertCorrect(es: seq<Entry>, e: Entry)
    ensures e in Upsert(es, e)
    ensures forall x :: x in Upsert(es, e) ==> x == e || x in es
    ensures forall x: Entry :: x.page != e.page ==> multiset(Upsert(es, e))[x] == multiset(es)[x]
    ensures |Upsert(es, e)| == if Covered(es, e.page) then |es| else |es| + 1
  {
    var i := PageIndex(es, e.page);
    if i < |es| {
      assert es[i := e][i] == e;
      assert multiset(es[i := e]) == multiset(es) - multiset{es[i]} + multiset{e};
      assert es[i] in es;
    } else {
      assert !Covered(es, e.page) by {
        forall x | x in es ensures x.page != e.page {
          var k :| 0 <= k < |es| && es[k] == x;
        }
      }
    }
  }

  /** No two entries share a page. */
  predicate DistinctPages(es: seq<Entry>) {
    forall i, j :: 0 <= i < j < |es| ==> es[i].page != es[j].page
  }

  /** On a map with one entry per page, calibrating keeps one entry per page,
    * and the calibrated page's entry is the new one. */
  lemma UpsertDistinct(es: seq<Entry>, e: Entry)
    requires DistinctPages(es)
    ensures DistinctPages(Upsert(es, e))
    ensures forall x :: x in Upsert(es, e) && x.page == e.page ==> x == e
  {
    var i := PageIndex(es, e.page);
    var r := Upsert(es, e);
    forall x | x in r && x.page == e.page ensures x == e {
      var k :| 0 <= k < |r| && r[k] == x;
    }
  }

  /** The stored map is sorted by page and holds exactly the upserted entries. */
  lemma StoredCorrect(es: seq<Entry>, e: Entry)
    ensures SortedBy(Stored(es, e), PageKey)
    ensures multiset(Stored(es, e)) == multiset(Upsert(es, e))
  {
    SortByCorrect(Upsert(es, e), PageKey);
  }

  /** The stored depth map of one PDF (its JSON file). */
  class DepthMapFile {
    var entries: seq<Entry>

    /** The file as read; a missing or unreadable file reads as empty. */
    constructor (initial: seq<Entry>)
      ensures entries == initial
    {
      entries := initial;
    }

    /** `ingest_log_pdf` writes the map it has just built. */
    method Store(dm: seq<Entry>)
      modifies this
      ensures entries == dm
    {
      entries := dm;
    }

    /** `calibrate_log_pdf`: on success the entry is upserted and the file
      * re-sorted by page; on failure the file is left as it was. */
    method Calibrate(pdfId: string, page: Option<int>, pairs: seq<Pair>) returns (r: Calibrated)
      modifies this
      ensures r == Calibration(pdfId, page, pairs)
      ensures r.Ok? ==> entries == Stored(old(entries), r.entry)
      ensures r.Err? ==> entries == old(entries)
    {
      r := Calibration(pdfId, page, pairs);
      if r.Err? {
        return;
      }
      var e := r.entry;
      var existing := entries;
      var i := 0;
      while i < |existing| && existing[i].page != e.page
        invariant 0 <= i <= |existing|
        invariant forall j :: 0 <= j < i ==> existing[j].page != e.page
      {
        i := i + 1;
      }
      assert i == PageIndex(existing, e.page);
      if i < |existing| {
        existing := existing[i := e];
      } else {
        existing := existing + [e];
      }
      entries := SortBy(existing, PageKey);
    }
  }
}
