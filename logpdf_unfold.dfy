/** Turning depth-axis labels into (y, depth) pairs
  * (`_unfold_pairs_from_tokens` in app/routes_logpdf.py): labels of three or
  * more digits are anchors, two-digit labels are read within the current
  * hundred and roll over to the next hundred when they would step back. */
module LogPdfUnfold {
  import opened Text
  import opened LogPdfTokens
  import opened LogPdfFit

  /** `int(t)` is defined: a non-empty run of ASCII digits. */
  predicate Numeric(t: Token) { |t.text| > 0 && AllDigits(t.text) }

  predicate AllNumeric(ts: seq<Token>) { forall i :: 0 <= i < |ts| ==> Numeric(ts[i]) }

  function Value(t: Token): nat requires Numeric(t) { DigitsValue(t.text) }

  /** Labels of three or more digits are anchors. */
  predicate IsAnchor(t: Token) { |t.text| >= 3 }

  /** The sort key `-y_pdf`: from the top of the page down. */
  function NegY(t: Token): real { -t.yPdf }

  // ------------------------------------------------------------ the scan

  /** The loop state: the current hundred, the last depth, and the pairs so far. */
  datatype Scan = Scan(base: Option<int>, last: Option<real>, pairs: seq<Pair>)

  const Start := Scan(None, None, [])

  /** One label. An anchor sets the hundred and is taken as it stands; a short
    * label before any anchor is skipped; otherwise it is read in the current
    * hundred, and moved up a hundred when that would land more than 30 below
    * the last depth. */
  function Step(s: Scan, t: Token): Scan
    requires Numeric(t)
  {
    var v := Value(t);
    if IsAnchor(t) then Scan(Some(v / 100 * 100), Some(v as real), s.pairs + [Pair(t.yPdf, v as real)])
    else if s.base.None? then s
    else
      var d := (s.base.value + v) as real;
      if s.last.Some? && d < s.last.value - 30.0 then
        var b := s.base.value + 100;
        Scan(Some(b), Some((b + v) as real), s.pairs + [Pair(t.yPdf, (b + v) as real)])
      else Scan(s.base, Some(d), s.pairs + [Pair(t.yPdf, d)])
  }

  /** The state after reading the labels in order. */
  function ScanAll(ts: seq<Token>): Scan
    requires AllNumeric(ts)
  {
    if |ts| == 0 then Start else Step(ScanAll(ts[..|ts| - 1]), ts[|ts| - 1])
  }

  // ------------------------------------------------------------ de-duplication by y

  /** Keeps a pair when it is the first or lies more than 2 from the last kept y. */
  function Dedup(ps: seq<Pair>): (out: seq<Pair>)
    ensures |out| <= |ps|
  {
    if |ps| == 0 then []
    else
      var out := Dedup(ps[..|ps| - 1]);
      var p := ps[|ps| - 1];
      if |out| == 0 || Abs(p.y - out[|out| - 1].y) > 2.0 then out + [p] else out
  }

  /** `_unfold_pairs_from_tokens` as a function of the labels. */
  function UnfoldPairs(ts: seq<Token>): seq<Pair>
    requires AllNumeric(ts)
  {
    SortedNumeric(ts);
    Dedup(ScanAll(SortBy(ts, NegY)).pairs)
  }

  lemma SortedNumeric(ts: seq<Token>)
    requires AllNumeric(ts)
    ensures AllNumeric(SortBy(ts, NegY))
  {
    var s := SortBy(ts, NegY);
    SortByKeepsElements(ts, NegY);
    forall i | 0 <= i < |s| ensures Numeric(s[i]) {
      assert s[i] in multiset(ts);
      var j :| 0 <= j < |ts| && ts[j] == s[i];
    }
  }

  /** `_unfold_pairs_from_tokens`: sort the labels from the top down, scan
    * them, then drop pairs too close in y to the last one kept. */
  method UnfoldPairsFromTokens(ts: seq<Token>) returns (out: seq<Pair>)
    requires AllNumeric(ts)
    ensures out == UnfoldPairs(ts)
  {
    SortedNumeric(ts);
    var items := SortBy(ts, NegY);
    var pairs := ScanLabels(items);
    out := DedupByY(pairs);
  }

  /** The scan loop over the sorted labels. */
  method ScanLabels(items: seq<Token>) returns (pairs: seq<Pair>)
    requires AllNumeric(items)
    ensures pairs == ScanAll(items).pairs
  {
    pairs := [];
    var base: Option<int> := None;
    var last: Option<real> := None;
    var i := 0;
    while i < |items|
      invariant 0 <= i <= |items|
      invariant ScanAll(items[..i]) == Scan(base, last, pairs)
    {
      var t := items[i];
      ScanStep(items, i);
      var v := DigitsValue(t.text);
      if |t.text| >= 3 {
        base := Some(v / 100 * 100);
        last := Some(v as real);
        pairs := pairs + [Pair(t.yPdf, v as real)];
      } else if base.Some? {
        var d := (base.value + v) as real;
        if last.Some? && d < last.value - 30.0 {
          base := Some(base.value + 100);
          d := (base.value + v) as real;
        }
        last := Some(d);
        pairs := pairs + [Pair(t.yPdf, d)];
      }
      i := i + 1;
    }
    assert items[..|items|] == items;
  }

  lemma ScanStep(items: seq<Token>, i: int)
    requires AllNumeric(items) && 0 <= i < |items|
    ensures AllNumeric(items[..i]) && ScanAll(items[..i + 1]) == Step(ScanAll(items[..i]), items[i])
  {
    assert items[..i + 1][..i] == items[..i];
  }

  /** The de-duplication loop: a pair is kept when it is the first or more
    * than 2 from the last kept y. */
  method DedupByY(pairs: seq<Pair>) returns (out: seq<Pair>)
    ensures out == Dedup(pairs)
  {
    out := [];
    var lastY: Option<real> := None;
    var k := 0;
    while k < |pairs|
      invariant 0 <= k <= |pairs|
      invariant out == Dedup(pairs[..k])
      invariant lastY == (if |out| == 0 then None else Some(out[|out| - 1].y))
    {
      var p := pairs[k];
      DedupStep(pairs, k);
      if lastY.None? || Abs(p.y - lastY.value) > 2.0 {
        out := out + [p];
        lastY := Some(p.y);
      }
      k := k + 1;
    }
    assert pairs[..|pairs|] == pairs;
  }

  lemma DedupStep(ps: seq<Pair>, k: int)
    requires 0 <= k < |ps|
    ensures var out := Dedup(ps[..k]);
      Dedup(ps[..k + 1]) == if |out| == 0 || Abs(ps[k].y - out[|out| - 1].y) > 2.0 then out + [ps[k]] else out
  {
    assert ps[..k + 1][..k] == ps[..k];
  }

  // ------------------------------------------------------------ properties of the scan

  /** After an anchor the hundred is a multiple of 100 and the last depth lies
    * within it. */
  predicate InHundred(s: Scan) {
    s.base.Some? ==> s.base.value % 100 == 0 && s.last.Some? && s.base.value as real <= s.last.value < (s.base.value + 100) as real
  }

  lemma ShortValue(t: Token)
    requires Numeric(t) && !IsAnchor(t)
    ensures Value(t) < 100
  {
    DigitsValueBound(t.text);
    assert Pow10(|t.text|) <= 100;
  }

  lemma StepInHundred(s: Scan, t: Token)
    requires InHundred(s) && Numeric(t)
    ensures InHundred(Step(s, t))
  {
    if !IsAnchor(t) {
      ShortValue(t);
    }
  }

  lemma {:induction false} ScanInHundred(ts: seq<Token>)
    requires AllNumeric(ts)
    ensures InHundred(ScanAll(ts))
  {
    if |ts| > 0 {
      ScanInHundred(ts[..|ts| - 1]);
      StepInHundred(ScanAll(ts[..|ts| - 1]), ts[|ts| - 1]);
    }
  }

  /** An anchor is taken at its own value and sets the hundred to its own; a
    * short label keeps its last two digits and is read in the current hundred,
    * moving up exactly one hundred exactly when it would otherwise land more
    * than 30 below the previous depth, so it never lands there; a short label
    * before any anchor adds nothing. */
  lemma StepReading(s: Scan, t: Token)
    requires InHundred(s) && Numeric(t)
    ensures var r := Step(s, t);
      && (IsAnchor(t) ==>
            r.pairs == s.pairs + [Pair(t.yPdf, Value(t) as real)]
            && r.base == Some(Value(t) / 100 * 100) && r.last == Some(Value(t) as real))
      && (!IsAnchor(t) && s.base.None? ==> r == s)
      && (!IsAnchor(t) && s.base.Some? ==>
            exists d: int :: r.pairs == s.pairs + [Pair(t.yPdf, d as real)]
              && d % 100 == Value(t) && d as real >= s.last.value - 30.0
              && s.base.value + Value(t) <= d <= s.base.value + 100 + Value(t)
              && (d == s.base.value + Value(t) <==> (s.base.value + Value(t)) as real >= s.last.value - 30.0)
              && r.base == Some(d - Value(t)) && r.last == Some(d as real))
  {
    if !IsAnchor(t) && s.base.Some? {
      ShortValue(t);
      var b, v := s.base.value, Value(t);
      if ((b + v) as real) < s.last.value - 30.0 {
        assert (b + 100 + v) % 100 == v;
        assert Step(s, t).pairs == s.pairs + [Pair(t.yPdf, (b + 100 + v) as real)];
      } else {
        assert (b + v) % 100 == v;
        assert Step(s, t).pairs == s.pairs + [Pair(t.yPdf, (b + v) as real)];
      }
    }
  }

  /** Short labels alone never produce a pair: without an anchor there is no hundred. */
  lemma {:induction false} NoAnchorNoPairs(ts: seq<Token>)
    requires AllNumeric(ts)
    requires forall i :: 0 <= i < |ts| ==> !IsAnchor(ts[i])
    ensures ScanAll(ts) == Start
  {
    if |ts| > 0 {
      NoAnchorNoPairs(ts[..|ts| - 1]);
    }
  }

  /** Each label adds at most one pair. */
  lemma {:induction false} ScanLength(ts: seq<Token>)
    requires AllNumeric(ts)
    ensures |ScanAll(ts).pairs| <= |ts|
  {
    if |ts| > 0 {
      ScanLength(ts[..|ts| - 1]);
    }
  }

  /** Labels read from the top down give pairs whose y never increases. */
  predicate TopDown(ts: seq<Token>) {
    forall i, j :: 0 <= i < j < |ts| ==> ts[j].yPdf <= ts[i].yPdf
  }

  predicate NonIncreasingY(ps: seq<Pair>) {
    forall i, j :: 0 <= i < j < |ps| ==> ps[j].y <= ps[i].y
  }

  lemma {:induction false} ScanTopDown(ts: seq<Token>)
    requires AllNumeric(ts) && TopDown(ts)
    ensures NonIncreasingY(ScanAll(ts).pairs)
    ensures |ts| > 0 ==> forall k :: 0 <= k < |ScanAll(ts).pairs| ==> ScanAll(ts).pairs[k].y >= ts[|ts| - 1].yPdf
  {
    if |ts| > 0 {
      var init, t := ts[..|ts| - 1], ts[|ts| - 1];
      assert TopDown(init) by {
        forall i, j | 0 <= i < j < |init| ensures init[j].yPdf <= init[i].yPdf {
          assert init[i] == ts[i] && init[j] == ts[j];
        }
      }
      ScanTopDown(init);
      var before := ScanAll(init).pairs;
      if |init| > 0 {
        assert init[|init| - 1] == ts[|ts| - 2];
      }
      assert forall k :: 0 <= k < |before| ==> before[k].y >= t.yPdf;
      var after := ScanAll(ts).pairs;
      assert after == before || after == before + [Pair(t.yPdf, after[|after| - 1].depth)];
    }
  }

  // ------------------------------------------------------------ properties of de-duplication

  /** Consecutive kept pairs are more than 2 apart in y. */
  predicate Spread(ps: seq<Pair>) {
    forall i :: 0 <= i < |ps| - 1 ==> Abs(ps[i + 1].y - ps[i].y) > 2.0
  }

  /** The first pair is always kept, every kept pair comes from the input, and
    * the kept pairs are spread out. */
  lemma {:induction false} DedupSpread(ps: seq<Pair>)
    ensures |ps| > 0 ==> |Dedup(ps)| > 0 && Dedup(ps)[0] == ps[0]
    ensures forall p :: p in Dedup(ps) ==> p in ps
    ensures Spread(Dedup(ps))
  {
    if |ps| > 0 {
      var init := ps[..|ps| - 1];
      DedupSpread(init);
      if |init| > 0 {
        assert init[0] == ps[0];
      }
      var out := Dedup(ps);
      forall i | 0 <= i < |out| - 1 ensures Abs(out[i + 1].y - out[i].y) > 2.0 {
        assert out[i] == Dedup(init)[i];
        if i + 1 < |Dedup(init)| {
          assert out[i + 1] == Dedup(init)[i + 1];
        }
      }
    }
  }

  /** Pairs more than 2 apart and falling down the page: each kept y lies more
    * than 2 below the previous one. */
  predicate Falling(ps: seq<Pair>) {
    forall i :: 0 <= i < |ps| - 1 ==> ps[i + 1].y < ps[i].y - 2.0
  }

  lemma {:induction false} DedupFalling(ps: seq<Pair>)
    requires NonIncreasingY(ps)
    ensures Falling(Dedup(ps))
    ensures |ps| > 0 ==> forall k :: 0 <= k < |Dedup(ps)| ==> Dedup(ps)[k].y >= ps[|ps| - 1].y
  {
    if |ps| > 0 {
      var init, p := ps[..|ps| - 1], ps[|ps| - 1];
      assert NonIncreasingY(init) by {
        forall i, j | 0 <= i < j < |init| ensures init[j].y <= init[i].y {
          assert init[i] == ps[i] && init[j] == ps[j];
        }
      }
      DedupFalling(init);
      var before := Dedup(init);
      if |init| > 0 {
        assert init[|init| - 1] == ps[|ps| - 2];
      }
      assert forall k :: 0 <= k < |before| ==> before[k].y >= p.y;
    }
  }

  /** The pairs come out from the top of the page down, each more than 2 below
    * the one before, and there are at most as many as labels. */
  lemma UnfoldPairsFalling(ts: seq<Token>)
    requires AllNumeric(ts)
    ensures Falling(UnfoldPairs(ts))
    ensures |UnfoldPairs(ts)| <= |ts|
  {
    SortedNumeric(ts);
    var items := SortBy(ts, NegY);
    SortByOrdered(ts, NegY);
    assert TopDown(items) by {
      forall i, j | 0 <= i < j < |items| ensures items[j].yPdf <= items[i].yPdf {
        assert NegY(items[i]) <= NegY(items[j]);
      }
    }
    ScanTopDown(items);
    DedupFalling(ScanAll(items).pairs);
    ScanLength(items);
  }

  // ------------------------------------------------------------ worked examples

  function Label(text: string, y: real): Token { Token(text, 0.0, 0.0, 0.0, y) }

  /** The value of a two-digit string. */
  lemma Value2(s: string)
    requires |s| == 2 && AllDigits(s)
    ensures DigitsValue(s) == DigitValue(s[0]) * 10 + DigitValue(s[1])
  {
    var h := s[..1];
    assert h[..0] == [] && h[0] == s[0];
    assert DigitsValue(h) == DigitValue(s[0]);
  }

  /** The value of a four-digit string. */
  lemma Value4(s: string)
    requires |s| == 4 && AllDigits(s)
    ensures DigitsValue(s) == DigitsValue(s[..2]) * 100 + DigitValue(s[2]) * 10 + DigitValue(s[3])
  {
    assert s[..3][..2] == s[..2];
  }

  lemma Value2Of(s: string, n: nat)
    requires |s| == 2 && AllDigits(s) && DigitValue(s[0]) * 10 + DigitValue(s[1]) == n
    ensures DigitsValue(s) == n
  {
    Value2(s);
  }

  lemma Value4Of(s: string, n: nat)
    requires |s| == 4 && AllDigits(s)
    requires DigitValue(s[0]) * 1000 + DigitValue(s[1]) * 100 + DigitValue(s[2]) * 10 + DigitValue(s[3]) == n
    ensures DigitsValue(s) == n
  {
    Value4(s);
    Value2(s[..2]);
  }

  /** 2800, 20, 40, 2900 from the top down read 2800, 2820, 2840, 2900. */
  lemma ExampleWithinHundred()
    ensures ScanAll([Label("2800", 400.0), Label("20", 380.0), Label("40", 360.0), Label("2900", 340.0)]).pairs
      == [Pair(400.0, 2800.0), Pair(380.0, 2820.0), Pair(360.0, 2840.0), Pair(340.0, 2900.0)]
  {
    var a, b, c, d := Label("2800", 400.0), Label("20", 380.0), Label("40", 360.0), Label("2900", 340.0);
    var s2 := ExampleFirstTwo();
    Value2Of("40", 40);
    var s3 := Scan(Some(2800), Some(2840.0), s2.pairs + [Pair(360.0, 2840.0)]);
    assert Step(s2, c) == s3;
    ScanSnoc([a, b], c);
    assert [a, b] + [c] == [a, b, c];
    Value4Of("2900", 2900);
    assert Step(s3, d).pairs == s3.pairs + [Pair(340.0, 2900.0)];
    ScanSnoc([a, b, c], d);
    assert [a, b, c] + [d] == [a, b, c, d];
  }

  lemma ExampleFirstTwo() returns (s2: Scan)
    ensures s2 == Scan(Some(2800), Some(2820.0), [Pair(400.0, 2800.0), Pair(380.0, 2820.0)])
    ensures ScanAll([Label("2800", 400.0), Label("20", 380.0)]) == s2
  {
    var a, b := Label("2800", 400.0), Label("20", 380.0);
    Value4Of("2800", 2800); Value2Of("20", 20);
    var s1 := Scan(Some(2800), Some(2800.0), [Pair(400.0, 2800.0)]);
    s2 := Scan(Some(2800), Some(2820.0), s1.pairs + [Pair(380.0, 2820.0)]);
    assert Step(Start, a) == s1;
    assert Step(s1, b) == s2;
    ScanSnoc([a], b);
    assert [a] + [b] == [a, b];
  }

  /** 2880, 90, 10 read 2880, 2890, 2910: the 10 rolls over to the next hundred. */
  lemma ExampleRollOver()
    ensures ScanAll([Label("2880", 300.0), Label("90", 290.0), Label("10", 280.0)]).pairs
      == [Pair(300.0, 2880.0), Pair(290.0, 2890.0), Pair(280.0, 2910.0)]
  {
    var a, b, c := Label("2880", 300.0), Label("90", 290.0), Label("10", 280.0);
    Value4Of("2880", 2880); Value2Of("90", 90); Value2Of("10", 10);
    var s1 := Scan(Some(2800), Some(2880.0), [Pair(300.0, 2880.0)]);
    var s2 := Scan(Some(2800), Some(2890.0), s1.pairs + [Pair(290.0, 2890.0)]);
    assert Step(Start, a) == s1;
    assert Step(s1, b) == s2;
    assert Step(s2, c).pairs == s2.pairs + [Pair(280.0, 2910.0)];
    ScanSnoc([a], b);
    assert [a] + [b] == [a, b];
    ScanSnoc([a, b], c);
    assert [a, b] + [c] == [a, b, c];
  }

  lemma ScanSnoc(ts: seq<Token>, t: Token)
    requires AllNumeric(ts) && Numeric(t)
    ensures AllNumeric(ts + [t]) && ScanAll(ts + [t]) == Step(ScanAll(ts), t)
  {
    assert (ts + [t])[..|ts|] == ts;
  }

  /** A short label before the first anchor is dropped. */
  lemma ExampleLeadingShort()
    ensures ScanAll([Label("50", 300.0), Label("1200", 290.0)]).pairs == [Pair(290.0, 1200.0)]
  {
    var ts := [Label("50", 300.0), Label("1200", 290.0)];
    Value2Of("50", 50); Value4Of("1200", 1200);
    assert ts[..1][..0] == [];
  }

  /** Two labels on almost the same row keep only the first. */
  lemma ExampleSameRow()
    ensures Dedup([Pair(300.0, 2800.0), Pair(299.0, 2810.0), Pair(290.0, 2820.0)])
      == [Pair(300.0, 2800.0), Pair(290.0, 2820.0)]
  {
    var ps := [Pair(300.0, 2800.0), Pair(299.0, 2810.0), Pair(290.0, 2820.0)];
    assert ps[..2][..1][..0] == [];
  }
}
