/** The least-squares depth axis of a log-PDF page (app/routes_logpdf.py):
  * `y = a·depth + b` fitted to (y, depth) pairs, and its R² quality measure.
  * Coordinates are exact reals, so the fit is exact. */
module LogPdfFit {

  /** A depth label's PDF y coordinate (bottom-up) and the depth it reads. */
  datatype Pair = Pair(y: real, depth: real)

  /** The fitted axis `y = a·depth + b`. */
  datatype Axis = Axis(a: real, b: real)

  /** `_fit_linear` either returns an axis or raises ValueError("degenerate fit"). */
  datatype Fit = Fitted(axis: Axis) | Degenerate

  /** pdfplumber measures `top` downwards from the page top; PDF y grows upwards. */
  function PdfY(pageH: real, top: real): real { pageH - top }

  /** Converting twice gives the original coordinate back, and higher on the
    * page (smaller top) means larger y. */
  lemma PdfYInverse(pageH: real, top: real, top2: real)
    ensures PdfY(pageH, PdfY(pageH, top)) == top
    ensures top < top2 <==> PdfY(pageH, top) > PdfY(pageH, top2)
  {
  }

  // ------------------------------------------------------------ the five sums

  /** `e ** 2`. */
  function Sq(e: real): real { e * e }

  lemma Square(e: real)
    ensures Sq(e) >= 0.0
    ensures e != 0.0 ==> Sq(e) > 0.0
  {
    if e != 0.0 {
      calc {
        Sq(e);
        e * e;
      >
        0.0;
      }
    } else {
      calc {
        Sq(e);
        e * e;
        0.0;
      }
    }
  }

  /** `y·d` of one pair. */
  function Moment(p: Pair): real { p.y * p.depth }

  /** `n`, `sx = Σd`, `sy = Σy`, `sxx = Σd²` and `sxy = Σy·d` of `_fit_linear`. */
  datatype Sums = Sums(n: real, sd: real, sy: real, sdd: real, syd: real)

  const NoSums := Sums(0.0, 0.0, 0.0, 0.0, 0.0)

  /** The sums after one more pair. */
  function Add(t: Sums, p: Pair): Sums {
    Sums(t.n + 1.0, t.sd + p.depth, t.sy + p.y, t.sdd + Sq(p.depth), t.syd + Moment(p))
  }

  function Totals(ps: seq<Pair>): (t: Sums)
    ensures t.n >= 0.0 && (|ps| > 0 ==> t.n >= 1.0)
  {
    if |ps| == 0 then NoSums else Add(Totals(ps[..|ps| - 1]), ps[|ps| - 1])
  }

  /** `n` is `len(pairs)`. */
  lemma {:induction false} TotalsCount(ps: seq<Pair>)
    ensures Totals(ps).n == |ps| as real
  {
    if |ps| > 0 {
      TotalsCount(ps[..|ps| - 1]);
    }
  }

  lemma TotalsAppend(ps: seq<Pair>, x: Pair)
    ensures Totals(ps + [x]) == Add(Totals(ps), x)
  {
    assert (ps + [x])[..|ps|] == ps;
  }

  /** `denom = n·sxx − sx·sx`, the determinant of the normal equations. */
  function Det(t: Sums): real {
    t.n * t.sdd - t.sd * t.sd
  }

  /** The two normal equations of least squares: the residuals sum to zero
    * and are uncorrelated with depth. */
  predicate Normal(t: Sums, l: Axis) {
    t.sy == l.a * t.sd + t.n * l.b && t.syd == l.a * t.sdd + l.b * t.sd
  }

  predicate OnAxis(p: Pair, l: Axis) { p.y == l.a * p.depth + l.b }

  // ------------------------------------------------------------ the fit

  /** `_fit_linear`: the ordinary least-squares slope and intercept, or the
    * ValueError raised when `denom == 0`. */
  function FitLinear(ps: seq<Pair>): (r: Fit)
    ensures r.Degenerate? <==> Det(Totals(ps)) == 0.0
  {
    var t := Totals(ps);
    if Det(t) == 0.0 then Degenerate
    else
      EmptyDegenerate(ps);
      Fitted(Solve(t))
  }

  /** No pairs at all is a zero determinant. */
  lemma EmptyDegenerate(ps: seq<Pair>)
    ensures Det(Totals(ps)) != 0.0 ==> Totals(ps).n > 0.0
  {
  }

  /** The fitted axis solves the normal equations of the pairs' sums. */
  lemma FitSolvesNormal(ps: seq<Pair>)
    ensures FitLinear(ps).Fitted? ==> Normal(Totals(ps), FitLinear(ps).axis)
  {
    if FitLinear(ps).Fitted? {
      EmptyDegenerate(ps);
      assert FitLinear(ps).axis == Solve(Totals(ps));
    }
  }

  /** `a = (n·sxy − sx·sy) / denom`, `b = (sy − a·sx) / n`. */
  function Solve(t: Sums): (l: Axis)
    requires t.n > 0.0 && Det(t) != 0.0
    ensures Normal(t, l)
  {
    var n, sx, sy, sxx, sxy := t.n, t.sd, t.sy, t.sdd, t.syd;
    var den := Det(t);
    var a := (n * sxy - sx * sy) / den;
    var b := (sy - a * sx) / n;
    assert n * b == sy - a * sx;
    assert a * den == n * sxy - sx * sy;
    assert n * (a * sxx + b * sx) == n * sxy by {
      calc {
        n * (a * sxx + b * sx);
        a * (n * sxx) + (n * b) * sx;
        a * (n * sxx) + (sy - a * sx) * sx;
        a * den + sx * sy;
        n * sxy;
      }
    }
    Axis(a, b)
  }

  /** The normal equations have exactly one solution when the determinant is non-zero. */
  lemma NormalUnique(t: Sums, l: Axis, m: Axis)
    requires t.n > 0.0 && Det(t) != 0.0
    requires Normal(t, l) && Normal(t, m)
    ensures l == m
  {
    var n, sx, sxx := t.n, t.sd, t.sdd;
    var da, db := l.a - m.a, l.b - m.b;
    assert n * db + da * sx == 0.0;
    assert da * sxx + db * sx == 0.0;
    assert da * (n * sxx - sx * sx) == 0.0 by {
      calc {
        da * (n * sxx - sx * sx);
        n * (da * sxx + db * sx) - sx * (n * db + da * sx);
        0.0;
      }
    }
    assert da == 0.0;
    assert n * db == 0.0;
  }

  /** A pair on the axis keeps the axis's normal equations. */
  lemma NormalAdd(t: Sums, p: Pair, l: Axis)
    requires Normal(t, l) && OnAxis(p, l)
    ensures Normal(Add(t, p), l)
  {
    assert Moment(p) == l.a * Sq(p.depth) + l.b * p.depth;
  }

  /** Points lying on an axis satisfy that axis's normal equations. */
  lemma {:induction false} OnAxisNormal(ps: seq<Pair>, l: Axis)
    requires forall k :: 0 <= k < |ps| ==> OnAxis(ps[k], l)
    ensures Normal(Totals(ps), l)
  {
    if |ps| > 0 {
      var init := ps[..|ps| - 1];
      assert forall k :: 0 <= k < |init| ==> init[k] == ps[k];
      OnAxisNormal(init, l);
      NormalAdd(Totals(init), ps[|ps| - 1], l);
    }
  }

  /** Exact data are recovered: points on y = a·d + b with two distinct depths
    * fit to exactly (a, b). */
  lemma FitRecoversAxis(ps: seq<Pair>, l: Axis)
    requires forall k :: 0 <= k < |ps| ==> OnAxis(ps[k], l)
    requires exists i, j :: 0 <= i < j < |ps| && ps[i].depth != ps[j].depth
    ensures FitLinear(ps) == Fitted(l)
  {
    var i, j :| 0 <= i < j < |ps| && ps[i].depth != ps[j].depth;
    DistinctDepthsPositive(ps, i, j);
    OnAxisNormal(ps, l);
    FitSolvesNormal(ps);
    NormalUnique(Totals(ps), l, FitLinear(ps).axis);
  }

  // ------------------------------------------------------------ when the fit degenerates

  /** Σ (d − c)² over the pairs. */
  function SqDist(ps: seq<Pair>, c: real): real {
    if |ps| == 0 then 0.0
    else SqDist(ps[..|ps| - 1], c) + Sq(ps[|ps| - 1].depth - c)
  }

  /** sxx − 2c·sx + n·c², the expanded form of Σ (d − c)². */
  function Expanded(t: Sums, c: real): real {
    t.sdd - 2.0 * c * t.sd + t.n * Sq(c)
  }

  lemma ExpandAdd(t: Sums, p: Pair, c: real)
    ensures Expanded(Add(t, p), c) == Expanded(t, c) + Sq(p.depth - c)
  {
    var d := p.depth;
    assert Sq(d - c) == Sq(d) - 2.0 * c * d + Sq(c);
  }

  lemma {:induction false} SqDistExpand(ps: seq<Pair>, c: real)
    ensures SqDist(ps, c) == Expanded(Totals(ps), c)
  {
    if |ps| > 0 {
      SqDistExpand(ps[..|ps| - 1], c);
      ExpandAdd(Totals(ps[..|ps| - 1]), ps[|ps| - 1], c);
    }
  }

  lemma {:induction false} SqDistAtLeast(ps: seq<Pair>, c: real, i: int)
    requires 0 <= i < |ps|
    ensures SqDist(ps, c) >= Sq(ps[i].depth - c)
  {
    var init := ps[..|ps| - 1];
    Square(ps[|ps| - 1].depth - c);
    if i < |ps| - 1 {
      SqDistAtLeast(init, c, i);
      assert init[i] == ps[i];
    } else {
      SqDistNonNeg(init, c);
    }
  }

  lemma {:induction false} SqDistNonNeg(ps: seq<Pair>, c: real)
    ensures SqDist(ps, c) >= 0.0
  {
    if |ps| > 0 {
      SqDistNonNeg(ps[..|ps| - 1], c);
      Square(ps[|ps| - 1].depth - c);
    }
  }

  /** Adding a pair grows the determinant by its squared distances to the earlier ones. */
  lemma DetAdd(t: Sums, p: Pair)
    ensures Det(Add(t, p)) == Det(t) + Expanded(t, p.depth)
  {
    var n, s, q, c := t.n, t.sd, t.sdd, p.depth;
    calc {
      Det(Add(t, p));
      (n + 1.0) * (q + Sq(c)) - (s + c) * (s + c);
      n * q - s * s + (q - 2.0 * c * s + n * Sq(c));
    }
  }

  lemma DenominatorStep(ps: seq<Pair>, x: Pair)
    ensures Det(Totals(ps + [x])) == Det(Totals(ps)) + SqDist(ps, x.depth)
  {
    TotalsAppend(ps, x);
    DetAdd(Totals(ps), x);
    SqDistExpand(ps, x.depth);
  }

  lemma {:induction false} DenominatorPrefix(ps: seq<Pair>, m: nat)
    requires m <= |ps|
    ensures Det(Totals(ps[..m])) <= Det(Totals(ps))
    decreases |ps| - m
  {
    if m < |ps| {
      DenominatorPrefix(ps, m + 1);
      assert ps[..m + 1] == ps[..m] + [ps[m]];
      DenominatorStep(ps[..m], ps[m]);
      SqDistNonNeg(ps[..m], ps[m].depth);
    } else {
      assert ps[..m] == ps;
    }
  }

  /** The determinant is never negative. */
  lemma DenominatorNonNeg(ps: seq<Pair>)
    ensures Det(Totals(ps)) >= 0.0
  {
    DenominatorPrefix(ps, 0);
    assert ps[..0] == [];
  }

  /** Two distinct depths make the determinant positive. */
  lemma DistinctDepthsPositive(ps: seq<Pair>, i: int, j: int)
    requires 0 <= i < j < |ps| && ps[i].depth != ps[j].depth
    ensures Det(Totals(ps)) > 0.0
  {
    var pre, x := ps[..j], ps[j];
    DenominatorPrefix(ps, j + 1);
    assert ps[..j + 1] == pre + [x];
    DenominatorStep(pre, x);
    DenominatorNonNeg(pre);
    assert pre[i] == ps[i];
    SqDistPositive(pre, x.depth, i);
  }

  lemma SqDistPositive(ps: seq<Pair>, c: real, i: int)
    requires 0 <= i < |ps| && ps[i].depth != c
    ensures SqDist(ps, c) > 0.0
  {
    SqDistAtLeast(ps, c, i);
    Square(ps[i].depth - c);
  }

  /** When every depth is c, the sums are n·c and n·c². */
  lemma {:induction false} SameDepthSums(ps: seq<Pair>, c: real)
    requires forall k :: 0 <= k < |ps| ==> ps[k].depth == c
    ensures Totals(ps).sd == Totals(ps).n * c && Totals(ps).sdd == Totals(ps).n * Sq(c)
  {
    if |ps| > 0 {
      var init := ps[..|ps| - 1];
      assert forall k :: 0 <= k < |init| ==> init[k] == ps[k];
      SameDepthSums(init, c);
      SameDepthAdd(Totals(init), ps[|ps| - 1], c);
    }
  }

  lemma SameDepthAdd(t: Sums, p: Pair, c: real)
    requires t.sd == t.n * c && t.sdd == t.n * Sq(c) && p.depth == c
    ensures Add(t, p).sd == Add(t, p).n * c && Add(t, p).sdd == Add(t, p).n * Sq(c)
  {
  }

  lemma SameDepthDet(t: Sums, c: real)
    requires t.sd == t.n * c && t.sdd == t.n * Sq(c)
    ensures Det(t) == 0.0
  {
    calc {
      Det(t);
      t.n * (t.n * (c * c)) - (t.n * c) * (t.n * c);
      0.0;
    }
  }

  /** `_fit_linear` raises exactly when all depths coincide (or there are no pairs). */
  lemma DegenerateIffOneDepth(ps: seq<Pair>)
    ensures FitLinear(ps).Degenerate? <==> forall i, j :: 0 <= i < j < |ps| ==> ps[i].depth == ps[j].depth
  {
    if forall i, j :: 0 <= i < j < |ps| ==> ps[i].depth == ps[j].depth {
      if |ps| > 0 {
        var c := ps[0].depth;
        forall k | 0 <= k < |ps| ensures ps[k].depth == c {
          if k > 0 { assert ps[0].depth == ps[k].depth; }
        }
        SameDepthSums(ps, c);
        SameDepthDet(Totals(ps), c);
      }
    } else {
      var i, j :| 0 <= i < j < |ps| && ps[i].depth != ps[j].depth;
      DistinctDepthsPositive(ps, i, j);
    }
  }

  // ------------------------------------------------------------ R²

  /** Σ (y − m)². */
  function SpreadY(ps: seq<Pair>, m: real): (r: real)
    ensures r >= 0.0
  {
    if |ps| == 0 then 0.0
    else
      var e := ps[|ps| - 1].y - m;
      Square(e);
      SpreadY(ps[..|ps| - 1], m) + Sq(e)
  }

  /** Σ (y − (a·d + b))². */
  function Residuals(ps: seq<Pair>, l: Axis): (r: real)
    ensures r >= 0.0
  {
    if |ps| == 0 then 0.0
    else
      var p := ps[|ps| - 1];
      var e := p.y - (l.a * p.depth + l.b);
      Square(e);
      Residuals(ps[..|ps| - 1], l) + Sq(e)
  }

  /** The 1e-9 that replaces a zero total sum of squares. */
  const TinyTotal: real := 0.000000001

  /** `_R2`: 1 − SS_res / SS_tot, with 0.0 for no points. */
  function R2(ps: seq<Pair>, l: Axis): (r: real)
    ensures |ps| == 0 ==> r == 0.0
    ensures r <= 1.0
    ensures |ps| > 0 && SpreadY(ps, Totals(ps).sy / |ps| as real) == 0.0 ==> r == 1.0 - Residuals(ps, l) / TinyTotal
  {
    if |ps| == 0 then 0.0
    else
      var tot := SpreadY(ps, Totals(ps).sy / |ps| as real);
      var res := Residuals(ps, l);
      var den := if tot == 0.0 then TinyTotal else tot;
      assert res / den >= 0.0;
      1.0 - res / den
  }

  lemma {:induction false} ResidualsZero(ps: seq<Pair>, l: Axis)
    requires forall k :: 0 <= k < |ps| ==> OnAxis(ps[k], l)
    ensures Residuals(ps, l) == 0.0
  {
    if |ps| > 0 {
      var init := ps[..|ps| - 1];
      assert forall k :: 0 <= k < |init| ==> init[k] == ps[k];
      ResidualsZero(init, l);
      assert OnAxis(ps[|ps| - 1], l);
    }
  }

  /** R² is exactly 1 when every point lies on the axis. */
  lemma R2Perfect(ps: seq<Pair>, l: Axis)
    requires |ps| > 0
    requires forall k :: 0 <= k < |ps| ==> OnAxis(ps[k], l)
    ensures R2(ps, l) == 1.0
  {
    ResidualsZero(ps, l);
  }
}
