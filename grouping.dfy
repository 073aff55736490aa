/**
 * Depth grouping for the gallery page (`app/grouping.py`): images of one well
 * are bucketed by depth around fluorescence-scan anchors, and every category
 * column of a segment receives the images that overlap or lie near it.
 *
 * The database session is replaced by the sequence of image rows it would
 * return; the configured granularity and tolerance are parameters.
 */
module Grouping {
  import opened Text

  /** The category columns of the page, in display order. */
  const CatsOrder: seq<string> := ["荧光扫描", "单偏光", "正交光", "三维指纹", "三维立体", "色谱", "轻烃谱图"]
  const Fluorescence: string := "荧光扫描"

  /** The columns of an `Image` row that grouping reads. */
  datatype ImageRow = ImageRow(
    id: int, relPath: string, thumbPath: Option<string>, category: Option<string>,
    sampleType: Option<string>, startDepth: Option<real>, endDepth: Option<real>,
    ndepthCenter: Option<real>, wellName: Option<string>)

  /** `ImgLite`: the light record grouping works on. */
  datatype ImgLite = ImgLite(
    id: int, relPath: string, thumbPath: Option<string>, category: Option<string>,
    sampleType: Option<string>, start: Option<real>, end: Option<real>, center: Option<real>)

  /** One depth segment: its bucket centre, its interval [lo, hi], the anchors offered
      for it (fluorescence only), one image list per category of `CatsOrder`, and the
      per-category counters. */
  datatype Segment = Segment(
    center: real, lo: real, hi: real, anchorOptions: seq<ImgLite>,
    lists: seq<seq<ImgLite>>, counters: seq<int>)

  /** The page payload (segment identifiers and serialised images are left out). */
  datatype Grouped = Grouped(
    well: string, gran: real, tolerance: real, categories: seq<string>, segments: seq<Segment>)

  lemma CatsOrderDistinct()
    ensures NoDuplicates(CatsOrder)
  {
  }

  /** `cat in cat_map` together with the position of that column. */
  function CatIndex(cat: string): (k: int)
    ensures -1 <= k < |CatsOrder|
    ensures k == -1 <==> cat !in CatsOrder
    ensures k >= 0 ==> CatsOrder[k] == cat
  {
    if cat == CatsOrder[0] then 0 else if cat == CatsOrder[1] then 1
    else if cat == CatsOrder[2] then 2 else if cat == CatsOrder[3] then 3
    else if cat == CatsOrder[4] then 4 else if cat == CatsOrder[5] then 5
    else if cat == CatsOrder[6] then 6 else -1
  }

  // ---------------------------------------------------------------- per-image helpers

  /** `_center`: the recorded centre, else the midpoint of a complete interval, else none. */
  function Center(img: ImageRow): (c: Option<real>)
    ensures img.ndepthCenter.Some? ==> c == img.ndepthCenter
    ensures img.ndepthCenter.None? ==> (c.Some? <==> img.startDepth.Some? && img.endDepth.Some?)
    ensures img.ndepthCenter.None? && c.Some? ==>
      c.value - img.startDepth.value == img.endDepth.value - c.value
    ensures img.ndepthCenter.None? && c.Some? ==>
      Min(img.startDepth.value, img.endDepth.value) <= c.value <= Max(img.startDepth.value, img.endDepth.value)
  {
    if img.ndepthCenter.Some? then img.ndepthCenter
    else if img.startDepth.Some? && img.endDepth.Some? then
      Some((img.startDepth.value + img.endDepth.value) / 2.0)
    else None
  }

  /** `_img_lite`. */
  function Lite(img: ImageRow): ImgLite {
    ImgLite(img.id, img.relPath, img.thumbPath, img.category, img.sampleType,
            img.startDepth, img.endDepth, Center(img))
  }

  /** `_valid_depth` (a real number is always finite). */
  predicate ValidDepth(it: ImgLite) {
    it.start.Some? && it.end.Some? && it.center.Some?
  }

  function StartOf(it: ImgLite): real { if it.start.Some? then it.start.value else 0.0 }
  function EndOf(it: ImgLite): real { if it.end.Some? then it.end.value else 0.0 }
  function CenterOf(it: ImgLite): real { if it.center.Some? then it.center.value else 0.0 }

  /** `_bucket`: Python's `round(x / gran) * gran`. */
  function Bucket(x: real, gran: real): real
    requires gran != 0.0
  {
    RoundHalfEven(x / gran) as real * gran
  }

  lemma MulNonNegative(a: real, b: real)
    requires a >= 0.0 && b >= 0.0
    ensures a * b >= 0.0
  {
  }

  /** A product with a factor of at most 1/2 in size is at most half the other factor. */
  lemma HalfBound(d: real, g: real)
    requires -0.5 <= d <= 0.5
    ensures Abs(d * g) <= Abs(g) / 2.0
  {
    if g >= 0.0 {
      MulNonNegative(0.5 - d, g);
      MulNonNegative(0.5 + d, g);
      assert (0.5 - d) * g == 0.5 * g - d * g;
      assert (0.5 + d) * g == 0.5 * g + d * g;
    } else {
      MulNonNegative(0.5 - d, -g);
      MulNonNegative(0.5 + d, -g);
      assert (0.5 - d) * -g == d * g - 0.5 * g;
      assert (0.5 + d) * -g == -0.5 * g - d * g;
    }
  }

  /** A bucket is the multiple of gran nearest to x. */
  lemma BucketNearest(x: real, gran: real)
    requires gran != 0.0
    ensures Abs(Bucket(x, gran) - x) <= Abs(gran) / 2.0
  {
    var q := x / gran;
    var n := RoundHalfEven(q);
    var d := n as real - q;
    assert x == q * gran;
    assert n as real * gran - q * gran == d * gran;
    HalfBound(d, gran);
  }

  lemma MulDiv(a: real, g: real)
    requires g != 0.0
    ensures (a * g) / g == a
  {
  }

  /** Rounding an integer gives it back. */
  lemma RoundInteger(n: int)
    ensures RoundHalfEven(n as real) == n
  {
    assert (n as real).Floor == n;
  }

  /** Bucketing a bucket changes nothing. */
  lemma BucketIdempotent(x: real, gran: real)
    requires gran != 0.0
    ensures Bucket(Bucket(x, gran), gran) == Bucket(x, gran)
  {
    var n := RoundHalfEven(x / gran);
    var y := n as real * gran;
    assert Bucket(x, gran) == y;
    MulDiv(n as real, gran);
    assert y / gran == n as real;
    RoundInteger(n);
    assert RoundHalfEven(y / gran) == n;
  }

  /** `overlap`: the length of the intersection of two intervals, or 0. */
  function Overlap(a: (real, real), b: (real, real)): (r: real)
    ensures r >= 0.0
    ensures r > 0.0 <==> a.0 < a.1 && b.0 < b.1 && a.0 < b.1 && b.0 < a.1
    ensures r > 0.0 ==> r <= a.1 - a.0 && r <= b.1 - b.0
  {
    var lo := Max(a.0, b.0);
    var hi := Min(a.1, b.1);
    Max(0.0, hi - lo)
  }

  /** `it.center or bucket_center`: a centre of 0.0 is falsy in Python and counts as missing. */
  function CenterOr(it: ImgLite, b: real): real {
    if it.center.Some? && it.center.value != 0.0 then it.center.value else b
  }

  /** Distance of an image to a bucket centre, as the matching and sorting code computes it. */
  function Dist(it: ImgLite, b: real): (r: real)
    ensures r >= 0.0
    ensures it.center.Some? && it.center.value != 0.0 ==> r == Abs(it.center.value - b)
    ensures it.center.None? || it.center == Some(0.0) ==> r == 0.0
  {
    Abs(CenterOr(it, b) - b)
  }

  function DistTo(b: real): ImgLite -> real {
    (it: ImgLite) => Dist(it, b)
  }

  // ---------------------------------------------------------------- default well

  predicate Named(w: Option<string>) { w.Some? && |w.value| > 0 }

  /** Number of rows naming the well. */
  function Count(ws: seq<Option<string>>, name: string): nat {
    if |ws| == 0 then 0
    else Count(ws[..|ws| - 1], name) + (if ws[|ws| - 1] == Some(name) then 1 else 0)
  }

  /** A name is counted exactly when some row carries it. */
  lemma {:induction false} CountPositive(ws: seq<Option<string>>, name: string)
    ensures Count(ws, name) > 0 <==> Some(name) in ws
  {
    if |ws| > 0 {
      CountPositive(ws[..|ws| - 1], name);
      assert ws == ws[..|ws| - 1] + [ws[|ws| - 1]];
    }
  }

  /** The keys of the `counts` dictionary, in insertion order. */
  function FirstSeen(ws: seq<Option<string>>): seq<string> {
    if |ws| == 0 then []
    else
      var init := FirstSeen(ws[..|ws| - 1]);
      var w := ws[|ws| - 1];
      if Named(w) && w.value !in init then init + [w.value] else init
  }

  /** The dictionary keys are the non-empty names of the rows, each once. */
  lemma {:induction false} FirstSeenExact(ws: seq<Option<string>>)
    ensures NoDuplicates(FirstSeen(ws))
    ensures forall n :: n in FirstSeen(ws) <==> |n| > 0 && Some(n) in ws
  {
    if |ws| > 0 {
      FirstSeenExact(ws[..|ws| - 1]);
      assert ws == ws[..|ws| - 1] + [ws[|ws| - 1]];
    }
  }

  lemma {:induction false} FirstSeenPrefix(ws: seq<Option<string>>, m: nat)
    requires m <= |ws|
    ensures |FirstSeen(ws[..m])| <= |FirstSeen(ws)|
    ensures FirstSeen(ws)[..|FirstSeen(ws[..m])|] == FirstSeen(ws[..m])
  {
    if m == |ws| {
      assert ws[..m] == ws;
    } else {
      var init := ws[..|ws| - 1];
      FirstSeenPrefix(init, m);
      assert init[..m] == ws[..m];
      var p, q := FirstSeen(init), FirstSeen(ws);
      assert q == p || q == p + [ws[|ws| - 1].value];
      assert q[..|p|] == p;
    }
  }

  /** `max(..., key=count)`: the index of the first greatest count. */
  function FirstMaxIndex(cs: seq<int>): (k: nat)
    requires |cs| > 0
    ensures k < |cs|
    ensures forall j :: 0 <= j < |cs| ==> cs[j] <= cs[k]
    ensures forall j :: 0 <= j < k ==> cs[j] < cs[k]
  {
    if |cs| == 1 then 0
    else
      var k := FirstMaxIndex(cs[..|cs| - 1]);
      assert cs[..|cs| - 1][k] == cs[k];
      if cs[|cs| - 1] > cs[k] then |cs| - 1 else k
  }

  lemma FirstMaxIndexStep(cs: seq<int>, k: int)
    requires 1 <= k < |cs|
    ensures FirstMaxIndex(cs[..k + 1]) ==
      if cs[k] > cs[FirstMaxIndex(cs[..k])] then k else FirstMaxIndex(cs[..k])
  {
    var p := cs[..k + 1];
    assert p[..|p| - 1] == cs[..k] && p[|p| - 1] == cs[k];
    var j := FirstMaxIndex(cs[..k]);
    assert cs[..k][j] == cs[j];
  }

  /** The count of each name. */
  function CountsOf(names: seq<string>, ws: seq<Option<string>>): (cs: seq<int>)
    ensures |cs| == |names| && forall j :: 0 <= j < |names| ==> cs[j] == Count(ws, names[j])
  {
    seq(|names|, j requires 0 <= j < |names| => Count(ws, names[j]))
  }

  function ArgMaxFirst(names: seq<string>, ws: seq<Option<string>>): (k: nat)
    requires |names| > 0
    ensures k < |names|
    ensures forall j :: 0 <= j < |names| ==> Count(ws, names[j]) <= Count(ws, names[k])
    ensures forall j :: 0 <= j < k ==> Count(ws, names[j]) < Count(ws, names[k])
  {
    FirstMaxIndex(CountsOf(names, ws))
  }

  /** `_pick_default_well` over the `well_name` column. */
  function PickDefaultWellOf(ws: seq<Option<string>>): Option<string> {
    var names := FirstSeen(ws);
    if |names| == 0 then None else Some(names[ArgMaxFirst(names, ws)])
  }

  lemma NamedIsSeen(ws: seq<Option<string>>, k: int)
    requires 0 <= k < |ws|
    ensures Named(ws[k]) ==> ws[k].value in FirstSeen(ws)
  {
    FirstSeenExact(ws);
  }

  /** There is no default well exactly when no row names a well. */
  lemma PickDefaultWellNone(ws: seq<Option<string>>)
    ensures PickDefaultWellOf(ws).None? <==> forall k :: 0 <= k < |ws| ==> !Named(ws[k])
    ensures PickDefaultWellOf(ws).Some? ==>
      |PickDefaultWellOf(ws).value| > 0 && Some(PickDefaultWellOf(ws).value) in ws
  {
    var names := FirstSeen(ws);
    FirstSeenExact(ws);
    if |names| == 0 {
      forall k | 0 <= k < |ws| ensures !Named(ws[k]) {
        NamedIsSeen(ws, k);
      }
    } else {
      assert names[ArgMaxFirst(names, ws)] in names;
    }
  }

  /** The default well is named by at least as many rows as any other non-empty name. */
  lemma PickDefaultWellMost(ws: seq<Option<string>>, n: string)
    requires PickDefaultWellOf(ws).Some? && |n| > 0
    ensures Count(ws, n) <= Count(ws, PickDefaultWellOf(ws).value)
  {
    var names := FirstSeen(ws);
    CountPositive(ws, n);
    FirstSeenExact(ws);
    if Count(ws, n) > 0 {
      assert n in names;
      var j :| 0 <= j < |names| && names[j] == n;
    }
  }

  /** Among equally frequent names the default well is the one named first: it occurs no
      later than the first row naming any other name of the same count. */
  lemma PickDefaultWellFirst(ws: seq<Option<string>>, i: int)
    requires PickDefaultWellOf(ws).Some?
    requires 0 <= i < |ws| && Named(ws[i])
    requires Count(ws, ws[i].value) == Count(ws, PickDefaultWellOf(ws).value)
    ensures Some(PickDefaultWellOf(ws).value) in ws[..i + 1]
  {
    var names := FirstSeen(ws);
    var k := ArgMaxFirst(names, ws);
    var n := ws[i].value;
    FirstSeenPrefix(ws, i + 1);
    var p := FirstSeen(ws[..i + 1]);
    FirstSeenExact(ws[..i + 1]);
    assert ws[..i + 1][i] == ws[i];
    assert n in p;
    var j :| 0 <= j < |p| && p[j] == n;
    assert names[j] == n;
    assert k < |p|;
    assert names[k] == p[k];
  }

  lemma CountStep(ws: seq<Option<string>>, i: int)
    requires 0 <= i < |ws|
    ensures forall n :: Count(ws[..i + 1], n) == Count(ws[..i], n) + (if ws[i] == Some(n) then 1 else 0)
    ensures FirstSeen(ws[..i + 1]) ==
      if Named(ws[i]) && ws[i].value !in FirstSeen(ws[..i]) then FirstSeen(ws[..i]) + [ws[i].value] else FirstSeen(ws[..i])
  {
    assert ws[..i + 1][..i] == ws[..i];
  }

  /** The counting loop of `_pick_default_well`: `counts` as a map and its key order. */
  method CountWells(ws: seq<Option<string>>) returns (counts: map<string, nat>, order: seq<string>)
    ensures order == FirstSeen(ws)
    ensures forall n :: n in counts <==> n in order
    ensures forall n :: n in counts ==> counts[n] == Count(ws, n)
  {
    counts := map[];
    order := [];
    for i := 0 to |ws|
      invariant order == FirstSeen(ws[..i])
      invariant forall n :: n in counts <==> n in order
      invariant forall n :: n in counts ==> |n| > 0 && counts[n] == Count(ws[..i], n)
    {
      CountStep(ws, i);
      var w := ws[i];
      if Named(w) {
        if w.value in counts {
          counts := counts[w.value := counts[w.value] + 1];
        } else {
          FirstSeenExact(ws[..i]);
          CountPositive(ws[..i], w.value);
          counts := counts[w.value := 1];
          order := order + [w.value];
        }
      }
    }
    assert ws[..|ws|] == ws;
  }

  /** The counts of the dictionary, in key order. */
  function CountList(order: seq<string>, counts: map<string, nat>): (cs: seq<int>)
    requires forall j :: 0 <= j < |order| ==> order[j] in counts
    ensures |cs| == |order| && forall j :: 0 <= j < |order| ==> cs[j] == counts[order[j]]
  {
    seq(|order|, j requires 0 <= j < |order| => counts[order[j]])
  }

  /** The maximum over `counts.items()` in insertion order: the first entry of greatest count. */
  method FirstMax(order: seq<string>, counts: map<string, nat>) returns (best: nat)
    requires |order| > 0
    requires forall j :: 0 <= j < |order| ==> order[j] in counts
    ensures best == FirstMaxIndex(CountList(order, counts))
  {
    ghost var cs := CountList(order, counts);
    best := 0;
    for k := 1 to |order|
      invariant best == FirstMaxIndex(cs[..k])
    {
      FirstMaxIndexStep(cs, k);
      if counts[order[k]] > counts[order[best]] {
        best := k;
      }
    }
    assert cs[..|order|] == cs;
  }

  /** `_pick_default_well`: count, then take the first entry of greatest count. */
  method PickDefaultWell(ws: seq<Option<string>>) returns (r: Option<string>)
    ensures r == PickDefaultWellOf(ws)
  {
    var counts, order := CountWells(ws);
    if |order| == 0 {
      return None;
    }
    var best := FirstMax(order, counts);
    assert CountList(order, counts) == CountsOf(order, ws);
    r := Some(order[best]);
  }

  // ---------------------------------------------------------------- rows, items, anchors

  predicate Falsy(w: Option<string>) { w.None? || w.value == "" }

  function WellText(w: Option<string>): string { if w.Some? then w.value else "" }

  function WellNames(rows: seq<ImageRow>): (ws: seq<Option<string>>)
    ensures |ws| == |rows| && forall i :: 0 <= i < |rows| ==> ws[i] == rows[i].wellName
  {
    seq(|rows|, i requires 0 <= i < |rows| => rows[i].wellName)
  }

  /** The well the page shows: the requested one, else the default well. */
  function SelectedWell(rows: seq<ImageRow>, well: Option<string>): Option<string> {
    if Falsy(well) then PickDefaultWellOf(WellNames(rows)) else well
  }

  function WellIs(w: string): ImageRow -> bool {
    (r: ImageRow) => r.wellName == Some(w)
  }

  /** The rows of the query `select(Image).where(well_name == well) if well else select(Image)`. */
  function RowsOfWell(rows: seq<ImageRow>, w: Option<string>): (sel: seq<ImageRow>)
    ensures Falsy(w) ==> sel == rows
    ensures !Falsy(w) ==> forall r :: r in sel <==> r in rows && r.wellName == w
  {
    if Falsy(w) then rows
    else
      FilterExact(rows, WellIs(w.value));
      Filter(rows, WellIs(w.value))
  }

  /** Step 2: the light records of the rows with a usable depth, in row order. */
  function ItemsOf(rows: seq<ImageRow>): (items: seq<ImgLite>)
    ensures |items| <= |rows|
    ensures forall it :: it in items ==> ValidDepth(it)
  {
    if |rows| == 0 then []
    else
      var init := ItemsOf(rows[..|rows| - 1]);
      var it := Lite(rows[|rows| - 1]);
      if ValidDepth(it) then init + [it] else init
  }

  /** Every row with a usable depth contributes its light record, and nothing else does. */
  lemma {:induction false} ItemsOfExact(rows: seq<ImageRow>)
    ensures forall r :: r in rows && ValidDepth(Lite(r)) ==> Lite(r) in ItemsOf(rows)
    ensures forall it :: it in ItemsOf(rows) ==> exists k :: 0 <= k < |rows| && it == Lite(rows[k])
  {
    if |rows| > 0 {
      var init := rows[..|rows| - 1];
      ItemsOfExact(init);
      assert rows == init + [rows[|rows| - 1]];
      forall it | it in ItemsOf(rows) ensures exists k :: 0 <= k < |rows| && it == Lite(rows[k]) {
        if it in ItemsOf(init) {
          var k :| 0 <= k < |init| && it == Lite(init[k]);
          assert rows[k] == init[k];
        }
      }
    }
  }

  lemma {:induction false} ItemsOfNone(rows: seq<ImageRow>)
    ensures (forall r :: r in rows ==> !ValidDepth(Lite(r))) ==> ItemsOf(rows) == []
  {
    if |rows| > 0 {
      var init := rows[..|rows| - 1];
      ItemsOfNone(init);
      assert forall r :: r in init ==> r in rows;
    }
  }

  /** The loop building `items`. */
  method CollectItems(rows: seq<ImageRow>) returns (items: seq<ImgLite>)
    ensures items == ItemsOf(rows)
  {
    items := [];
    for i := 0 to |rows|
      invariant items == ItemsOf(rows[..i])
    {
      assert rows[..i + 1][..i] == rows[..i];
      var il := Lite(rows[i]);
      if ValidDepth(il) {
        items := items + [il];
      }
    }
    assert rows[..|rows|] == rows;
  }

  predicate IsFluo(it: ImgLite) { it.category == Some(Fluorescence) }

  /** `fluo`: the fluorescence scans among the items. */
  function Fluo(items: seq<ImgLite>): seq<ImgLite> {
    Filter(items, IsFluo)
  }

  /** Step 3: the fluorescence scans when there are any, else every item. */
  function Anchors(items: seq<ImgLite>): (anchors: seq<ImgLite>)
    ensures forall a :: a in anchors ==> a in items
    ensures |Fluo(items)| > 0 ==> forall a :: a in anchors <==> a in items && IsFluo(a)
    ensures |Fluo(items)| == 0 ==> |anchors| == |items|
  {
    FilterExact(items, IsFluo);
    if |Fluo(items)| > 0 then Fluo(items) else items
  }

  // ---------------------------------------------------------------- buckets

  function KeyOf(a: ImgLite, gran: real): real
    requires gran != 0.0
  {
    Bucket(CenterOf(a), gran)
  }

  /** The anchors of bucket b, in anchor order (`buckets[b]`). */
  function Members(anchors: seq<ImgLite>, b: real, gran: real): seq<ImgLite>
    requires gran != 0.0
  {
    if |anchors| == 0 then []
    else
      var a := anchors[|anchors| - 1];
      Members(anchors[..|anchors| - 1], b, gran) + (if KeyOf(a, gran) == b then [a] else [])
  }

  /** A bucket holds exactly the anchors whose centre rounds to it. */
  lemma {:induction false} MembersExact(anchors: seq<ImgLite>, b: real, gran: real)
    requires gran != 0.0
    ensures forall a :: a in Members(anchors, b, gran) <==> a in anchors && KeyOf(a, gran) == b
  {
    if |anchors| > 0 {
      MembersExact(anchors[..|anchors| - 1], b, gran);
      assert anchors == anchors[..|anchors| - 1] + [anchors[|anchors| - 1]];
    }
  }

  /** The keys of `buckets`, in insertion order. */
  function KeysOf(anchors: seq<ImgLite>, gran: real): seq<real>
    requires gran != 0.0
  {
    if |anchors| == 0 then []
    else
      var init := KeysOf(anchors[..|anchors| - 1], gran);
      var b := KeyOf(anchors[|anchors| - 1], gran);
      if b in init then init else init + [b]
  }

  /** The keys are the non-empty buckets, each once. */
  lemma {:induction false} KeysOfExact(anchors: seq<ImgLite>, gran: real)
    requires gran != 0.0
    ensures NoDuplicates(KeysOf(anchors, gran))
    ensures forall b :: b in KeysOf(anchors, gran) <==> |Members(anchors, b, gran)| > 0
  {
    if |anchors| > 0 {
      KeysOfExact(anchors[..|anchors| - 1], gran);
    }
  }

  /** The `buckets` dictionary after bucketing a run of anchors. */
  function BucketMap(anchors: seq<ImgLite>, gran: real): map<real, seq<ImgLite>>
    requires gran != 0.0
  {
    map b | b in KeysOf(anchors, gran) :: Members(anchors, b, gran)
  }

  /** `m.setdefault(b, []).append(a)` on a dictionary value. */
  function SetDefaultAppend(m: map<real, seq<ImgLite>>, b: real, a: ImgLite): map<real, seq<ImgLite>> {
    m[b := (if b in m then m[b] else []) + [a]]
  }

  /** One more anchor: its bucket is appended to the keys if new, and the anchor to its bucket. */
  lemma BucketStep(anchors: seq<ImgLite>, gran: real, i: int)
    requires gran != 0.0 && 0 <= i < |anchors|
    ensures KeysOf(anchors[..i + 1], gran) ==
      if KeyOf(anchors[i], gran) in KeysOf(anchors[..i], gran) then KeysOf(anchors[..i], gran)
      else KeysOf(anchors[..i], gran) + [KeyOf(anchors[i], gran)]
    ensures BucketMap(anchors[..i + 1], gran) == SetDefaultAppend(BucketMap(anchors[..i], gran), KeyOf(anchors[i], gran), anchors[i])
  {
    var p, q := anchors[..i], anchors[..i + 1];
    assert q[..i] == p;
    var a, b := anchors[i], KeyOf(anchors[i], gran);
    var m0, m1 := BucketMap(p, gran), BucketMap(q, gran);
    var r := SetDefaultAppend(m0, b, a);
    assert KeysOf(q, gran) == if b in KeysOf(p, gran) then KeysOf(p, gran) else KeysOf(p, gran) + [b];
    forall c | c in m1
      ensures c in r && m1[c] == r[c]
    {
      assert Members(q, c, gran) == Members(p, c, gran) + (if b == c then [a] else []);
      if c == b && b !in m0 {
        KeysOfMissing(p, b, gran);
      }
    }
    assert m1 == r;
  }

  /** A key that was never inserted has no members. */
  lemma KeysOfMissing(anchors: seq<ImgLite>, b: real, gran: real)
    requires gran != 0.0
    ensures b !in KeysOf(anchors, gran) ==> Members(anchors, b, gran) == []
  {
    KeysOfExact(anchors, gran);
  }

  /** Step 4: the bucketing loop, `buckets.setdefault(b, []).append(a)`. */
  method BucketAnchors(anchors: seq<ImgLite>, gran: real) returns (keys: seq<real>, buckets: map<real, seq<ImgLite>>)
    requires gran != 0.0
    ensures keys == KeysOf(anchors, gran)
    ensures buckets == BucketMap(anchors, gran)
  {
    keys := [];
    buckets := map[];
    for i := 0 to |anchors|
      invariant keys == KeysOf(anchors[..i], gran)
      invariant buckets == BucketMap(anchors[..i], gran)
    {
      BucketStep(anchors, gran, i);
      var a := anchors[i];
      var b := Bucket(CenterOf(a), gran);
      assert b in buckets <==> b in keys;
      if b !in buckets {
        keys := keys + [b];
      }
      buckets := SetDefaultAppend(buckets, b, a);
    }
    assert anchors[..|anchors|] == anchors;
  }

  function RealId(x: real): real { x }

  /** `sorted(buckets.keys())`. */
  function SortedKeys(anchors: seq<ImgLite>, gran: real): seq<real>
    requires gran != 0.0
  {
    SortBy(KeysOf(anchors, gran), RealId)
  }

  lemma {:induction false} DistinctCountsOnce(s: seq<real>)
    requires NoDuplicates(s)
    ensures forall x :: multiset(s)[x] <= 1
  {
    if |s| > 0 {
      var init := s[..|s| - 1];
      DistinctCountsOnce(init);
      assert s == init + [s[|s| - 1]];
      assert s[|s| - 1] !in init;
    }
  }

  lemma RepeatCountsTwice(s: seq<real>, i: int, j: int)
    requires 0 <= i < j < |s|
    ensures s[i] == s[j] ==> multiset(s)[s[i]] >= 2
  {
    assert s == s[..i] + [s[i]] + s[i + 1..j] + [s[j]] + s[j + 1..];
  }

  /** The bucket centres come out strictly ascending, and they are exactly the buckets of
      the anchors. */
  lemma SortedKeysAscending(anchors: seq<ImgLite>, gran: real)
    requires gran != 0.0
    ensures forall i, j :: 0 <= i < j < |SortedKeys(anchors, gran)| ==>
      SortedKeys(anchors, gran)[i] < SortedKeys(anchors, gran)[j]
    ensures forall a :: a in anchors ==> KeyOf(a, gran) in SortedKeys(anchors, gran)
    ensures forall b :: b in SortedKeys(anchors, gran) ==> |Members(anchors, b, gran)| > 0
  {
    var keys := KeysOf(anchors, gran);
    var ks := SortedKeys(anchors, gran);
    KeysOfExact(anchors, gran);
    forall a | a in anchors ensures |Members(anchors, KeyOf(a, gran), gran)| > 0 {
      MembersExact(anchors, KeyOf(a, gran), gran);
    }
    SortByCorrect(keys, RealId);
    DistinctCountsOnce(keys);
    forall i, j | 0 <= i < j < |ks| ensures ks[i] < ks[j] {
      RepeatCountsTwice(ks, i, j);
      assert RealId(ks[i]) <= RealId(ks[j]);
    }
    forall b ensures b in ks <==> b in keys {
      assert b in ks <==> b in multiset(ks);
      assert b in keys <==> b in multiset(keys);
    }
  }

  // ---------------------------------------------------------------- one segment

  /** `min(a.start for a in anchor_list)` (0.0 stands in for the empty minimum, which a
      bucket never has). */
  function MinStart(s: seq<ImgLite>): (m: real)
    ensures forall k :: 0 <= k < |s| ==> m <= StartOf(s[k])
    ensures |s| > 0 ==> exists k :: 0 <= k < |s| && m == StartOf(s[k])
  {
    if |s| == 0 then 0.0
    else if |s| == 1 then StartOf(s[0])
    else
      var m := MinStart(s[..|s| - 1]);
      assert forall k :: 0 <= k < |s| - 1 ==> s[..|s| - 1][k] == s[k];
      Min(m, StartOf(s[|s| - 1]))
  }

  /** `max(a.end for a in anchor_list)`. */
  function MaxEnd(s: seq<ImgLite>): (m: real)
    ensures forall k :: 0 <= k < |s| ==> EndOf(s[k]) <= m
    ensures |s| > 0 ==> exists k :: 0 <= k < |s| && m == EndOf(s[k])
  {
    if |s| == 0 then 0.0
    else if |s| == 1 then EndOf(s[0])
    else
      var m := MaxEnd(s[..|s| - 1]);
      assert forall k :: 0 <= k < |s| - 1 ==> s[..|s| - 1][k] == s[k];
      Max(m, EndOf(s[|s| - 1]))
  }

  /** `tol_dyn`. */
  function TolDyn(tolGlobal: real, lo: real, hi: real): (t: real)
    ensures t >= tolGlobal && t >= (hi - lo) / 2.0
    ensures t == tolGlobal || t == (hi - lo) / 2.0
  {
    Max(tolGlobal, (hi - lo) / 2.0)
  }

  /** The matching test of the `cat_map` loop: the image interval overlaps the widened
      segment with positive length, or its centre is within the tolerance. */
  predicate Matching(it: ImgLite, lo: real, hi: real, tol: real, b: real) {
    Overlap((lo - tol, hi + tol), (StartOf(it), EndOf(it))) > 0.0 || Dist(it, b) <= tol
  }

  /** `cat_map[cat]` after the matching loop. */
  function Matches(items: seq<ImgLite>, cat: string, lo: real, hi: real, tol: real, b: real): seq<ImgLite> {
    if |items| == 0 then []
    else
      var it := items[|items| - 1];
      Matches(items[..|items| - 1], cat, lo, hi, tol, b)
        + (if it.category == Some(cat) && Matching(it, lo, hi, tol, b) then [it] else [])
  }

  /** `[x for x in items if x.category == cat]`. */
  function OfCategory(items: seq<ImgLite>, cat: string): seq<ImgLite> {
    if |items| == 0 then []
    else
      var it := items[|items| - 1];
      OfCategory(items[..|items| - 1], cat) + (if it.category == Some(cat) then [it] else [])
  }

  /** A column after matching holds exactly the matching images of its category. */
  lemma {:induction false} MatchesExact(items: seq<ImgLite>, cat: string, lo: real, hi: real, tol: real, b: real)
    ensures forall it :: it in Matches(items, cat, lo, hi, tol, b) <==>
      it in items && it.category == Some(cat) && Matching(it, lo, hi, tol, b)
  {
    if |items| > 0 {
      MatchesExact(items[..|items| - 1], cat, lo, hi, tol, b);
      assert items == items[..|items| - 1] + [items[|items| - 1]];
    }
  }

  lemma {:induction false} OfCategoryExact(items: seq<ImgLite>, cat: string)
    ensures forall it :: it in OfCategory(items, cat) <==> it in items && it.category == Some(cat)
  {
    if |items| > 0 {
      OfCategoryExact(items[..|items| - 1], cat);
      assert items == items[..|items| - 1] + [items[|items| - 1]];
    }
  }

  /** `min(candidates, key=distance)`: the first candidate of least distance. */
  function Nearest(cands: seq<ImgLite>, b: real): (k: nat)
    requires |cands| > 0
    ensures k < |cands|
    ensures forall j :: 0 <= j < |cands| ==> Dist(cands[k], b) <= Dist(cands[j], b)
    ensures forall j :: 0 <= j < k ==> Dist(cands[j], b) > Dist(cands[k], b)
  {
    if |cands| == 1 then 0
    else
      var k := Nearest(cands[..|cands| - 1], b);
      assert cands[..|cands| - 1][k] == cands[k];
      if Dist(cands[|cands| - 1], b) < Dist(cands[k], b) then |cands| - 1 else k
  }

  /** The fallback of an empty column: the nearest image of the category, if within 3·gran. */
  function Fallback(items: seq<ImgLite>, cat: string, b: real, gran: real): (f: seq<ImgLite>)
    ensures |f| <= 1
    ensures |f| == 1 ==> f[0] in items && f[0].category == Some(cat) && Dist(f[0], b) <= 3.0 * gran
    ensures |f| == 1 ==> forall it :: it in items && it.category == Some(cat) ==> Dist(f[0], b) <= Dist(it, b)
    ensures |f| == 0 ==> forall it :: it in items && it.category == Some(cat) ==> Dist(it, b) > 3.0 * gran
  {
    var cands := OfCategory(items, cat);
    OfCategoryExact(items, cat);
    if |cands| == 0 then []
    else
      var k := Nearest(cands, b);
      assert forall it :: it in cands ==> exists j :: 0 <= j < |cands| && cands[j] == it;
      if Dist(cands[k], b) <= 3.0 * gran then [cands[k]] else []
  }

  /** A column before sorting: the matches, or the fallback when nothing matched. */
  function Chosen(items: seq<ImgLite>, cat: string, lo: real, hi: real, tol: real, b: real, gran: real): seq<ImgLite> {
    var m := Matches(items, cat, lo, hi, tol, b);
    if |m| > 0 then m else Fallback(items, cat, b, gran)
  }

  /** The interval of a segment. */
  function Bounds(fluo: bool, anchorList: seq<ImgLite>, b: real, gran: real): (real, real) {
    if fluo then (MinStart(anchorList), MaxEnd(anchorList)) else (b - gran / 2.0, b + gran / 2.0)
  }

  /** `cat_map` after matching and fallback, one column per category of `CatsOrder`. */
  function ChosenColumns(items: seq<ImgLite>, lo: real, hi: real, tol: real, b: real, gran: real): (cols: seq<seq<ImgLite>>)
    ensures |cols| == |CatsOrder|
  {
    seq(|CatsOrder|, c requires 0 <= c < |CatsOrder| => Chosen(items, CatsOrder[c], lo, hi, tol, b, gran))
  }

  /** Each column sorted by distance to the bucket centre. */
  function SortedColumns(cols: seq<seq<ImgLite>>, b: real): (r: seq<seq<ImgLite>>)
    ensures |r| == |cols|
  {
    seq(|cols|, c requires 0 <= c < |cols| => SortBy(cols[c], DistTo(b)))
  }

  function Lengths(cols: seq<seq<ImgLite>>): (r: seq<int>)
    ensures |r| == |cols|
  {
    seq(|cols|, c requires 0 <= c < |cols| => |cols[c]|)
  }

  /** One iteration of the segment loop for bucket b with anchors `members`. */
  function SegmentAt(items: seq<ImgLite>, fluo: bool, members: seq<ImgLite>, b: real, gran: real, tolGlobal: real): (seg: Segment)
    ensures seg.center == b
  {
    var anchorList := SortBy(members, CenterOf);
    var bounds := Bounds(fluo, anchorList, b, gran);
    SegmentWithin(items, fluo, anchorList, bounds.0, bounds.1, b, gran, tolGlobal)
  }

  /** A segment once its anchors are sorted and its interval is known. */
  function SegmentWithin(items: seq<ImgLite>, fluo: bool, anchorList: seq<ImgLite>, lo: real, hi: real, b: real, gran: real, tolGlobal: real): Segment {
    var lists := SortedColumns(ChosenColumns(items, lo, hi, TolDyn(tolGlobal, lo, hi), b, gran), b);
    Segment(b, lo, hi, if fluo then anchorList else [], lists, Lengths(lists))
  }

  /** The matching loop over `items`, appending each match to the list of its category. */
  method MatchCategories(items: seq<ImgLite>, lo: real, hi: real, tol: real, b: real) returns (catMap: seq<seq<ImgLite>>)
    ensures |catMap| == |CatsOrder|
    ensures forall c :: 0 <= c < |CatsOrder| ==> catMap[c] == Matches(items, CatsOrder[c], lo, hi, tol, b)
  {
    CatsOrderDistinct();
    catMap := [[], [], [], [], [], [], []];
    for i := 0 to |items|
      invariant |catMap| == |CatsOrder|
      invariant forall c :: 0 <= c < |CatsOrder| ==> catMap[c] == Matches(items[..i], CatsOrder[c], lo, hi, tol, b)
    {
      assert items[..i + 1][..i] == items[..i];
      var it := items[i];
      var ok := false;
      if Overlap((lo - tol, hi + tol), (StartOf(it), EndOf(it))) > 0.0 {
        ok := true;
      } else if Abs(CenterOr(it, b) - b) <= tol {
        ok := true;
      }
      var k := if it.category.Some? then CatIndex(it.category.value) else -1;
      if ok && k >= 0 {
        catMap := catMap[k := catMap[k] + [it]];
      }
    }
    assert items[..|items|] == items;
  }

  /** The fallback loop: every empty column receives the nearest image of its category,
      if it lies within 3·gran. */
  method ApplyFallback(items: seq<ImgLite>, matched: seq<seq<ImgLite>>, lo: real, hi: real, tol: real, b: real, gran: real)
    returns (catMap: seq<seq<ImgLite>>)
    requires |matched| == |CatsOrder|
    requires forall c :: 0 <= c < |CatsOrder| ==> matched[c] == Matches(items, CatsOrder[c], lo, hi, tol, b)
    ensures catMap == ChosenColumns(items, lo, hi, tol, b, gran)
  {
    catMap := matched;
    for c := 0 to |CatsOrder|
      invariant |catMap| == |CatsOrder|
      invariant forall d :: 0 <= d < c ==> catMap[d] == Chosen(items, CatsOrder[d], lo, hi, tol, b, gran)
      invariant forall d :: c <= d < |CatsOrder| ==> catMap[d] == matched[d]
    {
      if |catMap[c]| == 0 {
        var candidates := OfCategory(items, CatsOrder[c]);
        if |candidates| > 0 {
          var best := candidates[Nearest(candidates, b)];
          if Abs(CenterOr(best, b) - b) <= 3.0 * gran {
            catMap := catMap[c := [best]];
          }
        }
      }
    }
    assert forall c :: 0 <= c < |CatsOrder| ==> catMap[c] == ChosenColumns(items, lo, hi, tol, b, gran)[c];
  }

  /** The serialisation loop: each column sorted by distance to the centre, and its counter. */
  method SortColumns(catMap: seq<seq<ImgLite>>, b: real) returns (lists: seq<seq<ImgLite>>, counters: seq<int>)
    ensures lists == SortedColumns(catMap, b) && counters == Lengths(lists)
  {
    lists := [];
    counters := [];
    for c := 0 to |catMap|
      invariant |lists| == c && |counters| == c
      invariant forall d :: 0 <= d < c ==> lists[d] == SortBy(catMap[d], DistTo(b)) && counters[d] == |lists[d]|
    {
      var sorted := SortBy(catMap[c], DistTo(b));
      lists := lists + [sorted];
      counters := counters + [|sorted|];
    }
    assert forall d :: 0 <= d < |catMap| ==> lists[d] == SortedColumns(catMap, b)[d];
  }

  /** Matching, fallback and sorting of every column of one segment. */
  method Columns(items: seq<ImgLite>, lo: real, hi: real, tol: real, b: real, gran: real)
    returns (lists: seq<seq<ImgLite>>, counters: seq<int>)
    ensures lists == SortedColumns(ChosenColumns(items, lo, hi, tol, b, gran), b)
    ensures counters == Lengths(lists)
  {
    var catMap := MatchCategories(items, lo, hi, tol, b);
    catMap := ApplyFallback(items, catMap, lo, hi, tol, b, gran);
    lists, counters := SortColumns(catMap, b);
  }

  /** The body of the segment loop: interval, tolerance, matching, fallback, sorting. */
  method BuildSegment(items: seq<ImgLite>, fluo: bool, members: seq<ImgLite>, b: real, gran: real, tolGlobal: real)
    returns (seg: Segment)
    ensures seg == SegmentAt(items, fluo, members, b, gran, tolGlobal)
  {
    var anchorList := SortBy(members, CenterOf);
    var lo, hi;
    if fluo {
      lo := MinStart(anchorList);
      hi := MaxEnd(anchorList);
    } else {
      lo, hi := b - gran / 2.0, b + gran / 2.0;
    }
    var tol := TolDyn(tolGlobal, lo, hi);
    var lists, counters := Columns(items, lo, hi, tol, b, gran);
    seg := Segment(b, lo, hi, if fluo then anchorList else [], lists, counters);
    assert (lo, hi) == Bounds(fluo, anchorList, b, gran);
  }

  /** The interval of a segment: with fluorescence anchors it spans the starts and ends of
      its anchors (the least start and the greatest end are attained), otherwise it is the
      bucket widened by half the granularity on each side. */
  lemma SegmentBounds(items: seq<ImgLite>, fluo: bool, members: seq<ImgLite>, b: real, gran: real, tolGlobal: real)
    ensures var seg := SegmentAt(items, fluo, members, b, gran, tolGlobal);
      fluo ==> forall a :: a in members ==> seg.lo <= StartOf(a) && EndOf(a) <= seg.hi
    ensures var seg := SegmentAt(items, fluo, members, b, gran, tolGlobal);
      fluo && |members| > 0 ==> exists a :: a in members && seg.lo == StartOf(a)
    ensures var seg := SegmentAt(items, fluo, members, b, gran, tolGlobal);
      fluo && |members| > 0 ==> exists a :: a in members && seg.hi == EndOf(a)
    ensures var seg := SegmentAt(items, fluo, members, b, gran, tolGlobal);
      !fluo ==> seg.lo == b - gran / 2.0 && seg.hi == b + gran / 2.0 && seg.anchorOptions == []
    ensures var seg := SegmentAt(items, fluo, members, b, gran, tolGlobal);
      fluo ==> multiset(seg.anchorOptions) == multiset(members) && SortedBy(seg.anchorOptions, CenterOf)
  {
    var anchorList := SortBy(members, CenterOf);
    SortByCorrect(members, CenterOf);
    forall a | a in members ensures a in anchorList {
      assert a in multiset(members);
    }
    forall a | a in anchorList ensures a in members {
      assert a in multiset(anchorList);
    }
  }

  /** Every column of a segment: sorted by distance to the centre, counted by its counter;
      when some image of the category matches, exactly the matching images; otherwise at
      most the single nearest image, and only within 3·gran. */
  lemma SegmentColumn(items: seq<ImgLite>, fluo: bool, members: seq<ImgLite>, b: real, gran: real, tolGlobal: real, c: int)
    requires 0 <= c < |CatsOrder|
    ensures var seg := SegmentAt(items, fluo, members, b, gran, tolGlobal);
      |seg.lists| == |seg.counters| == |CatsOrder| && seg.counters[c] == |seg.lists[c]|
    ensures var seg := SegmentAt(items, fluo, members, b, gran, tolGlobal);
      SortedBy(seg.lists[c], DistTo(b))
    ensures var seg := SegmentAt(items, fluo, members, b, gran, tolGlobal);
      forall it :: it in seg.lists[c] ==> it in items && it.category == Some(CatsOrder[c])
    ensures var seg := SegmentAt(items, fluo, members, b, gran, tolGlobal);
      var m := Matches(items, CatsOrder[c], seg.lo, seg.hi, TolDyn(tolGlobal, seg.lo, seg.hi), b);
      |m| > 0 ==> multiset(seg.lists[c]) == multiset(m)
  {
    var seg := SegmentAt(items, fluo, members, b, gran, tolGlobal);
    var tol := TolDyn(tolGlobal, seg.lo, seg.hi);
    var chosen := Chosen(items, CatsOrder[c], seg.lo, seg.hi, tol, b, gran);
    MatchesExact(items, CatsOrder[c], seg.lo, seg.hi, tol, b);
    assert seg.lists[c] == SortBy(chosen, DistTo(b));
    SortByCorrect(chosen, DistTo(b));
    forall it | it in seg.lists[c] ensures it in chosen {
      assert it in multiset(seg.lists[c]);
    }
  }

  /** A category with no match in the window holds at most the fallback image. */
  lemma SegmentColumnFallback(items: seq<ImgLite>, fluo: bool, members: seq<ImgLite>, b: real, gran: real, tolGlobal: real, c: int)
    requires 0 <= c < |CatsOrder|
    ensures var seg := SegmentAt(items, fluo, members, b, gran, tolGlobal);
      var m := Matches(items, CatsOrder[c], seg.lo, seg.hi, TolDyn(tolGlobal, seg.lo, seg.hi), b);
      |m| == 0 ==> (
        |seg.lists[c]| <= 1 &&
        (|seg.lists[c]| == 1 ==> (Dist(seg.lists[c][0], b) <= 3.0 * gran &&
          forall it :: it in items && it.category == Some(CatsOrder[c]) ==> Dist(seg.lists[c][0], b) <= Dist(it, b))) &&
        (|seg.lists[c]| == 0 ==> forall it :: it in items && it.category == Some(CatsOrder[c]) ==> Dist(it, b) > 3.0 * gran))
  {
    var seg := SegmentAt(items, fluo, members, b, gran, tolGlobal);
    var tol := TolDyn(tolGlobal, seg.lo, seg.hi);
    var chosen := Chosen(items, CatsOrder[c], seg.lo, seg.hi, tol, b, gran);
    assert seg.lists[c] == SortBy(chosen, DistTo(b));
    SortByCorrect(chosen, DistTo(b));
    if |chosen| == 1 {
      assert multiset(seg.lists[c]) == multiset{chosen[0]};
      assert seg.lists[c][0] in multiset(seg.lists[c]);
    }
  }

  /** A column gathers every image of its category that matches the segment. */
  lemma SegmentColumnComplete(items: seq<ImgLite>, fluo: bool, members: seq<ImgLite>, b: real, gran: real, tolGlobal: real, c: int, it: ImgLite)
    requires 0 <= c < |CatsOrder|
    requires var seg := SegmentAt(items, fluo, members, b, gran, tolGlobal);
      it in items && it.category == Some(CatsOrder[c]) && Matching(it, seg.lo, seg.hi, TolDyn(tolGlobal, seg.lo, seg.hi), b)
    ensures it in SegmentAt(items, fluo, members, b, gran, tolGlobal).lists[c]
  {
    var seg := SegmentAt(items, fluo, members, b, gran, tolGlobal);
    var m := Matches(items, CatsOrder[c], seg.lo, seg.hi, TolDyn(tolGlobal, seg.lo, seg.hi), b);
    SegmentColumn(items, fluo, members, b, gran, tolGlobal, c);
    MatchesExact(items, CatsOrder[c], seg.lo, seg.hi, TolDyn(tolGlobal, seg.lo, seg.hi), b);
    assert it in multiset(m);
  }

  // ---------------------------------------------------------------- all segments

  /** Step 5: one segment per bucket, in ascending bucket order. */
  function SegmentsOf(items: seq<ImgLite>, anchors: seq<ImgLite>, fluo: bool, gran: real, tolGlobal: real): (segs: seq<Segment>)
    requires gran != 0.0
    ensures |segs| == |SortedKeys(anchors, gran)|
    ensures forall i :: 0 <= i < |segs| ==> segs[i].center == SortedKeys(anchors, gran)[i]
  {
    var ks := SortedKeys(anchors, gran);
    seq(|ks|, i requires 0 <= i < |ks| => SegmentAt(items, fluo, Members(anchors, ks[i], gran), ks[i], gran, tolGlobal))
  }

  /** One segment per key, built from that key's bucket. */
  function SegmentsFor(items: seq<ImgLite>, fluo: bool, keys: seq<real>, buckets: map<real, seq<ImgLite>>, gran: real, tolGlobal: real): (segs: seq<Segment>)
    requires forall i :: 0 <= i < |keys| ==> keys[i] in buckets
    ensures |segs| == |keys|
  {
    seq(|keys|, i requires 0 <= i < |keys| => SegmentAt(items, fluo, buckets[keys[i]], keys[i], gran, tolGlobal))
  }

  /** The segment loop `for bucket_center in sorted(buckets.keys())`. */
  method SegmentLoop(items: seq<ImgLite>, fluo: bool, gran: real, tolGlobal: real,
                     sortedKeys: seq<real>, buckets: map<real, seq<ImgLite>>)
    returns (segs: seq<Segment>)
    requires forall i :: 0 <= i < |sortedKeys| ==> sortedKeys[i] in buckets
    ensures segs == SegmentsFor(items, fluo, sortedKeys, buckets, gran, tolGlobal)
  {
    segs := [];
    for i := 0 to |sortedKeys|
      invariant |segs| == i
      invariant forall j :: 0 <= j < i ==> segs[j] == SegmentsFor(items, fluo, sortedKeys, buckets, gran, tolGlobal)[j]
    {
      var bucketCenter := sortedKeys[i];
      var seg := BuildSegment(items, fluo, buckets[bucketCenter], bucketCenter, gran, tolGlobal);
      segs := segs + [seg];
    }
  }

  /** Steps 4 and 5: bucket the anchors, then build one segment per bucket in ascending order. */
  method BuildSegments(items: seq<ImgLite>, anchors: seq<ImgLite>, fluo: bool, gran: real, tolGlobal: real)
    returns (segs: seq<Segment>)
    requires gran != 0.0
    ensures segs == SegmentsOf(items, anchors, fluo, gran, tolGlobal)
  {
    var keys, buckets := BucketAnchors(anchors, gran);
    var sortedKeys := SortBy(keys, RealId);
    SortByCorrect(keys, RealId);
    forall i | 0 <= i < |sortedKeys| ensures sortedKeys[i] in buckets {
      assert sortedKeys[i] in multiset(sortedKeys);
    }
    segs := SegmentLoop(items, fluo, gran, tolGlobal, sortedKeys, buckets);
    BucketedSegments(items, anchors, fluo, gran, tolGlobal, keys, buckets);
  }

  /** Segments built from the bucket map are the segments of the anchors. */
  lemma BucketedSegments(items: seq<ImgLite>, anchors: seq<ImgLite>, fluo: bool, gran: real, tolGlobal: real,
                         keys: seq<real>, buckets: map<real, seq<ImgLite>>)
    requires gran != 0.0
    requires keys == KeysOf(anchors, gran)
    requires buckets == BucketMap(anchors, gran)
    requires forall i :: 0 <= i < |SortBy(keys, RealId)| ==> SortBy(keys, RealId)[i] in buckets
    ensures SegmentsFor(items, fluo, SortBy(keys, RealId), buckets, gran, tolGlobal) == SegmentsOf(items, anchors, fluo, gran, tolGlobal)
  {
    var ks := SortBy(keys, RealId);
    var segs := SegmentsFor(items, fluo, ks, buckets, gran, tolGlobal);
    forall i | 0 <= i < |segs| ensures segs[i] == SegmentsOf(items, anchors, fluo, gran, tolGlobal)[i] {
      assert buckets[ks[i]] == Members(anchors, ks[i], gran);
    }
  }

  /** Segments come out strictly ascending by centre. */
  lemma SegmentsAscending(items: seq<ImgLite>, anchors: seq<ImgLite>, fluo: bool, gran: real, tolGlobal: real)
    requires gran != 0.0
    ensures var segs := SegmentsOf(items, anchors, fluo, gran, tolGlobal);
      forall i, j :: 0 <= i < j < |segs| ==> segs[i].center < segs[j].center
  {
    SortedKeysAscending(anchors, gran);
  }

  /** With fluorescence anchors, every anchor is offered by some segment. */
  lemma AnchorsCovered(items: seq<ImgLite>, anchors: seq<ImgLite>, gran: real, tolGlobal: real, a: ImgLite)
    requires gran != 0.0 && a in anchors
    ensures var segs := SegmentsOf(items, anchors, true, gran, tolGlobal);
      exists i :: 0 <= i < |segs| && a in segs[i].anchorOptions
  {
    var segs := SegmentsOf(items, anchors, true, gran, tolGlobal);
    var ks := SortedKeys(anchors, gran);
    SortedKeysAscending(anchors, gran);
    var i :| 0 <= i < |ks| && ks[i] == KeyOf(a, gran);
    var members := Members(anchors, ks[i], gran);
    MembersExact(anchors, ks[i], gran);
    assert segs[i] == SegmentAt(items, true, members, ks[i], gran, tolGlobal);
    SegmentBounds(items, true, members, ks[i], gran, tolGlobal);
    assert a in multiset(members);
  }

  /** A segment offers an anchor only if the anchor's bucket is the segment's centre, which
      then lies within gran/2 of the anchor's centre; so no anchor is offered twice. */
  lemma AnchorSegmentUnique(items: seq<ImgLite>, anchors: seq<ImgLite>, gran: real, tolGlobal: real, a: ImgLite, i: int)
    requires gran != 0.0 && a in anchors
    requires 0 <= i < |SegmentsOf(items, anchors, true, gran, tolGlobal)|
    requires a in SegmentsOf(items, anchors, true, gran, tolGlobal)[i].anchorOptions
    ensures var seg := SegmentsOf(items, anchors, true, gran, tolGlobal)[i];
      seg.center == KeyOf(a, gran) && Abs(seg.center - CenterOf(a)) <= Abs(gran) / 2.0
  {
    var segs := SegmentsOf(items, anchors, true, gran, tolGlobal);
    var ks := SortedKeys(anchors, gran);
    var members := Members(anchors, ks[i], gran);
    MembersExact(anchors, ks[i], gran);
    assert segs[i] == SegmentAt(items, true, members, ks[i], gran, tolGlobal);
    SegmentBounds(items, true, members, ks[i], gran, tolGlobal);
    assert a in multiset(segs[i].anchorOptions);
    BucketNearest(CenterOf(a), gran);
  }

  // ---------------------------------------------------------------- the page

  /** `build_grouped_data`; none stands for the ZeroDivisionError a granularity of 0 raises
      in `_bucket` as soon as there is an anchor. */
  function GroupedOf(rows: seq<ImageRow>, well: Option<string>, gran: real, tolGlobal: real): Option<Grouped> {
    var w := SelectedWell(rows, well);
    var selected := RowsOfWell(rows, w);
    var items := ItemsOf(selected);
    var anchors := Anchors(items);
    if |selected| == 0 || |anchors| == 0 then Some(Grouped(WellText(w), gran, tolGlobal, CatsOrder, []))
    else if gran == 0.0 then None
    else Some(Grouped(WellText(w), gran, tolGlobal, CatsOrder, SegmentsOf(items, anchors, |Fluo(items)| > 0, gran, tolGlobal)))
  }

  /** The page names the requested well when there is one, lists every category, and fails
      only on a granularity of 0 with anchors to bucket. */
  lemma GroupedShape(rows: seq<ImageRow>, well: Option<string>, gran: real, tolGlobal: real)
    ensures var g := GroupedOf(rows, well, gran, tolGlobal);
      g.Some? ==> g.value.categories == CatsOrder && g.value.gran == gran && g.value.tolerance == tolGlobal
    ensures var g := GroupedOf(rows, well, gran, tolGlobal);
      g.Some? && !Falsy(well) ==> g.value.well == well.value
    ensures var g := GroupedOf(rows, well, gran, tolGlobal);
      g.None? <==> gran == 0.0 && |Anchors(ItemsOf(RowsOfWell(rows, SelectedWell(rows, well))))| > 0
  {
  }

  /** Without a row that has a usable depth there are no segments. */
  lemma GroupedNoDepths(rows: seq<ImageRow>, well: Option<string>, gran: real, tolGlobal: real)
    requires forall r :: r in rows ==> !ValidDepth(Lite(r))
    ensures GroupedOf(rows, well, gran, tolGlobal) == Some(Grouped(WellText(SelectedWell(rows, well)), gran, tolGlobal, CatsOrder, []))
  {
    ItemsOfNone(RowsOfWell(rows, SelectedWell(rows, well)));
  }

  /** Every image shown in a segment comes from a row of the selected well. */
  lemma GroupedFromWell(rows: seq<ImageRow>, well: Option<string>, gran: real, tolGlobal: real, i: int, c: int, it: ImgLite)
    requires GroupedOf(rows, well, gran, tolGlobal).Some? && !Falsy(SelectedWell(rows, well))
    requires 0 <= i < |GroupedOf(rows, well, gran, tolGlobal).value.segments| && 0 <= c < |CatsOrder|
    requires it in GroupedOf(rows, well, gran, tolGlobal).value.segments[i].lists[c]
    ensures exists r :: r in rows && r.wellName == SelectedWell(rows, well) && it == Lite(r)
  {
    var w := SelectedWell(rows, well);
    var selected := RowsOfWell(rows, w);
    var items := ItemsOf(selected);
    ItemsOfExact(selected);
    var anchors := Anchors(items);
    var ks := SortedKeys(anchors, gran);
    SegmentColumn(items, |Fluo(items)| > 0, Members(anchors, ks[i], gran), ks[i], gran, tolGlobal, c);
    var k :| 0 <= k < |selected| && it == Lite(selected[k]);
    assert selected[k] in selected;
  }

  /** `build_grouped_data` with the session's rows. */
  method BuildGroupedData(rows: seq<ImageRow>, well: Option<string>, gran: real, tolGlobal: real)
    returns (g: Option<Grouped>)
    ensures g == GroupedOf(rows, well, gran, tolGlobal)
  {
    var w := well;
    if Falsy(w) {
      w := PickDefaultWell(WellNames(rows));
    }
    var selected := RowsOfWell(rows, w);
    if |selected| == 0 {
      return Some(Grouped(WellText(w), gran, tolGlobal, CatsOrder, []));
    }
    var items := CollectItems(selected);
    var fluo := Fluo(items);
    var anchors := if |fluo| > 0 then fluo else items;
    var segments: seq<Segment> := [];
    if |anchors| > 0 {
      if gran == 0.0 {
        return None;
      }
      segments := BuildSegments(items, anchors, |fluo| > 0, gran, tolGlobal);
    }
    g := Some(Grouped(WellText(w), gran, tolGlobal, CatsOrder, segments));
  }
}
