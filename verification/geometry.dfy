/** OCR detections and their normalised bounding boxes (`normalize_bbox` in
    src/work_ocr/layout.py and the identical one in layout.py), together with
    the size statistics the layout heuristics derive from them. */
module Geometry {
  import opened Sequences

  datatype Point = Point(x: real, y: real)

  /** A polygon box; the code reads its first point, so it has at least one. */
  type Polygon = ps: seq<Point> | |ps| > 0 witness [Point(0.0, 0.0)]

  /** A raw box as the OCR engine reports it: a point list or `[x1, y1, x2, y2]`. */
  datatype RawBox =
    | Poly(points: Polygon)
    | Rect(left: real, top: real, right: real, bottom: real)

  /** The normalised box dictionary. */
  datatype Box = Box(x1: real, y1: real, x2: real, y2: real, cx: real, cy: real, w: real, h: real)

  /** One OCR result: box, recognised text and confidence score. */
  datatype Detection = Detection(bbox: RawBox, text: string, score: real)

  /** The working record `{'text': ..., 'norm_bbox': ...}` the layout code builds. */
  datatype Item = Item(text: string, box: Box)

  function Min(xs: seq<real>): (m: real)
    requires |xs| > 0
    ensures forall i :: 0 <= i < |xs| ==> m <= xs[i]
    ensures m in xs
  {
    if |xs| == 1 then xs[0]
    else
      var m := Min(xs[1..]);
      assert m in xs[1..];
      if xs[0] <= m then xs[0] else m
  }

  function Max(xs: seq<real>): (m: real)
    requires |xs| > 0
    ensures forall i :: 0 <= i < |xs| ==> xs[i] <= m
    ensures m in xs
  {
    if |xs| == 1 then xs[0]
    else
      var m := Max(xs[1..]);
      assert m in xs[1..];
      if m <= xs[0] then xs[0] else m
  }

  function Xs(ps: seq<Point>): (r: seq<real>)
    ensures |r| == |ps| && forall i :: 0 <= i < |ps| ==> r[i] == ps[i].x
  {
    seq(|ps|, i requires 0 <= i < |ps| => ps[i].x)
  }

  function Ys(ps: seq<Point>): (r: seq<real>)
    ensures |r| == |ps| && forall i :: 0 <= i < |ps| ==> r[i] == ps[i].y
  {
    seq(|ps|, i requires 0 <= i < |ps| => ps[i].y)
  }

  /** The axis-aligned envelope of a raw box, with its size and centre. */
  function NormalizeBbox(b: RawBox): (r: Box)
    ensures r.w == r.x2 - r.x1 && r.h == r.y2 - r.y1
    ensures r.cx == (r.x1 + r.x2) / 2.0 && r.cy == (r.y1 + r.y2) / 2.0
    ensures b.Rect? ==> r.x1 == b.left && r.y1 == b.top && r.x2 == b.right && r.y2 == b.bottom
    ensures b.Poly? ==> forall p :: p in b.points ==> r.x1 <= p.x <= r.x2 && r.y1 <= p.y <= r.y2
    ensures b.Poly? ==> (exists p :: p in b.points && p.x == r.x1) && (exists p :: p in b.points && p.x == r.x2)
    ensures b.Poly? ==> (exists p :: p in b.points && p.y == r.y1) && (exists p :: p in b.points && p.y == r.y2)
  {
    var (x1, y1, x2, y2) :=
      match b
      case Poly(ps) => (Min(Xs(ps)), Min(Ys(ps)), Max(Xs(ps)), Max(Ys(ps)))
      case Rect(l, t, r, btm) => (l, t, r, btm);
    var w := x2 - x1;
    var h := y2 - y1;
    Box(x1, y1, x2, y2, x1 + w / 2.0, y1 + h / 2.0, w, h)
  }

  /** The least and greatest of values lying between two of them. */
  lemma Envelope(xs: seq<real>, lo: real, hi: real)
    requires lo in xs && hi in xs
    requires forall i :: 0 <= i < |xs| ==> lo <= xs[i] <= hi
    ensures Min(xs) == lo && Max(xs) == hi
  {
    var i :| 0 <= i < |xs| && xs[i] == lo;
    var j :| 0 <= j < |xs| && xs[j] == hi;
    assert Min(xs) <= xs[i] && xs[j] <= Max(xs);
  }

  /** A rectangle written as its four corners normalises exactly like the same
      rectangle written as `[x1, y1, x2, y2]`. */
  lemma Corners(l: real, t: real, r: real, b: real)
    requires l <= r && t <= b
    ensures var ps := [Point(l, t), Point(r, t), Point(r, b), Point(l, b)];
      Min(Xs(ps)) == l && Max(Xs(ps)) == r && Min(Ys(ps)) == t && Max(Ys(ps)) == b
  {
    var ps := [Point(l, t), Point(r, t), Point(r, b), Point(l, b)];
    var xs, ys := Xs(ps), Ys(ps);
    assert l in xs && r in xs by { assert xs[0] == l && xs[1] == r; }
    assert t in ys && b in ys by { assert ys[0] == t && ys[2] == b; }
    Envelope(xs, l, r);
    Envelope(ys, t, b);
  }

  lemma PolygonMatchesRect(l: real, t: real, r: real, b: real)
    requires l <= r && t <= b
    ensures NormalizeBbox(Poly([Point(l, t), Point(r, t), Point(r, b), Point(l, b)]))
         == NormalizeBbox(Rect(l, t, r, b))
  {
    Corners(l, t, r, b);
  }

  function ToItem(d: Detection): Item {
    Item(d.text, NormalizeBbox(d.bbox))
  }

  /** `[{'text': ..., 'norm_bbox': normalize_bbox(...)} for item in ocr_result]` */
  function Items(dets: seq<Detection>): (items: seq<Item>)
    ensures |items| == |dets|
    ensures forall i :: 0 <= i < |dets| ==> items[i] == ToItem(dets[i])
  {
    seq(|dets|, i requires 0 <= i < |dets| => ToItem(dets[i]))
  }

  function Texts(items: seq<Item>): (r: seq<string>)
    ensures |r| == |items|
    ensures forall i :: 0 <= i < |items| ==> r[i] == items[i].text
  {
    seq(|items|, i requires 0 <= i < |items| => items[i].text)
  }

  /** The horizontal centres, `[it['norm_bbox']['cx'] for it in items]`. */
  function Centres(items: seq<Item>): (r: seq<real>)
    ensures |r| == |items|
    ensures forall i :: 0 <= i < |items| ==> r[i] == items[i].box.cx
  {
    seq(|items|, i requires 0 <= i < |items| => items[i].box.cx)
  }

  lemma CentresMapped(items: seq<Item>)
    ensures Centres(items) == MapSeq(Cx, items)
  {
  }

  /** Centres of a permutation are a permutation of the centres. */
  lemma CentresPermutation(a: seq<Item>, b: seq<Item>)
    requires multiset(a) == multiset(b)
    ensures multiset(Centres(a)) == multiset(Centres(b))
  {
    CentresMapped(a);
    CentresMapped(b);
    MapPermutation(Cx, a, b);
  }

  /** The box fields agree with each other, as `normalize_bbox` leaves them. */
  ghost predicate WellFormed(b: Box) {
    b.w == b.x2 - b.x1 && b.h == b.y2 - b.y1
    && b.cx == (b.x1 + b.x2) / 2.0 && b.cy == (b.y1 + b.y2) / 2.0
  }

  // ---------------------------------------------------------------------------
  // keys and statistics

  function Cx(it: Item): real { it.box.cx }
  function Cy(it: Item): real { it.box.cy }
  function X1(it: Item): real { it.box.x1 }
  function Y1(it: Item): real { it.box.y1 }
  function Width(it: Item): real { it.box.w }
  function Height(it: Item): real { it.box.h }

  function TextLength(it: Item): real {
    |it.text| as real
  }

  /** `it['norm_bbox']['w'] / len(it['text'])` for an item with text, 0 otherwise
      (items without text are skipped by the source's generator). */
  function CharWidthOf(it: Item): real {
    if |it.text| > 0 then it.box.w / |it.text| as real else 0.0
  }

  /** `total_width / total_text_len if total_text_len > 0 else 10`. */
  function CharWidthByLength(items: seq<Item>): real {
    var total := SumBy(items, TextLength);
    if total > 0.0 then SumBy(items, Width) / total else 10.0
  }

  function MeanHeight(items: seq<Item>): real
    requires |items| > 0
  {
    MeanBy(items, Height)
  }

  function MeanWidth(items: seq<Item>): real
    requires |items| > 0
  {
    MeanBy(items, Width)
  }
}
