/** Detections and the overlap measure of non_max_suppression.cxx, over reals. */
module Detections {

  datatype Detection = Detection(x: real, y: real, w: real, h: real, score: real, classes: int) {
    function Left(): real { x - w / 2.0 }
    function Right(): real { x + w / 2.0 }
    function Top(): real { y - h / 2.0 }
    function Bottom(): real { y + h / 2.0 }

    function Area(): real { w * h }

    predicate Sized() { w >= 0.0 && h >= 0.0 }
    predicate Flat() { w == 0.0 || h == 0.0 }
  }

  function Larger(a: real, b: real): real { if a > b then a else b }
  function Smaller(a: real, b: real): real { if a < b then a else b }

  /** IntersectRect: the record's x and w carry the left and right edge, y and h the top and bottom. */
  function IntersectRect(a: Detection, b: Detection): (r: Detection) {
    Detection(Larger(a.Left(), b.Left()), Larger(a.Top(), b.Top()),
              Smaller(a.Right(), b.Right()), Smaller(a.Bottom(), b.Bottom()), 0.0, 0)
  }

  function Overlap(a: Detection, b: Detection): (s: real) {
    OverlapIn(IntersectRect(a, b), a, b)
  }

  /** The same once the rectangle i that a and b share is known. */
  function OverlapIn(i: Detection, a: Detection, b: Detection): (s: real) {
    if i.x >= i.w || i.y >= i.h then 0.0
    else AreaRatio(Span(i.x, i.w), Span(i.y, i.h), a.Area(), b.Area())
  }

  function Span(lo: real, hi: real): (d: real) {
    hi - lo
  }

  /** The common area over the area of the union, or 0. */
  function AreaRatio(iw: real, ih: real, one: real, other: real): (s: real) {
    var normalization := Union(one, other, iw * ih);
    if normalization > 0.0 then iw * ih / normalization else 0.0
  }

  function Union(one: real, other: real, common: real): (area: real) {
    one + other - common
  }

  lemma AreaBound(iw: real, ih: real, w: real, h: real)
    requires 0.0 < iw <= w && 0.0 < ih <= h
    ensures 0.0 < iw * ih <= w * h
  {
    assert iw * ih <= w * ih;
    assert w * ih <= w * h;
  }

  lemma QuotientBound(a: real, n: real)
    requires 0.0 <= a <= n && 0.0 < n
    ensures 0.0 <= a / n <= 1.0
    ensures a == n ==> a / n == 1.0
  {
  }

  /** Overlap lies in [0, 1], vanishes on flat boxes and is 1 between a proper box and itself. */
  lemma OverlapMeasure(a: Detection, b: Detection)
    requires a.Sized() && b.Sized()
    ensures 0.0 <= Overlap(a, b) <= 1.0
    ensures a.Flat() || b.Flat() ==> Overlap(a, b) == 0.0
    ensures !a.Flat() ==> Overlap(a, a) == 1.0
  {
    OverlapRange(a, b);
    if a.Flat() || b.Flat() {
      OverlapFlat(a, b);
    }
    if !a.Flat() {
      OverlapSelf(a);
    }
  }

  lemma IntersectInside(a: Detection, b: Detection)
    ensures var i := IntersectRect(a, b);
            && Span(i.x, i.w) <= a.w && Span(i.x, i.w) <= b.w
            && Span(i.y, i.h) <= a.h && Span(i.y, i.h) <= b.h
  {
    assert a.Right() - a.Left() == a.w && b.Right() - b.Left() == b.w;
    assert a.Bottom() - a.Top() == a.h && b.Bottom() - b.Top() == b.h;
  }

  /** The formula of Overlap once the intersection's sides are known. */
  lemma RatioRange(iw: real, ih: real, a: Detection, b: Detection)
    requires 0.0 < iw <= a.w && iw <= b.w && 0.0 < ih <= a.h && ih <= b.h
    ensures 0.0 <= AreaRatio(iw, ih, a.Area(), b.Area()) <= 1.0
  {
    AreaBound(iw, ih, a.w, a.h);
    AreaBound(iw, ih, b.w, b.h);
    QuotientBound(iw * ih, a.Area() + b.Area() - iw * ih);
  }

  lemma OverlapRange(a: Detection, b: Detection)
    ensures 0.0 <= Overlap(a, b) <= 1.0
  {
    var i := IntersectRect(a, b);
    IntersectInside(a, b);
    if i.x < i.w && i.y < i.h {
      RatioRange(Span(i.x, i.w), Span(i.y, i.h), a, b);
    }
  }

  lemma OverlapFlat(a: Detection, b: Detection)
    requires a.Flat() || b.Flat()
    ensures Overlap(a, b) == 0.0
  {
    IntersectInside(a, b);
  }

  lemma OverlapSelf(a: Detection)
    requires a.Sized() && !a.Flat()
    ensures Overlap(a, a) == 1.0
  {
    var i := IntersectRect(a, a);
    assert Span(i.x, i.w) == a.w && Span(i.y, i.h) == a.h;
    RatioOne(a.w, a.h, a.Area());
  }

  lemma RatioOne(w: real, h: real, area: real)
    requires w > 0.0 && h > 0.0 && area == w * h
    ensures AreaRatio(w, h, area, area) == 1.0
  {
    AreaBound(w, h, w, h);
    QuotientBound(w * h, w * h);
  }

  lemma OverlapSymmetric(a: Detection, b: Detection)
    ensures Overlap(a, b) == Overlap(b, a)
  {
    var i, k := IntersectRect(a, b), IntersectRect(b, a);
    assert i.x == k.x && i.w == k.w && i.y == k.y && i.h == k.h;
    RatioSymmetric(Span(i.x, i.w), Span(i.y, i.h), a.Area(), b.Area());
  }

  lemma RatioSymmetric(iw: real, ih: real, one: real, other: real)
    ensures AreaRatio(iw, ih, one, other) == AreaRatio(iw, ih, other, one)
  {
  }

  // ------------------------------------------------- the measure as areas

  predicate Covers(d: Detection, p: real, q: real) {
    d.Left() <= p <= d.Right() && d.Top() <= q <= d.Bottom()
  }

  /** The rectangle holds exactly the points that lie in both boxes. */
  lemma IntersectionIsCommon(a: Detection, b: Detection, p: real, q: real)
    ensures var i := IntersectRect(a, b);
            Covers(a, p, q) && Covers(b, p, q) <==> i.x <= p <= i.w && i.y <= q <= i.h
  {
  }

  /** The shared rectangle is more than an edge. */
  predicate Proper(i: Detection) {
    i.x < i.w && i.y < i.h
  }

  function AreaOf(i: Detection): (area: real) {
    Span(i.x, i.w) * Span(i.y, i.h)
  }

  predicate Meet(a: Detection, b: Detection) {
    Proper(IntersectRect(a, b))
  }

  function CommonArea(a: Detection, b: Detection): (area: real) {
    AreaOf(IntersectRect(a, b))
  }

  lemma OverTimes(a: real, n: real)
    requires n > 0.0
    ensures a / n * n == a
  {
  }

  /** ratio is the common area over the area of the union, and 0 for boxes that do not meet. */
  predicate IsIou(ratio: real, meet: bool, common: real, union: real) {
    if meet then union > 0.0 && ratio * union == common else ratio == 0.0
  }

  lemma SidesIou(iw: real, ih: real, aw: real, ah: real, bw: real, bh: real)
    requires 0.0 < iw <= aw && iw <= bw && 0.0 < ih <= ah && ih <= bh
    ensures IsIou(AreaRatio(iw, ih, aw * ah, bw * bh), true, iw * ih, Union(aw * ah, bw * bh, iw * ih))
  {
    AreaBound(iw, ih, aw, ah);
    AreaBound(iw, ih, bw, bh);
    OverTimes(iw * ih, Union(aw * ah, bw * bh, iw * ih));
  }

  lemma IouIn(i: Detection, a: Detection, b: Detection)
    requires Span(i.x, i.w) <= a.w && Span(i.x, i.w) <= b.w && Span(i.y, i.h) <= a.h && Span(i.y, i.h) <= b.h
    ensures IsIou(OverlapIn(i, a, b), Proper(i), AreaOf(i), Union(a.Area(), b.Area(), AreaOf(i)))
  {
    if Proper(i) {
      SidesIou(Span(i.x, i.w), Span(i.y, i.h), a.w, a.h, b.w, b.h);
    }
  }

  /** The overlap is intersection over union. */
  lemma OverlapIsIou(a: Detection, b: Detection)
    ensures IsIou(Overlap(a, b), Meet(a, b), CommonArea(a, b), Union(a.Area(), b.Area(), CommonArea(a, b)))
  {
    IntersectInside(a, b);
    IouIn(IntersectRect(a, b), a, b);
  }

  lemma IouInSides(i: Detection, a: Detection, b: Detection, iw: real, ih: real)
    requires Span(i.x, i.w) <= a.w && Span(i.x, i.w) <= b.w && Span(i.y, i.h) <= a.h && Span(i.y, i.h) <= b.h
    requires iw == i.w - i.x && ih == i.h - i.y
    ensures if iw > 0.0 && ih > 0.0 then OverlapIn(i, a, b) * (a.w * a.h + b.w * b.h - iw * ih) == iw * ih
            else OverlapIn(i, a, b) == 0.0
  {
    IouIn(i, a, b);
  }

  /** The same in the edges of the boxes. */
  lemma OverlapInEdges(a: Detection, b: Detection, iw: real, ih: real)
    requires iw == Smaller(a.Right(), b.Right()) - Larger(a.Left(), b.Left())
    requires ih == Smaller(a.Bottom(), b.Bottom()) - Larger(a.Top(), b.Top())
    ensures if iw > 0.0 && ih > 0.0 then Overlap(a, b) * (a.w * a.h + b.w * b.h - iw * ih) == iw * ih
            else Overlap(a, b) == 0.0
  {
    IntersectInside(a, b);
    IouInSides(IntersectRect(a, b), a, b, iw, ih);
  }

  lemma PositiveProduct(a: real, b: real)
    requires b > 0.0
    ensures a * b > 0.0 <==> a > 0.0
  {
  }

  lemma RatioAgainst(ratio: real, common: real, union: real)
    requires union > 0.0 && ratio * union == common
    ensures ratio > 0.3 <==> 10.0 * common > 3.0 * union
  {
    PositiveProduct(ratio - 0.3, union);
    assert (ratio - 0.3) * union == common - 0.3 * union;
  }

  /** More than 0.3 of the union: thirteen times the common area exceeds three times the sum
      of both areas. */
  lemma OverlapThreshold(a: Detection, b: Detection)
    ensures Overlap(a, b) > 0.3 <==> Meet(a, b) && 13.0 * CommonArea(a, b) > 3.0 * (a.Area() + b.Area())
  {
    OverlapIsIou(a, b);
    if Meet(a, b) {
      RatioAgainst(Overlap(a, b), CommonArea(a, b), Union(a.Area(), b.Area(), CommonArea(a, b)));
    }
  }
}
