/** find_black_center of diff_ditect_main.c: a brightness-corrected difference of two
    UYVY frames and its integer centre of gravity. */
module BlackCenter {
  import opened Bytes

  const WIDTH := 320
  const HEIGHT := 240
  const PIXELS := 76800
  const INT_MAX := 0x7fff_ffff
  const WEIGHT_LIMIT := 175

  // ------------------------------------------------------- sums over sequences

  function Times(a: int, b: int): (p: int) {
    a * b
  }

  /** The moment of weights ws about coordinates cs. */
  function Dot(ws: seq<int>, cs: seq<int>): (s: int)
    requires |ws| == |cs|
  {
    if ws == [] then 0
    else Dot(ws[..|ws| - 1], cs[..|ws| - 1]) + Times(ws[|ws| - 1], cs[|ws| - 1])
  }

  lemma SumStep(xs: seq<int>, k: nat)
    requires k < |xs|
    ensures Sum(xs[..k + 1]) == Sum(xs[..k]) + xs[k]
  {
    assert xs[..k + 1][..k] == xs[..k];
  }

  lemma DotStep(ws: seq<int>, cs: seq<int>, k: nat)
    requires k < |ws| == |cs|
    ensures Dot(ws[..k + 1], cs[..k + 1]) == Dot(ws[..k], cs[..k]) + Times(ws[k], cs[k])
  {
    assert ws[..k + 1][..k] == ws[..k] && cs[..k + 1][..k] == cs[..k];
  }

  lemma {:induction false} SumBounds(xs: seq<int>, lo: int, hi: int)
    requires forall k :: 0 <= k < |xs| ==> lo <= xs[k] <= hi
    ensures Times(lo, |xs|) <= Sum(xs) <= Times(hi, |xs|)
  {
    if xs != [] { SumBounds(xs[..|xs| - 1], lo, hi); }
  }

  lemma ProductOrder(w: int, c: int, d: int)
    requires w >= 0 && c <= d
    ensures Times(w, c) <= Times(w, d)
  {
  }

  /** The moment lies between the extreme coordinates that carry weight. */
  lemma {:induction false} DotBetween(ws: seq<int>, cs: seq<int>, lo: int, hi: int)
    requires |ws| == |cs| && forall k :: 0 <= k < |ws| ==> ws[k] >= 0 && (ws[k] > 0 ==> lo <= cs[k] <= hi)
    ensures Times(Sum(ws), lo) <= Dot(ws, cs) <= Times(Sum(ws), hi)
  {
    if ws != [] {
      var n := |ws| - 1;
      DotBetween(ws[..n], cs[..n], lo, hi);
      if ws[n] > 0 {
        ProductOrder(ws[n], lo, cs[n]);
        ProductOrder(ws[n], cs[n], hi);
      }
      TimesAdd(Sum(ws[..n]), ws[n], lo);
      TimesAdd(Sum(ws[..n]), ws[n], hi);
    }
  }

  lemma TimesAdd(a: int, b: int, c: int)
    ensures Times(a + b, c) == Times(a, c) + Times(b, c)
  {
  }

  lemma QuotientBetween(t: int, d: int, lo: int, hi: int)
    requires t > 0 && Times(t, lo) <= d <= Times(t, hi)
    ensures lo <= d / t <= hi
  {
    var q, r := d / t, d % t;
    assert d == t * q + r;
    if q < lo {
      ProductOrder(t, q + 1, lo);
    }
    if q > hi {
      ProductOrder(t, hi + 1, q);
    }
  }

  lemma {:induction false} DotGrows(ws: seq<int>, cs: seq<int>, k: nat)
    requires k <= |ws| == |cs| && forall i :: 0 <= i < |ws| ==> ws[i] >= 0 && cs[i] >= 0
    ensures 0 <= Dot(ws[..k], cs[..k]) <= Dot(ws, cs)
    decreases |ws|
  {
    var n := |ws| - 1;
    if ws == [] {
    } else if k == |ws| {
      assert ws[..k] == ws && cs[..k] == cs;
      DotGrows(ws[..n], cs[..n], n);
      assert ws[..n][..n] == ws[..n] && cs[..n][..n] == cs[..n];
      ProductOrder(ws[n], 0, cs[n]);
    } else {
      DotGrows(ws[..n], cs[..n], k);
      assert ws[..n][..k] == ws[..k] && cs[..n][..k] == cs[..k];
      ProductOrder(ws[n], 0, cs[n]);
    }
  }

  // ----------------------------------------------------------- the computation

  predicate Frame(f: seq<byte>) {
    |f| == 2 * PIXELS
  }

  function Minus(a: int, b: int): (d: int) {
    a - b
  }

  /** What the first pass adds up: the even byte of the picture against the camera's luma. */
  function Differences(pic: seq<byte>, cam: seq<byte>): (ds: seq<int>)
    requires Frame(pic) && Frame(cam)
    ensures |ds| == PIXELS
  {
    seq(PIXELS, k requires 0 <= k < PIXELS => Minus(pic[2 * k], cam[2 * k + 1]))
  }

  function Offset(pic: seq<byte>, cam: seq<byte>): (d: int)
    requires Frame(pic) && Frame(cam)
  {
    TruncDiv(Sum(Differences(pic, cam)), PIXELS)
  }

  function Threshold(t: int): (w: int)
    ensures w >= 0
  {
    if t < 25 then 0 else t
  }

  function Weights(pic: seq<byte>, cam: seq<byte>, diff: int): (ws: seq<int>)
    requires Frame(pic) && Frame(cam)
    ensures |ws| == PIXELS && forall k :: 0 <= k < PIXELS ==> ws[k] >= 0
  {
    seq(PIXELS, k requires 0 <= k < PIXELS => Threshold(cam[2 * k + 1] + diff - pic[2 * k + 1]))
  }

  function Columns(): (cs: seq<int>)
    ensures |cs| == PIXELS && forall k :: 0 <= k < PIXELS ==> cs[k] == k % WIDTH
  {
    seq(PIXELS, k requires 0 <= k < PIXELS => k % WIDTH)
  }

  function Rows(): (cs: seq<int>)
    ensures |cs| == PIXELS && forall k :: 0 <= k < PIXELS ==> cs[k] == k / WIDTH
  {
    seq(PIXELS, k requires 0 <= k < PIXELS => k / WIDTH)
  }

  /** Overflow stands for a run in which x_sum or y_sum leaves int, undefined in C. */
  datatype Center = Overflow | NotFound | At(x: int, y: int)

  function CenterOf(ws: seq<int>): (c: Center)
    requires |ws| == PIXELS
  {
    var weight, xSum, ySum := Sum(ws), Dot(ws, Columns()), Dot(ws, Rows());
    if xSum > INT_MAX || ySum > INT_MAX then Overflow
    else if weight <= 0 then NotFound
    else At(xSum / weight, ySum / weight)
  }

  function Find(pic: seq<byte>, cam: seq<byte>): (c: Center)
    requires Frame(pic) && Frame(cam)
  {
    CenterOf(Weights(pic, cam, Offset(pic, cam)))
  }

  /** The centre lies between the extreme columns and rows of the weighted pixels. */
  lemma CenterInside(ws: seq<int>, x0: int, x1: int, y0: int, y1: int)
    requires |ws| == PIXELS && forall k :: 0 <= k < |ws| ==> ws[k] >= 0
    requires forall k :: 0 <= k < |ws| && ws[k] > 0 ==> x0 <= k % WIDTH <= x1 && y0 <= k / WIDTH <= y1
    ensures CenterOf(ws).At? ==> x0 <= CenterOf(ws).x <= x1 && y0 <= CenterOf(ws).y <= y1
  {
    DotBetween(ws, Columns(), x0, x1);
    DotBetween(ws, Rows(), y0, y1);
    if CenterOf(ws).At? {
      QuotientBetween(Sum(ws), Dot(ws, Columns()), x0, x1);
      QuotientBetween(Sum(ws), Dot(ws, Rows()), y0, y1);
    }
  }

  /** The weights the second pass finds. */
  function WeightsOf(pic: seq<byte>, cam: seq<byte>): (ws: seq<int>)
    requires Frame(pic) && Frame(cam)
    ensures |ws| == PIXELS && forall k :: 0 <= k < PIXELS ==> ws[k] >= 0
  {
    Weights(pic, cam, Offset(pic, cam))
  }

  predicate AtMost(ws: seq<int>, b: int) {
    forall k :: 0 <= k < |ws| ==> ws[k] <= b
  }

  /** Nothing is found exactly when no pixel has weight; while no weight exceeds 175 a centre
      is found in every other case; and a centre is a pixel of the frame. */
  lemma CenterInFrame(pic: seq<byte>, cam: seq<byte>)
    requires Frame(pic) && Frame(cam)
    ensures var ws, c := WeightsOf(pic, cam), Find(pic, cam);
            && (c.NotFound? <==> forall k :: 0 <= k < PIXELS ==> ws[k] == 0)
            && (AtMost(ws, WEIGHT_LIMIT) ==> (c.At? <==> exists k :: 0 <= k < PIXELS && ws[k] > 0))
            && (c.At? ==> 0 <= c.x < WIDTH && 0 <= c.y < HEIGHT)
  {
    var ws := WeightsOf(pic, cam);
    forall k | 0 <= k < PIXELS
      ensures 0 <= k % WIDTH <= WIDTH - 1 && 0 <= k / WIDTH <= HEIGHT - 1
    {
    }
    CenterInside(ws, 0, WIDTH - 1, 0, HEIGHT - 1);
    SumPositive(ws);
    NoMomentWithoutWeight(ws);
    if AtMost(ws, WEIGHT_LIMIT) {
      MomentsFit(ws);
    }
  }

  lemma NoMomentWithoutWeight(ws: seq<int>)
    requires |ws| == PIXELS && forall k :: 0 <= k < |ws| ==> ws[k] >= 0
    ensures Sum(ws) == 0 ==> Dot(ws, Columns()) == 0 && Dot(ws, Rows()) == 0
  {
    SumPositive(ws);
    if Sum(ws) == 0 {
      DotBetween(ws, Columns(), 0, 0);
      DotBetween(ws, Rows(), 0, 0);
    }
  }

  lemma {:induction false} SumPositive(ws: seq<int>)
    requires forall k :: 0 <= k < |ws| ==> ws[k] >= 0
    ensures Sum(ws) >= 0
    ensures Sum(ws) > 0 <==> exists k :: 0 <= k < |ws| && ws[k] > 0
  {
    if ws != [] {
      var front := ws[..|ws| - 1];
      SumPositive(front);
      assert forall k :: 0 <= k < |front| ==> front[k] == ws[k];
    }
  }

  /** The other two accumulators never overflow. */
  lemma WeightFits(pic: seq<byte>, cam: seq<byte>)
    requires Frame(pic) && Frame(cam)
    ensures -INT_MAX <= Sum(Differences(pic, cam)) <= INT_MAX
    ensures 0 <= Sum(Weights(pic, cam, Offset(pic, cam))) <= INT_MAX
  {
    SumBounds(Differences(pic, cam), -255, 255);
    var d := Offset(pic, cam);
    assert -255 <= d <= 255;
    SumBounds(Weights(pic, cam, d), 0, 510);
  }

  /** Pixel k of the camera is at least 25 brighter than the picture, once corrected. */
  predicate Changed(pic: seq<byte>, cam: seq<byte>, k: nat)
    requires Frame(pic) && Frame(cam) && k < PIXELS
  {
    cam[2 * k + 1] + Offset(pic, cam) - pic[2 * k + 1] >= 25
  }

  lemma WeightOfPixel(pic: seq<byte>, cam: seq<byte>, k: nat)
    requires Frame(pic) && Frame(cam) && k < PIXELS
    ensures WeightsOf(pic, cam)[k] > 0 <==> Changed(pic, cam, k)
  {
  }

  /** On frames: the centre lies between the extreme columns and rows of the changed pixels. */
  lemma CenterAmongChanged(pic: seq<byte>, cam: seq<byte>, x0: int, x1: int, y0: int, y1: int)
    requires Frame(pic) && Frame(cam)
    requires forall k :: 0 <= k < PIXELS && Changed(pic, cam, k) ==> x0 <= k % WIDTH <= x1 && y0 <= k / WIDTH <= y1
    ensures var c := Find(pic, cam);
            c.At? ==> x0 <= c.x <= x1 && y0 <= c.y <= y1
  {
    var ws := WeightsOf(pic, cam);
    forall k | 0 <= k < PIXELS && ws[k] > 0
      ensures x0 <= k % WIDTH <= x1 && y0 <= k / WIDTH <= y1
    {
      WeightOfPixel(pic, cam, k);
    }
    CenterInside(ws, x0, x1, y0, y1);
  }

  /** A single changed pixel is found, exactly where it is. */
  lemma OneChangedPixel(pic: seq<byte>, cam: seq<byte>, p: nat)
    requires Frame(pic) && Frame(cam) && p < PIXELS
    requires forall k :: 0 <= k < PIXELS ==> (Changed(pic, cam, k) <==> k == p)
    ensures Find(pic, cam) == At(p % 320, p / 320)
  {
    var ws := WeightsOf(pic, cam);
    var col, row := p % WIDTH, p / WIDTH;
    forall k | 0 <= k < PIXELS ensures ws[k] > 0 <==> k == p {
      WeightOfPixel(pic, cam, k);
    }
    SumPositive(ws);
    DotBetween(ws, Columns(), col, col);
    DotBetween(ws, Rows(), row, row);
    OneWeight(ws, p);
    WeightFitsByte(pic, cam, p);
    SmallMoment(ws[p], col, 319);
    SmallMoment(ws[p], row, 239);
    CenterAmongChanged(pic, cam, col, col, row, row);
  }

  lemma SmallMoment(w: int, c: int, top: int)
    requires 0 <= w <= 510 && 0 <= c <= top <= 319
    ensures Times(w, c) <= INT_MAX
  {
    ProductOrder(w, c, top);
    ProductOrder(top, w, 510);
    assert Times(w, top) == Times(top, w);
  }

  lemma WeightFitsByte(pic: seq<byte>, cam: seq<byte>, k: nat)
    requires Frame(pic) && Frame(cam) && k < PIXELS
    ensures 0 <= WeightsOf(pic, cam)[k] <= 510
  {
    SumBounds(Differences(pic, cam), -255, 255);
    assert -255 <= Offset(pic, cam) <= 255;
  }

  lemma {:induction false} OneWeight(ws: seq<int>, p: nat)
    requires p < |ws| && forall k :: 0 <= k < |ws| && k != p ==> ws[k] == 0
    ensures Sum(ws) == ws[p]
  {
    var n := |ws| - 1;
    if p < n {
      OneWeight(ws[..n], p);
    } else {
      AllZero(ws[..n]);
    }
  }

  lemma {:induction false} AllZero(xs: seq<int>)
    requires forall k :: 0 <= k < |xs| ==> xs[k] == 0
    ensures Sum(xs) == 0
  {
    if xs != [] { AllZero(xs[..|xs| - 1]); }
  }

  // -------------------------------------------------------------- brightness

  /** Every camera luma byte raised by c, without clipping. */
  ghost predicate Brighter(cam: seq<byte>, cam': seq<byte>, c: int)
    requires Frame(cam) && Frame(cam')
  {
    forall k :: 0 <= k < PIXELS ==> cam'[2 * k + 1] == cam[2 * k + 1] + c
  }

  lemma {:induction false} SumShift(xs: seq<int>, ys: seq<int>, c: int)
    requires |xs| == |ys| && forall k :: 0 <= k < |xs| ==> ys[k] == xs[k] - c
    ensures Sum(ys) == Sum(xs) - c * |xs|
  {
    if xs != [] {
      var n := |xs| - 1;
      SumShift(xs[..n], ys[..n], c);
      assert c * |xs| == c * n + c;
    }
  }

  /** Truncation commutes with the shift exactly when it does not cross zero. */
  lemma TruncShift(s: int, c: int)
    ensures TruncDiv(s - c * PIXELS, PIXELS) + c == TruncDiv(s, PIXELS) <==>
            || (s >= 0 && s - c * PIXELS >= 0)
            || (s <= 0 && s - c * PIXELS <= 0)
            || s % PIXELS == 0
  {
  }

  /** A uniform change of the camera's brightness is cancelled exactly when the summed
      difference keeps its sign or is a multiple of the pixel count; then the whole
      result is unchanged. */
  lemma BrightnessCancelled(pic: seq<byte>, cam: seq<byte>, cam': seq<byte>, c: int)
    requires Frame(pic) && Frame(cam) && Frame(cam') && Brighter(cam, cam', c)
    ensures Offset(pic, cam') + c == Offset(pic, cam) <==> SignKept(pic, cam, cam')
    ensures SignKept(pic, cam, cam') ==> Find(pic, cam') == Find(pic, cam)
  {
    SumShift(Differences(pic, cam), Differences(pic, cam'), c);
    TruncShift(Sum(Differences(pic, cam)), c);
    var d, d' := Offset(pic, cam), Offset(pic, cam');
    if d' + c == d {
      assert Weights(pic, cam', d') == Weights(pic, cam, d);
    }
  }

  /** The condition of BrightnessCancelled, on the summed differences. */
  ghost predicate SignKept(pic: seq<byte>, cam: seq<byte>, cam': seq<byte>)
    requires Frame(pic) && Frame(cam) && Frame(cam')
  {
    var s, s' := Sum(Differences(pic, cam)), Sum(Differences(pic, cam'));
    (s >= 0 && s' >= 0) || (s <= 0 && s' <= 0) || s % PIXELS == 0
  }

  /** The two pictures differ in their luma only, which the first pass does not read. */
  predicate SameReference(pic: seq<byte>, other: seq<byte>)
    requires Frame(pic) && Frame(other)
  {
    forall k :: 0 <= k < PIXELS ==> pic[2 * k] == other[2 * k]
  }

  lemma ReferenceDecides(pic: seq<byte>, other: seq<byte>, cam: seq<byte>)
    requires Frame(pic) && Frame(other) && Frame(cam) && SameReference(pic, other)
    ensures Differences(pic, cam) == Differences(other, cam)
  {
  }

  /** Every corrected camera luma can be told from some picture luma. */
  predicate Moderate(pic: seq<byte>, cam: seq<byte>)
    requires Frame(pic) && Frame(cam)
  {
    forall k :: 0 <= k < PIXELS ==> 25 <= cam[2 * k + 1] + Offset(pic, cam) <= 279
  }

  /** The picture whose luma puts every pixel at level t, just at the threshold of 25. */
  function AtLevel(pic: seq<byte>, cam: seq<byte>, t: int): (other: seq<byte>)
    requires Frame(pic) && Frame(cam) && Moderate(pic, cam) && 24 <= t <= 25
    ensures Frame(other)
  {
    seq(2 * PIXELS, q requires 0 <= q < 2 * PIXELS =>
      if q % 2 == 0 then pic[q] else LumaAt(pic, cam, q / 2, t))
  }

  function LumaAt(pic: seq<byte>, cam: seq<byte>, k: nat, t: int): (b: byte)
    requires Frame(pic) && Frame(cam) && Moderate(pic, cam) && 24 <= t <= 25 && k < PIXELS
  {
    cam[2 * k + 1] + Offset(pic, cam) - t
  }

  lemma AtLevelEverywhere(pic: seq<byte>, cam: seq<byte>, t: int, k: nat)
    requires Frame(pic) && Frame(cam) && Moderate(pic, cam) && 24 <= t <= 25 && k < PIXELS
    ensures var other := AtLevel(pic, cam, t);
            other[2 * k] == pic[2 * k] && Minus(cam[2 * k + 1] + Offset(pic, cam), other[2 * k + 1]) == t
  {
    assert (2 * k) % 2 == 0 && (2 * k + 1) % 2 == 1 && (2 * k + 1) / 2 == k;
  }

  lemma UniformLevel(pic: seq<byte>, cam: seq<byte>, t: int)
    requires Frame(pic) && Frame(cam)
    requires forall k :: 0 <= k < PIXELS ==> cam[2 * k + 1] + Offset(pic, cam) - pic[2 * k + 1] == t
    ensures Find(pic, cam).NotFound? <==> t < 25
  {
    var ws := WeightsOf(pic, cam);
    assert forall k :: 0 <= k < PIXELS ==> ws[k] == Threshold(t);
    CenterInFrame(pic, cam);
    assert ws[0] == Threshold(t);
  }

  /** When the sign is not kept, the offset is off by one and some picture shows it. */
  lemma NotCancelled(pic: seq<byte>, cam: seq<byte>, cam': seq<byte>, c: int) returns (other: seq<byte>)
    requires Frame(pic) && Frame(cam) && Frame(cam') && Brighter(cam, cam', c) && Moderate(pic, cam)
    requires !SignKept(pic, cam, cam')
    ensures Frame(other) && SameReference(pic, other)
    ensures Find(other, cam).NotFound? != Find(other, cam').NotFound?
  {
    var s := Sum(Differences(pic, cam));
    SumShift(Differences(pic, cam), Differences(pic, cam'), c);
    OffByOne(s, c);
    var t := if s > 0 then 24 else 25;
    other := AtLevel(pic, cam, t);
    forall k | 0 <= k < PIXELS
      ensures other[2 * k] == pic[2 * k] && cam[2 * k + 1] + Offset(pic, cam) - other[2 * k + 1] == t
    {
      AtLevelEverywhere(pic, cam, t, k);
    }
    ReferenceDecides(pic, other, cam);
    ReferenceDecides(pic, other, cam');
    UniformLevel(other, cam, t);
    UniformLevel(other, cam', if s > 0 then 25 else 24);
  }

  lemma OffByOne(s: int, c: int)
    requires (s > 0 > s - c * PIXELS || s < 0 < s - c * PIXELS) && s % PIXELS != 0
    ensures TruncDiv(s - c * PIXELS, PIXELS) + c == TruncDiv(s, PIXELS) + if s > 0 then 1 else -1
  {
  }

  /** For frames of moderate luma the result itself is unchanged, whatever the picture's luma,
      exactly when the summed difference keeps its sign or is a multiple of the pixel count. */
  lemma CancelledIff(pic: seq<byte>, cam: seq<byte>, cam': seq<byte>, c: int)
    requires Frame(pic) && Frame(cam) && Frame(cam') && Brighter(cam, cam', c) && Moderate(pic, cam)
    ensures (forall other :: Frame(other) && SameReference(pic, other) ==> Find(other, cam') == Find(other, cam)) <==>
            SignKept(pic, cam, cam')
  {
    if SignKept(pic, cam, cam') {
      forall other | Frame(other) && SameReference(pic, other)
        ensures Find(other, cam') == Find(other, cam)
      {
        ReferenceDecides(pic, other, cam);
        ReferenceDecides(pic, other, cam');
        BrightnessCancelled(other, cam, cam', c);
      }
    } else {
      var other := NotCancelled(pic, cam, cam', c);
    }
  }

  /** A camera image one step brighter: nothing is found before, every pixel counts after. */
  lemma BrightnessShows() returns (pic: seq<byte>, cam: seq<byte>, cam': seq<byte>)
    ensures Frame(pic) && Frame(cam) && Frame(cam') && Brighter(cam, cam', 1)
    ensures Find(pic, cam) == NotFound && Find(pic, cam') != NotFound
  {
    pic := seq(2 * PIXELS, q => if q == 0 then 101 else if q % 2 == 0 then 100 else 76);
    cam := seq(2 * PIXELS, _ => 100);
    cam' := seq(2 * PIXELS, _ => 101);
    var ds := Differences(pic, cam);
    assert ds[..1] == [1];
    FirstAndRest(ds);
    SumShift(ds, Differences(pic, cam'), 1);
    assert Offset(pic, cam) == 0 && Offset(pic, cam') == 0;
    UniformLevel(pic, cam, 24);
    UniformLevel(pic, cam', 25);
  }

  lemma {:induction false} FirstAndRest(xs: seq<int>)
    requires xs != [] && forall k :: 1 <= k < |xs| ==> xs[k] == 0
    ensures Sum(xs) == xs[0]
  {
    if |xs| > 1 { FirstAndRest(xs[..|xs| - 1]); }
  }

  // ---------------------------------------------------------------- overflow

  /** The sum of the first q column numbers. */
  lemma {:induction false} ColumnSum(q: nat)
    requires q <= PIXELS
    ensures var r := q % WIDTH;
            Sum(Columns()[..q]) == 51040 * (q / WIDTH) + r * (r - 1) / 2
  {
    if q > 0 {
      var r := (q - 1) % WIDTH;
      ColumnSum(q - 1);
      SumStep(Columns(), q - 1);
      assert r * (r - 1) / 2 + r == (r + 1) * r / 2;
      if r == WIDTH - 1 {
        assert q / WIDTH == (q - 1) / WIDTH + 1 && q % WIDTH == 0;
      } else {
        assert q / WIDTH == (q - 1) / WIDTH && q % WIDTH == r + 1;
      }
    }
  }

  /** The sum of the first q row numbers. */
  lemma {:induction false} RowSum(q: nat)
    requires q <= PIXELS
    ensures var i, r := q / WIDTH, q % WIDTH;
            Sum(Rows()[..q]) == RowTotal(i, r)
  {
    if q > 0 {
      var i, r := (q - 1) / WIDTH, (q - 1) % WIDTH;
      RowSum(q - 1);
      SumStep(Rows(), q - 1);
      RowTotalStep(i, r);
      if r == WIDTH - 1 {
        assert q / WIDTH == i + 1 && q % WIDTH == 0;
      } else {
        assert q / WIDTH == i && q % WIDTH == r + 1;
      }
    }
  }

  function RowTotal(i: nat, r: nat): (t: int) {
    160 * (i * (i - 1)) + r * i
  }

  lemma RowTotalStep(i: nat, r: nat)
    ensures RowTotal(i, r + 1) == RowTotal(i, r) + i
    ensures RowTotal(i, WIDTH) == RowTotal(i + 1, 0)
  {
    assert (i + 1) * i == i * (i - 1) + 2 * i;
  }

  lemma CoordinateSums()
    ensures Sum(Columns()) == 12249600 && Sum(Rows()) == 9177600
  {
    ColumnSum(PIXELS);
    RowSum(PIXELS);
    assert Columns()[..PIXELS] == Columns() && Rows()[..PIXELS] == Rows();
  }

  lemma {:induction false} DotAtMost(ws: seq<int>, cs: seq<int>, b: int)
    requires |ws| == |cs| && AtMost(ws, b) && forall k :: 0 <= k < |cs| ==> cs[k] >= 0
    ensures Dot(ws, cs) <= Times(b, Sum(cs))
  {
    if ws != [] {
      var n := |ws| - 1;
      DotAtMost(ws[..n], cs[..n], b);
      ProductOrder(cs[n], ws[n], b);
      assert Times(b, Sum(cs)) == Times(b, Sum(cs[..n])) + Times(cs[n], b);
    }
  }

  lemma {:induction false} DotAtLeast(ws: seq<int>, cs: seq<int>, b: int)
    requires |ws| == |cs| && forall k :: 0 <= k < |ws| ==> ws[k] >= b && cs[k] >= 0
    ensures Times(b, Sum(cs)) <= Dot(ws, cs)
  {
    if ws != [] {
      var n := |ws| - 1;
      DotAtLeast(ws[..n], cs[..n], b);
      ProductOrder(cs[n], b, ws[n]);
      assert Times(b, Sum(cs)) == Times(b, Sum(cs[..n])) + Times(cs[n], b);
    }
  }

  lemma MomentsFit(ws: seq<int>)
    requires |ws| == PIXELS && AtMost(ws, WEIGHT_LIMIT)
    ensures CenterOf(ws) != Overflow
  {
    CoordinateSums();
    DotAtMost(ws, Columns(), WEIGHT_LIMIT);
    DotAtMost(ws, Rows(), WEIGHT_LIMIT);
  }

  /** Frames in which every pixel weighs v: the picture's reference byte and the camera are
      v and the picture's luma is 0. */
  lemma UniformWeights(v: byte) returns (pic: seq<byte>, cam: seq<byte>)
    requires v >= 25
    ensures Frame(pic) && Frame(cam) && forall k :: 0 <= k < PIXELS ==> WeightsOf(pic, cam)[k] == v
  {
    pic := seq(2 * PIXELS, k => if k % 2 == 0 then v else 0);
    cam := seq(2 * PIXELS, _ => v);
    SumBounds(Differences(pic, cam), 0, 0);
    assert Offset(pic, cam) == 0;
  }

  /** Uniform weights overflow from 176 on, for one: the column moment does not fit an int. */
  lemma OverflowHappens(v: byte) returns (pic: seq<byte>, cam: seq<byte>)
    requires v > WEIGHT_LIMIT
    ensures Frame(pic) && Frame(cam) && AtMost(WeightsOf(pic, cam), v) && Find(pic, cam) == Overflow
  {
    pic, cam := UniformWeights(v);
    CoordinateSums();
    DotAtLeast(WeightsOf(pic, cam), Columns(), WEIGHT_LIMIT + 1);
  }

  /** No pair of frames with weights up to b overflows. */
  ghost predicate SafeWeights(b: int) {
    forall pic, cam :: Frame(pic) && Frame(cam) && AtMost(WeightsOf(pic, cam), b) ==> Find(pic, cam) != Overflow
  }

  /** Main result: a bound on the weights keeps both moments of every pair of frames inside
      an int exactly when it is at most 175. */
  lemma WeightLimit(b: int)
    ensures SafeWeights(b) <==> b <= WEIGHT_LIMIT
  {
    if b <= WEIGHT_LIMIT {
      forall pic, cam | Frame(pic) && Frame(cam) && AtMost(WeightsOf(pic, cam), b)
        ensures Find(pic, cam) != Overflow
      {
        MomentsFit(WeightsOf(pic, cam));
      }
    } else {
      var pic, cam := OverflowHappens(WEIGHT_LIMIT + 1);
      assert AtMost(WeightsOf(pic, cam), b);
    }
  }

  // ------------------------------------------------------------- the imperative code

  method SumDifferences(pic: seq<byte>, cam: seq<byte>) returns (diff: int)
    requires Frame(pic) && Frame(cam)
    ensures diff == Sum(Differences(pic, cam))
  {
    diff := 0;
    ghost var ds := Differences(pic, cam);
    for i := 0 to HEIGHT
      invariant diff == Sum(ds[..WIDTH * i])
    {
      for j := 0 to WIDTH
        invariant diff == Sum(ds[..WIDTH * i + j])
      {
        SumStep(ds, WIDTH * i + j);
        diff := diff + Minus(pic[2 * (WIDTH * i + j)], cam[2 * (WIDTH * i + j) + 1]);
      }
    }
    assert ds[..PIXELS] == ds;
  }

  /** The accumulators after the first k pixels. */
  ghost predicate Accumulated(ws: seq<int>, k: nat, weight: int, xSum: int, ySum: int)
    requires k <= |ws| == PIXELS
  {
    && weight == Sum(ws[..k])
    && xSum == Dot(ws[..k], Columns()[..k])
    && ySum == Dot(ws[..k], Rows()[..k])
  }

  lemma AccumulateStep(ws: seq<int>, i: nat, j: nat, weight: int, xSum: int, ySum: int)
    requires |ws| == PIXELS && i < HEIGHT && j < WIDTH && Accumulated(ws, WIDTH * i + j, weight, xSum, ySum)
    ensures var w := ws[WIDTH * i + j];
            Accumulated(ws, WIDTH * i + j + 1, weight + w, xSum + Times(w, j), ySum + Times(w, i))
  {
    var k := WIDTH * i + j;
    assert k % WIDTH == j && k / WIDTH == i;
    SumStep(ws, k);
    DotStep(ws, Columns(), k);
    DotStep(ws, Rows(), k);
  }

  /** An accumulator that has left int stays out of it. */
  lemma OverflowIsFinal(ws: seq<int>, k: nat, weight: int, xSum: int, ySum: int)
    requires k <= |ws| == PIXELS && Accumulated(ws, k, weight, xSum, ySum)
    requires forall q :: 0 <= q < |ws| ==> ws[q] >= 0
    requires xSum > INT_MAX || ySum > INT_MAX
    ensures CenterOf(ws) == Overflow
  {
    DotGrows(ws, Columns(), k);
    DotGrows(ws, Rows(), k);
  }

  method PixelWeight(pic: seq<byte>, cam: seq<byte>, diff: int, k: nat) returns (tmp: int)
    requires Frame(pic) && Frame(cam) && k < PIXELS
    ensures tmp == Weights(pic, cam, diff)[k]
  {
    tmp := cam[2 * k + 1] + diff - pic[2 * k + 1];
    if tmp < 25 {
      tmp := 0;
    }
  }

  /** One pixel of the second pass. */
  method AddPixel(pic: seq<byte>, cam: seq<byte>, diff: int, i: nat, j: nat, weight0: int, xSum0: int, ySum0: int)
    returns (weight: int, xSum: int, ySum: int)
    requires Frame(pic) && Frame(cam) && i < HEIGHT && j < WIDTH
    requires Accumulated(Weights(pic, cam, diff), WIDTH * i + j, weight0, xSum0, ySum0)
    ensures Accumulated(Weights(pic, cam, diff), WIDTH * i + j + 1, weight, xSum, ySum)
  {
    AccumulateStep(Weights(pic, cam, diff), i, j, weight0, xSum0, ySum0);
    var tmp := PixelWeight(pic, cam, diff, WIDTH * i + j);
    weight := weight0 + tmp;
    xSum := xSum0 + Times(tmp, j);
    ySum := ySum0 + Times(tmp, i);
  }

  /** The inner loop of the second pass. */
  method AddRow(pic: seq<byte>, cam: seq<byte>, diff: int, i: nat, weight0: int, xSum0: int, ySum0: int)
    returns (overflow: bool, weight: int, xSum: int, ySum: int)
    requires Frame(pic) && Frame(cam) && i < HEIGHT
    requires Accumulated(Weights(pic, cam, diff), WIDTH * i, weight0, xSum0, ySum0)
    requires xSum0 <= INT_MAX && ySum0 <= INT_MAX
    ensures overflow ==> CenterOf(Weights(pic, cam, diff)) == Overflow
    ensures !overflow ==> xSum <= INT_MAX && ySum <= INT_MAX
    ensures !overflow ==> Accumulated(Weights(pic, cam, diff), WIDTH * (i + 1), weight, xSum, ySum)
  {
    overflow, weight, xSum, ySum := false, weight0, xSum0, ySum0;
    ghost var ws := Weights(pic, cam, diff);
    for j := 0 to WIDTH
      invariant Accumulated(ws, WIDTH * i + j, weight, xSum, ySum)
      invariant xSum <= INT_MAX && ySum <= INT_MAX
    {
      weight, xSum, ySum := AddPixel(pic, cam, diff, i, j, weight, xSum, ySum);
      if xSum > INT_MAX || ySum > INT_MAX {
        OverflowIsFinal(ws, WIDTH * i + j + 1, weight, xSum, ySum);
        overflow := true;
        return;
      }
    }
  }

  method FindBlackCenter(pic: seq<byte>, cam: seq<byte>) returns (c: Center)
    requires Frame(pic) && Frame(cam)
    ensures c == Find(pic, cam)
  {
    var diff := SumDifferences(pic, cam);
    diff := TruncDiv(diff, PIXELS);
    ghost var ws := Weights(pic, cam, diff);
    var weight, xSum, ySum := 0, 0, 0;
    for i := 0 to HEIGHT
      invariant Accumulated(ws, WIDTH * i, weight, xSum, ySum)
      invariant xSum <= INT_MAX && ySum <= INT_MAX
    {
      var overflow;
      overflow, weight, xSum, ySum := AddRow(pic, cam, diff, i, weight, xSum, ySum);
      if overflow {
        return Overflow;
      }
    }
    assert ws[..PIXELS] == ws && Columns()[..PIXELS] == Columns() && Rows()[..PIXELS] == Rows();
    if weight <= 0 {
      c := NotFound;
    } else {
      c := At(xSum / weight, ySum / weight);
    }
  }
}
