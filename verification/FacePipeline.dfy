/** The stages before suppression: anchors (ssd_anchors.cxx), box decoding and score
    filtering (tensors_to_detections.cxx), and the whole pipeline of FaceLoop. */
module FacePipeline {
  import opened Bytes
  import opened Detections
  import opened Clustering
  import opened NonMaxSuppression

  const NUM_BOXES := 896
  const NUM_COORDS := 16
  const SCALE := 128.0
  const MIN_SCORE := 0.75
  const FLT_MAX := 340282346638528859811704183484516925440.0
  const STRIDES: seq<nat> := [8, 16, 16, 16]
  const INPUT_SIZE := 128

  // ---------------------------------------------------------------- anchors

  /** ceil(128 / stride) */
  function Side(stride: nat): (s: nat)
    requires stride > 0
    ensures s > 0
  {
    (INPUT_SIZE + stride - 1) / stride
  }

  function Anchor(side: nat, y: nat, x: nat): (d: Detection)
    requires side > 0
  {
    Detection((x as real + 0.5) / side as real, (y as real + 0.5) / side as real, 1.0, 1.0, 0.0, 0)
  }

  /** Anchor k of a run of layers with one stride: n anchors per cell, row by row. */
  function RunAnchor(side: nat, n: nat, k: nat): (d: Detection)
    requires side > 0 && n > 0
  {
    Anchor(side, k / n / side, k / n % side)
  }

  function RunAnchors(side: nat, n: nat): (ds: seq<Detection>)
    requires side > 0 && n > 0
    ensures |ds| == side * side * n
  {
    seq(side * side * n, k requires 0 <= k < side * side * n => RunAnchor(side, n, k))
  }

  /** The first layer after `from` with another stride. */
  function RunEnd(strides: seq<nat>, from: nat, last: nat): (e: nat)
    requires from < |strides| && from <= last <= |strides|
    ensures last <= e <= |strides|
    decreases |strides| - last
  {
    if last < |strides| && strides[last] == strides[from] then RunEnd(strides, from, last + 1) else last
  }

  function Anchors(strides: seq<nat>, layer: nat): (ds: seq<Detection>)
    requires layer <= |strides| && forall i :: 0 <= i < |strides| ==> strides[i] > 0
    decreases |strides| - layer
  {
    if layer == |strides| then []
    else
      var e := RunEnd(strides, layer, layer + 1);
      RunAnchors(Side(strides[layer]), 2 * (e - layer)) + Anchors(strides, e)
  }

  lemma Scaled(a: nat, b: nat, n: nat)
    requires a <= b
    ensures a * n <= b * n
  {
  }

  /** The triple loop visits index ((y * side) + x) * n + a of the run. */
  lemma LoopIndex(side: nat, n: nat, y: nat, x: nat, a: nat)
    requires y < side && x < side && a < n
    ensures (y * side + x) * n + a < side * side * n
    ensures RunAnchor(side, n, (y * side + x) * n + a) == Anchor(side, y, x)
  {
    var cell := y * side + x;
    DivModOf(cell, n, a);
    DivModOf(y, side, x);
    Scaled(y + 1, side, side);
    assert cell + 1 <= side * side;
    Scaled(cell + 1, side * side, n);
    assert (cell + 1) * n == cell * n + n;
  }

  /** The first anchors of a run. */
  ghost predicate Filled(side: nat, n: nat, run: seq<Detection>)
    requires side > 0 && n > 0
  {
    forall k :: 0 <= k < |run| ==> run[k] == RunAnchor(side, n, k)
  }

  /** The innermost loop: the n anchors of one cell. */
  method GenerateCell(side: nat, n: nat, y: nat, x: nat, before: seq<Detection>) returns (run: seq<Detection>)
    requires y < side && x < side && n > 0
    requires |before| == (y * side + x) * n && Filled(side, n, before)
    ensures |run| == |before| + n && Filled(side, n, run)
  {
    run := before;
    for a := 0 to n
      invariant |run| == |before| + a && Filled(side, n, run)
    {
      LoopIndex(side, n, y, x, a);
      var xCenter, yCenter := (x as real + 0.5) * 1.0 / side as real, (y as real + 0.5) * 1.0 / side as real;
      run := run + [Detection(xCenter, yCenter, 1.0, 1.0, 0.0, 0)];
    }
  }

  lemma NextCell(side: nat, n: nat, y: nat, x: nat)
    ensures (y * side + x) * n + n == (y * side + (x + 1)) * n
    ensures (y * side + side) * n == ((y + 1) * side + 0) * n
  {
    assert y * side + side == (y + 1) * side;
  }

  method GenerateRun(side: nat, n: nat) returns (run: seq<Detection>)
    requires side > 0 && n > 0
    ensures run == RunAnchors(side, n)
  {
    run := [];
    for y := 0 to side
      invariant |run| == (y * side + 0) * n && Filled(side, n, run)
    {
      for x := 0 to side
        invariant |run| == (y * side + x) * n && Filled(side, n, run)
      {
        run := GenerateCell(side, n, y, x, run);
        NextCell(side, n, y, x);
      }
      NextCell(side, n, y, 0);
    }
    assert (side * side + 0) * n == side * side * n;
  }

  /** The layers that share the stride of this one, and two ratios for each. */
  method SameStrides(strides: seq<nat>, layer: nat) returns (last: nat, ratios: nat)
    requires layer < |strides|
    ensures layer < last <= |strides| && last == RunEnd(strides, layer, layer + 1) && ratios == 2 * (last - layer)
  {
    last, ratios := layer + 1, 2;
    while last < |strides| && strides[last] == strides[layer]
      invariant layer < last <= |strides|
      invariant ratios == 2 * (last - layer)
      invariant RunEnd(strides, layer, layer + 1) == RunEnd(strides, layer, last)
    {
      last, ratios := last + 1, ratios + 2;
    }
  }

  lemma AnchorsStep(strides: seq<nat>, layer: nat, before: seq<Detection>)
    requires layer < |strides| && forall i :: 0 <= i < |strides| ==> strides[i] > 0
    ensures var e := RunEnd(strides, layer, layer + 1);
            before + Anchors(strides, layer) ==
            (before + RunAnchors(Side(strides[layer]), 2 * (e - layer))) + Anchors(strides, e)
  {
    var e := RunEnd(strides, layer, layer + 1);
    var run, rest := RunAnchors(Side(strides[layer]), 2 * (e - layer)), Anchors(strides, e);
    assert before + (run + rest) == (before + run) + rest;
  }

  /** The layer loop, for any list of strides: equal neighbours are merged into one run. */
  method GenerateAnchors(strides: seq<nat>) returns (ret: seq<Detection>)
    requires forall i :: 0 <= i < |strides| ==> strides[i] > 0
    ensures ret == Anchors(strides, 0)
  {
    ret := [];
    var layer := 0;
    ghost var goal := Anchors(strides, 0);
    while layer < |strides|
      invariant 0 <= layer <= |strides|
      invariant goal == ret + Anchors(strides, layer)
    {
      AnchorsStep(strides, layer, ret);
      var last, ratios := SameStrides(strides, layer);
      var run := GenerateRun(Side(strides[layer]), ratios);
      ret := ret + run;
      layer := last;
    }
  }

  lemma TwoRuns()
    ensures Anchors(STRIDES, 0) == RunAnchors(16, 2) + RunAnchors(8, 6)
  {
    assert RunEnd(STRIDES, 0, 1) == 1;
    assert RunEnd(STRIDES, 1, 2) == 4;
    assert Anchors(STRIDES, 4) == [];
    assert Anchors(STRIDES, 1) == RunAnchors(8, 6);
  }

  /** 512 anchors on the 16 by 16 grid, two a cell, then 384 on the 8 by 8 grid, six a cell. */
  lemma AnchorLayout()
    ensures var ds := Anchors(STRIDES, 0);
            && |ds| == NUM_BOXES
            && (forall i :: 0 <= i < 512 ==> ds[i] == Anchor(16, i / 32, i / 2 % 16))
            && (forall i :: 512 <= i < 896 ==> ds[i] == Anchor(8, (i - 512) / 48, (i - 512) / 6 % 8))
  {
    TwoRuns();
    forall i | 0 <= i < 512
      ensures Anchors(STRIDES, 0)[i] == Anchor(16, i / 32, i / 2 % 16)
    {
      RunAnchorRow(16, 2, 32, i);
    }
    forall i | 512 <= i < 896
      ensures Anchors(STRIDES, 0)[i] == Anchor(8, (i - 512) / 48, (i - 512) / 6 % 8)
    {
      RunAnchorRow(8, 6, 48, i - 512);
    }
  }

  lemma RunAnchorRow(side: nat, n: nat, row: nat, k: nat)
    requires (side == 16 && n == 2 && row == 32) || (side == 8 && n == 6 && row == 48)
    ensures RunAnchor(side, n, k) == Anchor(side, k / row, k / n % side)
  {
    NestedDivision(k);
  }

  lemma NestedDivision(k: nat)
    ensures k / 2 / 16 == k / 32 && k / 6 / 8 == k / 48
  {
  }

  /** The anchors in numbers: the middles of the cells of a 16 by 16 grid, two anchors each, row
      by row, then of an 8 by 8 grid, six each; all of unit size. */
  lemma AnchorCentres(i: nat)
    requires i < NUM_BOXES
    ensures |Anchors(STRIDES, 0)| == 896 && var d := Anchors(STRIDES, 0)[i];
            && (i < 512 ==> 32.0 * d.x == (2 * (i / 2 % 16) + 1) as real && 32.0 * d.y == (2 * (i / 32) + 1) as real)
            && (i >= 512 ==> && 16.0 * d.x == (2 * ((i - 512) / 6 % 8) + 1) as real
                             && 16.0 * d.y == (2 * ((i - 512) / 48) + 1) as real)
            && d.w == 1.0 && d.h == 1.0
  {
    AnchorLayout();
    if i < 512 {
      CellMiddle(16, i / 32, i / 2 % 16);
    } else {
      CellMiddle(8, (i - 512) / 48, (i - 512) / 6 % 8);
    }
  }

  lemma CellMiddle(side: nat, y: nat, x: nat)
    requires side == 16 || side == 8
    ensures var d := Anchor(side, y, x);
            && 2.0 * side as real * d.x == (2 * x + 1) as real
            && 2.0 * side as real * d.y == (2 * y + 1) as real
  {
  }

  // ------------------------------------------------------ decode and filter

  function Decoded(raw: real, size: real): (r: real) {
    raw / SCALE * size
  }

  ghost predicate TensorShape(raw: seq<real>, anchors: seq<Detection>) {
    |raw| == NUM_BOXES * NUM_COORDS && |anchors| == NUM_BOXES
  }

  /** Box i as the model means it: centre and size relative to its anchor. */
  ghost function Candidate(raw: seq<real>, scores: seq<real>, anchors: seq<Detection>, i: nat): (d: Detection)
    requires TensorShape(raw, anchors) && |scores| == NUM_BOXES && i < NUM_BOXES
  {
    var o, a := i * NUM_COORDS, anchors[i];
    Detection(Decoded(raw[o], a.w) + a.x, Decoded(raw[o + 1], a.h) + a.y,
              Decoded(raw[o + 2], a.w), Decoded(raw[o + 3], a.h), scores[i], 0)
  }

  ghost predicate Accepted(raw: seq<real>, scores: seq<real>, anchors: seq<Detection>, i: nat)
    requires TensorShape(raw, anchors) && |scores| == NUM_BOXES && i < NUM_BOXES
  {
    scores[i] >= MIN_SCORE && Candidate(raw, scores, anchors, i).Sized()
  }

  lemma DecodedScale(raw: real, size: real)
    ensures 128.0 * Decoded(raw, size) == raw * size
  {
  }

  /** Box i in the network's units: 128 to the anchor's size, offsets from the anchor's centre. */
  lemma CandidateDecoded(raw: seq<real>, scores: seq<real>, anchors: seq<Detection>, i: nat)
    requires TensorShape(raw, anchors) && |scores| == NUM_BOXES && i < NUM_BOXES
    ensures var d, a := Candidate(raw, scores, anchors, i), anchors[i];
            && 128.0 * (d.x - a.x) == raw[16 * i] * a.w && 128.0 * (d.y - a.y) == raw[16 * i + 1] * a.h
            && 128.0 * d.w == raw[16 * i + 2] * a.w && 128.0 * d.h == raw[16 * i + 3] * a.h
            && d.score == scores[i] && d.classes == 0
  {
    DecodedScale(raw[16 * i], anchors[i].w);
    DecodedScale(raw[16 * i + 1], anchors[i].h);
    DecodedScale(raw[16 * i + 2], anchors[i].w);
    DecodedScale(raw[16 * i + 3], anchors[i].h);
  }

  /** A box is accepted exactly for a score of 0.75 or more and sizes that are not negative. */
  lemma AcceptedIff(raw: seq<real>, scores: seq<real>, anchors: seq<Detection>, i: nat)
    requires TensorShape(raw, anchors) && |scores| == NUM_BOXES && i < NUM_BOXES
    ensures Accepted(raw, scores, anchors, i) <==>
            scores[i] >= 0.75 && raw[16 * i + 2] * anchors[i].w >= 0.0 && raw[16 * i + 3] * anchors[i].h >= 0.0
  {
    CandidateDecoded(raw, scores, anchors, i);
  }

  /** The accepted box numbers below k, in increasing order. */
  ghost function Chosen(raw: seq<real>, scores: seq<real>, anchors: seq<Detection>, k: nat): (ids: seq<nat>)
    requires TensorShape(raw, anchors) && |scores| == NUM_BOXES && k <= NUM_BOXES
    ensures forall j :: 0 <= j < |ids| ==> ids[j] < k && Accepted(raw, scores, anchors, ids[j])
    ensures forall j, l :: 0 <= j < l < |ids| ==> ids[j] < ids[l]
    ensures forall i :: 0 <= i < k && Accepted(raw, scores, anchors, i) ==> i in ids
  {
    if k == 0 then []
    else Chosen(raw, scores, anchors, k - 1) + if Accepted(raw, scores, anchors, k - 1) then [k - 1] else []
  }

  /** The detections handed to suppression: the chosen boxes, in order. */
  ghost predicate Selects(raw: seq<real>, scores: seq<real>, anchors: seq<Detection>, k: nat, out: seq<Detection>)
    requires TensorShape(raw, anchors) && |scores| == NUM_BOXES && k <= NUM_BOXES
  {
    var ids := Chosen(raw, scores, anchors, k);
    |out| == |ids| && forall j :: 0 <= j < |out| ==> out[j] == Candidate(raw, scores, anchors, ids[j])
  }

  /** The four corner values DecodeBoxes leaves at i * 16. */
  ghost predicate Corners(boxes: seq<real>, raw: seq<real>, anchors: seq<Detection>, i: nat)
    requires |boxes| == NUM_BOXES * NUM_COORDS && TensorShape(raw, anchors) && i < NUM_BOXES
  {
    var o, a := i * NUM_COORDS, anchors[i];
    var x, y := Decoded(raw[o], a.w) + a.x, Decoded(raw[o + 1], a.h) + a.y;
    var w, h := Decoded(raw[o + 2], a.w), Decoded(raw[o + 3], a.h);
    boxes[o] == y - h / 2.0 && boxes[o + 1] == x - w / 2.0 && boxes[o + 2] == y + h / 2.0 && boxes[o + 3] == x + w / 2.0
  }

  /** A keypoint coordinate, x at even offsets and y at odd ones. */
  ghost function Keypoint(raw: seq<real>, anchors: seq<Detection>, i: nat, t: nat): (r: real)
    requires TensorShape(raw, anchors) && i < NUM_BOXES && t < NUM_COORDS
  {
    var v := raw[i * NUM_COORDS + t];
    if t % 2 == 0 then Decoded(v, anchors[i].w) + anchors[i].x else Decoded(v, anchors[i].h) + anchors[i].y
  }

  /** Key points are offsets from the anchor's centre in the same units. */
  lemma KeypointDecoded(raw: seq<real>, anchors: seq<Detection>, i: nat, t: nat)
    requires TensorShape(raw, anchors) && i < NUM_BOXES && 4 <= t < NUM_COORDS
    ensures var r, a := Keypoint(raw, anchors, i, t), anchors[i];
            if t % 2 == 0 then 128.0 * (r - a.x) == raw[16 * i + t] * a.w
            else 128.0 * (r - a.y) == raw[16 * i + t] * a.h
  {
    DecodedScale(raw[16 * i + t], anchors[i].w);
    DecodedScale(raw[16 * i + t], anchors[i].h);
  }

  /** The edges left for box i: their middle and distance in the same units. */
  lemma CornersDecoded(boxes: seq<real>, raw: seq<real>, anchors: seq<Detection>, i: nat)
    requires |boxes| == NUM_BOXES * NUM_COORDS && TensorShape(raw, anchors) && i < NUM_BOXES
    requires Corners(boxes, raw, anchors, i)
    ensures var yMin, xMin, yMax, xMax := boxes[16 * i], boxes[16 * i + 1], boxes[16 * i + 2], boxes[16 * i + 3];
            var a := anchors[i];
            && 128.0 * ((xMin + xMax) / 2.0 - a.x) == raw[16 * i] * a.w
            && 128.0 * ((yMin + yMax) / 2.0 - a.y) == raw[16 * i + 1] * a.h
            && 128.0 * (xMax - xMin) == raw[16 * i + 2] * a.w
            && 128.0 * (yMax - yMin) == raw[16 * i + 3] * a.h
  {
    var scores := seq(NUM_BOXES, _ => 0.0);
    CandidateDecoded(raw, scores, anchors, i);
    var d := Candidate(raw, scores, anchors, i);
    assert boxes[16 * i] == d.Top() && boxes[16 * i + 1] == d.Left();
    assert boxes[16 * i + 2] == d.Bottom() && boxes[16 * i + 3] == d.Right();
  }

  /** The twelve keypoint values behind the corners. */
  ghost predicate Keypoints(boxes: seq<real>, raw: seq<real>, anchors: seq<Detection>, i: nat)
    requires |boxes| == NUM_BOXES * NUM_COORDS && TensorShape(raw, anchors) && i < NUM_BOXES
  {
    forall t :: 4 <= t < NUM_COORDS ==> boxes[i * NUM_COORDS + t] == Keypoint(raw, anchors, i, t)
  }

  /** Cells in front of the box now decoded do not change. */
  lemma DecodedStays(before: seq<real>, now: seq<real>, raw: seq<real>, anchors: seq<Detection>, i: nat, j: nat)
    requires |before| == |now| == NUM_BOXES * NUM_COORDS && TensorShape(raw, anchors) && j < i < NUM_BOXES
    requires forall k :: 0 <= k < i * NUM_COORDS ==> now[k] == before[k]
    requires Corners(before, raw, anchors, j) && Keypoints(before, raw, anchors, j)
    ensures Corners(now, raw, anchors, j) && Keypoints(now, raw, anchors, j)
  {
  }

  method DecodeBox(raw: seq<real>, anchors: seq<Detection>, boxes: array<real>, i: nat)
    requires TensorShape(raw, anchors) && boxes.Length == NUM_BOXES * NUM_COORDS && i < NUM_BOXES
    modifies boxes
    ensures forall k :: 0 <= k < boxes.Length && !(i * NUM_COORDS <= k < (i + 1) * NUM_COORDS) ==>
              boxes[k] == old(boxes[k])
    ensures Corners(boxes[..], raw, anchors, i) && Keypoints(boxes[..], raw, anchors, i)
  {
    var offset := i * NUM_COORDS;
    var xCenter := Decoded(raw[offset], anchors[i].w) + anchors[i].x;
    var yCenter := Decoded(raw[offset + 1], anchors[i].h) + anchors[i].y;
    var h := Decoded(raw[offset + 3], anchors[i].h);
    var w := Decoded(raw[offset + 2], anchors[i].w);
    boxes[offset] := yCenter - h / 2.0;
    boxes[offset + 1] := xCenter - w / 2.0;
    boxes[offset + 2] := yCenter + h / 2.0;
    boxes[offset + 3] := xCenter + w / 2.0;
    DecodeKeypoints(raw, anchors, boxes, i);
  }

  /** The keypoint loop of one box. */
  method DecodeKeypoints(raw: seq<real>, anchors: seq<Detection>, boxes: array<real>, i: nat)
    requires TensorShape(raw, anchors) && boxes.Length == NUM_BOXES * NUM_COORDS && i < NUM_BOXES
    modifies boxes
    ensures forall k :: 0 <= k < boxes.Length && !(i * NUM_COORDS + 4 <= k < (i + 1) * NUM_COORDS) ==>
              boxes[k] == old(boxes[k])
    ensures Keypoints(boxes[..], raw, anchors, i)
  {
    var offset := i * NUM_COORDS;
    for k := 0 to 6
      invariant forall j :: 0 <= j < boxes.Length && !(offset + 4 <= j < offset + NUM_COORDS) ==>
                  boxes[j] == old(boxes[j])
      invariant forall t :: 4 <= t < 4 + 2 * k ==> boxes[offset + t] == Keypoint(raw, anchors, i, t)
    {
      var at := offset + 4 + k * 2;
      boxes[at] := Decoded(raw[at], anchors[i].w) + anchors[i].x;
      boxes[at + 1] := Decoded(raw[at + 1], anchors[i].h) + anchors[i].y;
    }
  }

  method DecodeBoxes(raw: seq<real>, anchors: seq<Detection>) returns (boxes: array<real>)
    requires TensorShape(raw, anchors)
    ensures boxes.Length == NUM_BOXES * NUM_COORDS && fresh(boxes)
    ensures forall i :: 0 <= i < NUM_BOXES ==>
              Corners(boxes[..], raw, anchors, i) && Keypoints(boxes[..], raw, anchors, i)
  {
    boxes := new real[NUM_BOXES * NUM_COORDS](_ => 0.0);
    for i := 0 to NUM_BOXES
      invariant forall j :: 0 <= j < i ==> Corners(boxes[..], raw, anchors, j) && Keypoints(boxes[..], raw, anchors, j)
    {
      ghost var before := boxes[..];
      DecodeBox(raw, anchors, boxes, i);
      ghost var now := boxes[..];
      forall j | 0 <= j < i
        ensures Corners(now, raw, anchors, j) && Keypoints(now, raw, anchors, j)
      {
        DecodedStays(before, now, raw, anchors, i, j);
      }
    }
  }

  function ConvertToDetection(yMin: real, xMin: real, yMax: real, xMax: real, score: real, classId: int): (d: Detection)
    ensures d.Left() == xMin && d.Right() == xMax && d.Top() == yMin && d.Bottom() == yMax
    ensures d.score == score && d.classes == classId
  {
    Detection((xMin + xMax) / 2.0, (yMin + yMax) / 2.0, xMax - xMin, yMax - yMin, score, classId)
  }

  method Tensors2Detections(raw: seq<real>, scores: seq<real>, anchors: seq<Detection>) returns (out: seq<Detection>)
    requires TensorShape(raw, anchors) && |scores| == NUM_BOXES
    ensures Selects(raw, scores, anchors, NUM_BOXES, out)
  {
    var boxes := DecodeBoxes(raw, anchors);
    ghost var decoded := boxes[..];
    out := [];
    for i := 0 to NUM_BOXES
      invariant boxes[..] == decoded
      invariant Selects(raw, scores, anchors, i, out)
    {
      assert Corners(decoded, raw, anchors, i);
      var accepted, detection := ConvertBox(boxes, i, raw, scores, anchors);
      SelectsStep(raw, scores, anchors, i, out);
      if accepted {
        out := out + [detection];
      }
    }
  }

  /** The class loop and the two filters for box i. */
  method ConvertBox(boxes: array<real>, i: nat, ghost raw: seq<real>, scores: seq<real>, ghost anchors: seq<Detection>)
    returns (accepted: bool, detection: Detection)
    requires boxes.Length == NUM_BOXES * NUM_COORDS && i < NUM_BOXES
    requires TensorShape(raw, anchors) && |scores| == NUM_BOXES && Corners(boxes[..], raw, anchors, i)
    ensures accepted == Accepted(raw, scores, anchors, i)
    ensures accepted ==> detection == Candidate(raw, scores, anchors, i)
  {
    var classId, maxScore := -1, -FLT_MAX;
    if maxScore < scores[i] {
      maxScore := scores[i];
      classId := 0;
    }
    var o := i * NUM_COORDS;
    detection := ConvertToDetection(boxes[o], boxes[o + 1], boxes[o + 2], boxes[o + 3], maxScore, classId);
    accepted := maxScore >= MIN_SCORE && !(detection.w < 0.0 || detection.h < 0.0);
  }

  lemma SelectsStep(raw: seq<real>, scores: seq<real>, anchors: seq<Detection>, i: nat, out: seq<Detection>)
    requires TensorShape(raw, anchors) && |scores| == NUM_BOXES && i < NUM_BOXES
    requires Selects(raw, scores, anchors, i, out)
    ensures var more := if Accepted(raw, scores, anchors, i) then [Candidate(raw, scores, anchors, i)] else [];
            Selects(raw, scores, anchors, i + 1, out + more)
  {
    assert out + [] == out;
  }

  // ------------------------------------------------------- the whole pipeline

  /** Whatever the network outputs, suppression gets boxes it can divide by. */
  lemma SelectionIsScored(raw: seq<real>, scores: seq<real>, anchors: seq<Detection>, out: seq<Detection>)
    requires TensorShape(raw, anchors) && |scores| == NUM_BOXES && Selects(raw, scores, anchors, NUM_BOXES, out)
    ensures Scored(out)
    ensures out == [] <==> forall i :: 0 <= i < NUM_BOXES ==> !Accepted(raw, scores, anchors, i)
  {
    var ids := Chosen(raw, scores, anchors, NUM_BOXES);
    forall j | 0 <= j < |out|
      ensures out[j].Sized() && out[j].score > 0.0
    {
      assert Accepted(raw, scores, anchors, ids[j]);
    }
    if out == [] {
      forall i | 0 <= i < NUM_BOXES
        ensures !Accepted(raw, scores, anchors, i)
      {
        assert i !in ids;
      }
    } else {
      assert Accepted(raw, scores, anchors, ids[0]);
    }
  }

  /** ssdAnchors, the table every box is decoded against. */
  function SsdAnchors(): (ds: seq<Detection>)
    ensures |ds| == NUM_BOXES
  {
    AnchorLayout();
    Anchors(STRIDES, 0)
  }

  /** Detection d is box i of the network's output, in numbers. */
  ghost predicate IsBox(raw: seq<real>, scores: seq<real>, i: nat, d: Detection)
    requires |raw| == NUM_BOXES * NUM_COORDS && |scores| == NUM_BOXES && i < NUM_BOXES
  {
    var a := SsdAnchors()[i];
    && 128.0 * (d.x - a.x) == raw[16 * i] && 128.0 * (d.y - a.y) == raw[16 * i + 1]
    && 128.0 * d.w == raw[16 * i + 2] && 128.0 * d.h == raw[16 * i + 3]
    && d.score == scores[i] && d.classes == 0
  }

  /** Box i has a score of 0.75 or more and sizes that are not negative. */
  ghost predicate GoodBox(raw: seq<real>, scores: seq<real>, i: nat)
    requires |raw| == NUM_BOXES * NUM_COORDS && |scores| == NUM_BOXES && i < NUM_BOXES
  {
    scores[i] >= 0.75 && raw[16 * i + 2] >= 0.0 && raw[16 * i + 3] >= 0.0
  }

  lemma BoxInNumbers(raw: seq<real>, scores: seq<real>, i: nat)
    requires |raw| == NUM_BOXES * NUM_COORDS && |scores| == NUM_BOXES && i < NUM_BOXES
    ensures IsBox(raw, scores, i, Candidate(raw, scores, SsdAnchors(), i))
    ensures Accepted(raw, scores, SsdAnchors(), i) <==> GoodBox(raw, scores, i)
  {
    AnchorCentres(i);
    AcceptedIff(raw, scores, SsdAnchors(), i);
    CandidateDecoded(raw, scores, SsdAnchors(), i);
  }

  /** What the network's output selects, in numbers: exactly the boxes with a score of 0.75 or
      more and sizes that are not negative, in order. */
  lemma SelectionInNumbers(raw: seq<real>, scores: seq<real>, out: seq<Detection>) returns (ids: seq<nat>)
    requires |raw| == NUM_BOXES * NUM_COORDS && |scores| == NUM_BOXES
    requires Selects(raw, scores, SsdAnchors(), NUM_BOXES, out)
    ensures |ids| == |out|
    ensures forall j, l :: 0 <= j < l < |ids| ==> ids[j] < ids[l]
    ensures forall i: nat :: i in ids <==> i < NUM_BOXES && GoodBox(raw, scores, i)
    ensures forall j :: 0 <= j < |out| ==> ids[j] < NUM_BOXES && IsBox(raw, scores, ids[j], out[j])
  {
    var anchors := SsdAnchors();
    ids := Chosen(raw, scores, anchors, NUM_BOXES);
    forall i: nat
      ensures i in ids <==> i < NUM_BOXES && GoodBox(raw, scores, i)
    {
      if i < NUM_BOXES {
        BoxInNumbers(raw, scores, i);
      }
    }
    forall j | 0 <= j < |out|
      ensures ids[j] < NUM_BOXES && IsBox(raw, scores, ids[j], out[j])
    {
      BoxInNumbers(raw, scores, ids[j]);
    }
  }

  /** s is the score of some accepted box. */
  ghost predicate AcceptedScore(raw: seq<real>, scores: seq<real>, anchors: seq<Detection>, s: real)
    requires TensorShape(raw, anchors) && |scores| == NUM_BOXES
  {
    exists i :: 0 <= i < NUM_BOXES && Accepted(raw, scores, anchors, i) && scores[i] == s
  }

  /** The pipeline's promise: a face is reported exactly when some box is accepted, every
      score is one of an accepted box, the first the best, and no width is negative. */
  ghost predicate Reports(raw: seq<real>, scores: seq<real>, anchors: seq<Detection>, nms: seq<Detection>)
    requires TensorShape(raw, anchors) && |scores| == NUM_BOXES
  {
    && (nms == [] <==> forall i :: 0 <= i < NUM_BOXES ==> !Accepted(raw, scores, anchors, i))
    && (forall i :: 0 <= i < NUM_BOXES && Accepted(raw, scores, anchors, i) ==>
          nms != [] && nms[0].score >= scores[i])
    && (forall c :: 0 <= c < |nms| ==> nms[c].w >= 0.0 && AcceptedScore(raw, scores, anchors, nms[c].score))
  }

  lemma SuppressionReports(raw: seq<real>, scores: seq<real>, anchors: seq<Detection>,
                           detected: seq<Detection>, order: seq<nat>)
    requires TensorShape(raw, anchors) && |scores| == NUM_BOXES
    requires Selects(raw, scores, anchors, NUM_BOXES, detected) && Ranking(detected, order)
    ensures Scored(detected) && Reports(raw, scores, anchors, Suppressed(detected, order))
  {
    SelectionIsScored(raw, scores, anchors, detected);
    MergedWidths(detected, order);
    var ids := Chosen(raw, scores, anchors, NUM_BOXES);
    forall i | 0 <= i < NUM_BOXES && Accepted(raw, scores, anchors, i)
      ensures Suppressed(detected, order) != [] && Suppressed(detected, order)[0].score >= scores[i]
    {
      var j :| 0 <= j < |ids| && ids[j] == i;
      BestFirst(detected, order, j);
    }
    forall c | 0 <= c < |Suppressed(detected, order)|
      ensures AcceptedScore(raw, scores, anchors, Suppressed(detected, order)[c].score)
    {
      var m := MergedScore(detected, order, c);
      assert scores[ids[m]] == detected[m].score;
    }
  }

  /** FaceLoop up to the detections it reports. */
  method DetectFaces(raw: seq<real>, scores: seq<real>)
    returns (nms: seq<Detection>, ghost detected: seq<Detection>, ghost order: seq<nat>)
    requires |raw| == NUM_BOXES * NUM_COORDS && |scores| == NUM_BOXES
    ensures Selects(raw, scores, SsdAnchors(), NUM_BOXES, detected)
    ensures Scored(detected) && Ranking(detected, order) && nms == Suppressed(detected, order)
    ensures Reports(raw, scores, SsdAnchors(), nms)
  {
    var anchors := GenerateAnchors(STRIDES);
    assert anchors == SsdAnchors();
    var selected := Tensors2Detections(raw, scores, anchors);
    detected := selected;
    SelectionIsScored(raw, scores, anchors, detected);
    nms, order := Suppress(selected);
    SuppressionReports(raw, scores, anchors, detected, order);
  }

  /** A detection returned carries the score of the box that leads its cluster. */
  lemma MergedScore(bb: seq<Detection>, order: seq<nat>, c: nat) returns (m: nat)
    requires Scored(bb) && Ranking(bb, order) && c < |Suppressed(bb, order)|
    ensures m < |bb| && Suppressed(bb, order)[c].score == bb[m].score
  {
    ClustersFit(bb, Near(bb), order);
    var cs := Clusters(Near(bb), order);
    assert cs[c] in cs;
    m := cs[c].leader;
  }

  lemma MergedWidths(bb: seq<Detection>, order: seq<nat>)
    requires Scored(bb) && Ranking(bb, order)
    ensures forall c :: 0 <= c < |Suppressed(bb, order)| ==> Suppressed(bb, order)[c].w >= 0.0
    ensures bb == [] ==> Suppressed(bb, order) == []
  {
    var near := Near(bb);
    ClustersFit(bb, near, order);
    var cs := Clusters(near, order);
    forall c | 0 <= c < |cs|
      ensures Merge(bb, cs[c]).w >= 0.0
    {
      assert cs[c] in cs;
      MergeWidth(bb, cs[c]);
    }
  }
}
