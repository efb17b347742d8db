/** Weighted non-maximum suppression (non_max_suppression.cxx).  The worklist of
    (index, score) pairs is a sequence of indices; the score is bb[index].score. */
module NonMaxSuppression {
  import opened Detections
  import opened Clustering
  import opened WeightedMeans

  const THRESHOLD := 0.3

  // ------------------------------------------------- boxes as a relation

  function Near(bb: seq<Detection>): (r: Relation) {
    (i: nat, j: nat) => i < |bb| && j < |bb| && Overlap(bb[i], bb[j]) > THRESHOLD
  }

  function NoArea(bb: seq<Detection>): (f: nat -> bool) {
    (i: nat) => i < |bb| ==> bb[i].Flat()
  }

  function Score(bb: seq<Detection>): (f: nat -> real) {
    (i: nat) => if i < |bb| then bb[i].score else 0.0
  }

  /** What the detection stage hands over: sized boxes with positive scores. */
  predicate Scored(bb: seq<Detection>) {
    forall i :: 0 <= i < |bb| ==> bb[i].Sized() && bb[i].score > 0.0
  }

  /** Every entry names a box. */
  predicate Indices(bb: seq<Detection>, work: seq<nat>) {
    forall k :: 0 <= k < |work| ==> work[k] < |bb|
  }

  /** A result that std::sort with SortBySecond may produce: any descending permutation. */
  ghost predicate Ranking(bb: seq<Detection>, order: seq<nat>) {
    && |order| == |bb|
    && Indices(bb, order)
    && (forall i :: 0 <= i < |bb| ==> i in order)
    && Descending(Score(bb), order)
  }

  lemma AreaIsolates(bb: seq<Detection>)
    requires Scored(bb)
    ensures Isolates(Near(bb), NoArea(bb))
  {
    var near, flat := Near(bb), NoArea(bb);
    forall i: nat, j: nat | flat(i) || flat(j)
      ensures !near(i, j)
    {
      if i < |bb| && j < |bb| {
        OverlapMeasure(bb[i], bb[j]);
      }
    }
    forall i: nat | !flat(i)
      ensures near(i, i)
    {
      OverlapMeasure(bb[i], bb[i]);
    }
  }

  /** Two boxes are clustered exactly when thirteen times their common area exceeds three times
      the sum of their areas. */
  lemma NearInAreas(bb: seq<Detection>, i: nat, j: nat)
    requires i < |bb| && j < |bb|
    ensures Near(bb)(i, j) <==>
            Meet(bb[i], bb[j]) && 13.0 * CommonArea(bb[i], bb[j]) > 3.0 * (bb[i].Area() + bb[j].Area())
  {
    OverlapThreshold(bb[i], bb[j]);
  }

  // ------------------------------------------------------- weighted merge

  /** The three edges the merge averages; XMax also feeds the bottom edge. */
  datatype Edge = XMin | YMin | XMax

  function EdgeOf(d: Detection, e: Edge): (r: real) {
    match e
    case XMin => d.Left()
    case YMin => d.Top()
    case XMax => d.Right()
  }

  /** The entries' scores, and one of their edges. */
  function Scores(bb: seq<Detection>, ms: seq<nat>): (ss: seq<real>)
    requires Indices(bb, ms)
  {
    seq(|ms|, k requires 0 <= k < |ms| => bb[ms[k]].score)
  }

  function Edges(bb: seq<Detection>, ms: seq<nat>, e: Edge): (xs: seq<real>)
    requires Indices(bb, ms)
  {
    seq(|ms|, k requires 0 <= k < |ms| => EdgeOf(bb[ms[k]], e))
  }

  function Mean(bb: seq<Detection>, ms: seq<nat>, e: Edge): (r: real)
    requires Indices(bb, ms) && Scored(bb) && ms != []
  {
    WeightedMean(Edges(bb, ms, e), Scores(bb, ms))
  }

  /** A cluster whose indices name boxes. */
  predicate Fits(bb: seq<Detection>, c: Cluster) {
    c.leader < |bb| && Indices(bb, c.members)
  }

  /** The detection pushed for a cluster; y_max is x_max, as in the code. */
  function Merge(bb: seq<Detection>, c: Cluster): (d: Detection)
    requires Scored(bb) && Fits(bb, c)
  {
    if c.members == [] then bb[c.leader]
    else
      var xMin, yMin, xMax := Mean(bb, c.members, XMin), Mean(bb, c.members, YMin), Mean(bb, c.members, XMax);
      bb[c.leader].(x := (xMin + xMax) / 2.0, y := (yMin + xMax) / 2.0, w := xMax - xMin, h := xMax - yMin)
  }

  /** A merged box keeps its leader's score and class; its left, right and top edge
      lie between the extremes of its members and its width is not negative.  Its
      bottom edge is its right edge. */
  lemma MergeBounds(bb: seq<Detection>, c: Cluster, left: (real, real), right: (real, real), top: (real, real))
    requires Scored(bb) && Fits(bb, c) && c.members != []
    requires forall m :: m in c.members ==>
               && left.0 <= bb[m].Left() <= left.1
               && right.0 <= bb[m].Right() <= right.1
               && top.0 <= bb[m].Top() <= top.1
    ensures var d := Merge(bb, c);
            && d.score == bb[c.leader].score && d.classes == bb[c.leader].classes
            && left.0 <= d.Left() <= left.1
            && right.0 <= d.Right() <= right.1
            && top.0 <= d.Top() <= top.1
            && d.w >= 0.0
            && d.Bottom() == d.Right()
  {
    MeanBetween(Edges(bb, c.members, XMin), Scores(bb, c.members), left.0, left.1);
    MeanBetween(Edges(bb, c.members, XMax), Scores(bb, c.members), right.0, right.1);
    MeanBetween(Edges(bb, c.members, YMin), Scores(bb, c.members), top.0, top.1);
    MeanOrder(Edges(bb, c.members, XMin), Edges(bb, c.members, XMax), Scores(bb, c.members));
  }

  lemma MergeWidth(bb: seq<Detection>, c: Cluster)
    requires Scored(bb) && Fits(bb, c)
    ensures Merge(bb, c).w >= 0.0
  {
    if c.members != [] {
      MeanOrder(Edges(bb, c.members, XMin), Edges(bb, c.members, XMax), Scores(bb, c.members));
    }
  }

  /** Averaging one box gives that box back exactly when its bottom equals its right edge. */
  lemma MergeOfOne(bb: seq<Detection>, i: nat)
    requires Scored(bb) && i < |bb|
    ensures Merge(bb, Cluster(i, [i])) == bb[i] <==> bb[i].Bottom() == bb[i].Right()
  {
    var d := bb[i];
    forall e: Edge
      ensures Mean(bb, [i], e) == EdgeOf(d, e)
    {
      MeanBetween(Edges(bb, [i], e), Scores(bb, [i]), EdgeOf(d, e), EdgeOf(d, e));
    }
    var r := Merge(bb, Cluster(i, [i]));
    assert r.x == d.x && r.w == d.w;
    assert r.y == (d.Top() + d.Right()) / 2.0 && r.h == d.Right() - d.Top();
  }

  lemma WeightedOfTwo(x: real, y: real, s: real, t: real)
    requires s > 0.0 && t > 0.0
    ensures WeightedMean([x, y], [s, t]) * (s + t) == x * s + y * t
  {
    assert [x, y][..1] == [x] && [s, t][..1] == [s] && [x][..0] == [] && [s][..0] == [];
    assert Total([s]) == s && Weighted([x], [s]) == x * s;
    assert Total([s, t]) == s + t && Weighted([x, y], [s, t]) == x * s + y * t;
    TotalPositive([s, t]);
    OverTimes(x * s + y * t, s + t);
  }

  lemma MeanOfTwo(bb: seq<Detection>, i: nat, j: nat, e: Edge)
    requires Scored(bb) && i < |bb| && j < |bb|
    ensures Mean(bb, [i, j], e) * (bb[i].score + bb[j].score) ==
            EdgeOf(bb[i], e) * bb[i].score + EdgeOf(bb[j], e) * bb[j].score
  {
    assert Edges(bb, [i, j], e) == [EdgeOf(bb[i], e), EdgeOf(bb[j], e)];
    assert Scores(bb, [i, j]) == [bb[i].score, bb[j].score];
    WeightedOfTwo(EdgeOf(bb[i], e), EdgeOf(bb[j], e), bb[i].score, bb[j].score);
  }

  /** The edges of two merged boxes, each counted by its score. */
  lemma MergeOfTwo(bb: seq<Detection>, i: nat, j: nat)
    requires Scored(bb) && i < |bb| && j < |bb|
    ensures var d, a, b := Merge(bb, Cluster(i, [i, j])), bb[i], bb[j];
            && d.Left() * (a.score + b.score) == a.Left() * a.score + b.Left() * b.score
            && d.Right() * (a.score + b.score) == a.Right() * a.score + b.Right() * b.score
            && d.Top() * (a.score + b.score) == a.Top() * a.score + b.Top() * b.score
  {
    MeanOfTwo(bb, i, j, XMin);
    MeanOfTwo(bb, i, j, XMax);
    MeanOfTwo(bb, i, j, YMin);
    var d := Merge(bb, Cluster(i, [i, j]));
    assert d.Left() == Mean(bb, [i, j], XMin) && d.Right() == Mean(bb, [i, j], XMax);
    assert d.Top() == Mean(bb, [i, j], YMin);
  }

  /** A leader without area is returned as it is. */
  lemma FlatUnchanged(bb: seq<Detection>, order: seq<nat>, c: nat)
    requires Scored(bb) && Ranking(bb, order) && c < |Clusters(Near(bb), order)|
    ensures var l := Clusters(Near(bb), order)[c].leader;
            l < |bb| && (bb[l].Flat() ==> Suppressed(bb, order)[c] == bb[l])
  {
    AreaIsolates(bb);
    RefinesGreedy(Near(bb), NoArea(bb), order);
    ClustersFit(bb, Near(bb), order);
    var cs := Clusters(Near(bb), order);
    assert cs[c] in cs;
    if bb[cs[c].leader].Flat() && cs[c].members != [] {
      var m := cs[c].members[0];
      MemberOfFirst(Near(bb), NoArea(bb), order, c, m);
    }
  }

  function Merged(bb: seq<Detection>, cs: seq<Cluster>): (ds: seq<Detection>)
    requires Scored(bb) && forall c :: c in cs ==> Fits(bb, c)
    ensures |ds| == |cs|
    ensures forall c :: 0 <= c < |cs| ==> ds[c] == Merge(bb, cs[c])
  {
    if cs == [] then [] else [Merge(bb, cs[0])] + Merged(bb, cs[1..])
  }

  lemma {:induction false} ClustersFit(bb: seq<Detection>, near: Relation, work: seq<nat>)
    requires Indices(bb, work)
    ensures forall c :: c in Clusters(near, work) ==> Fits(bb, c)
    decreases |work|
  {
    if work != [] {
      var remained := Pick(near, work, work[0], false);
      PickFits(bb, near, work, work[0], false);
      PickFits(bb, near, work, work[0], true);
      if |remained| < |work| {
        ClustersFit(bb, near, remained);
      }
    }
  }

  lemma PickFits(bb: seq<Detection>, near: Relation, work: seq<nat>, lead: nat, keep: bool)
    requires Indices(bb, work)
    ensures Indices(bb, Pick(near, work, lead, keep))
  {
    var r := Pick(near, work, lead, keep);
    forall k | 0 <= k < |r|
      ensures r[k] < |bb|
    {
      assert r[k] in work;
    }
  }

  // ---------------------------------------------------- suppression as a whole

  /** The detections returned for a ranking of the boxes. */
  ghost function Suppressed(bb: seq<Detection>, order: seq<nat>): (ds: seq<Detection>)
    requires Scored(bb) && Indices(bb, order)
  {
    ClustersFit(bb, Near(bb), order);
    Merged(bb, Clusters(Near(bb), order))
  }

  /** Main result, for every ranking: the detections returned are the merged greedy
      clusters up to the first leader without area, and all of them exactly when no
      leader but the last has zero area. */
  lemma SuppressionIsGreedy(bb: seq<Detection>, order: seq<nat>)
    requires Scored(bb) && Ranking(bb, order)
    ensures var near := Near(bb);
            var leaders, cut := Leaders(near, order, |order|), UpToFlat(NoArea(bb), Greedy(near, order));
            && cut <= Greedy(near, order)
            && LeadersOf(Greedy(near, order)) == leaders
            && (forall c :: c in cut ==> Fits(bb, c))
            && Suppressed(bb, order) == Merged(bb, cut)
            && (|Suppressed(bb, order)| == |leaders| <==>
                forall c :: 0 <= c < |leaders| - 1 ==> !NoArea(bb)(leaders[c]))
  {
    AreaIsolates(bb);
    StopsAtFlat(Near(bb), NoArea(bb), order);
    RefinesGreedy(Near(bb), NoArea(bb), order);
    GreedyLeaders(Near(bb), order);
    ClustersFit(bb, Near(bb), order);
  }

  /** Leaders are mutually at most 0.3 similar, scores fall from the input's maximum. */
  lemma LeadersSpread(bb: seq<Detection>, order: seq<nat>, c: nat, d: nat)
    requires Scored(bb) && Ranking(bb, order) && c < d < |Clusters(Near(bb), order)|
    ensures var cs := Clusters(Near(bb), order);
            && Fits(bb, cs[c]) && Fits(bb, cs[d])
            && Overlap(bb[cs[d].leader], bb[cs[c].leader]) <= THRESHOLD
            && Suppressed(bb, order)[c].score >= Suppressed(bb, order)[d].score
  {
    AreaIsolates(bb);
    RefinesGreedy(Near(bb), NoArea(bb), order);
    ClustersFit(bb, Near(bb), order);
    LeadersApart(Near(bb), order, c, d);
    LeaderOutscores(Near(bb), Score(bb), order, c);
    var cs := Clusters(Near(bb), order);
    assert cs[c] in cs && cs[d] in cs;
    assert !Near(bb)(cs[d].leader, cs[c].leader);
  }

  /** The first detection returned carries the best score of the input. */
  lemma BestFirst(bb: seq<Detection>, order: seq<nat>, m: nat)
    requires Scored(bb) && Ranking(bb, order) && m < |bb|
    ensures Suppressed(bb, order) != [] && Suppressed(bb, order)[0].score >= bb[m].score
  {
    ClustersFit(bb, Near(bb), order);
    HeadIsTop(Score(bb), order, m);
    var cs := Clusters(Near(bb), order);
    assert cs[0] in cs;
    assert cs[0].leader == order[0];
    assert Score(bb)(order[0]) >= Score(bb)(m);
  }

  /** When every box has area, each one lies in exactly one cluster returned, that of
      the first leader it overlaps by more than 0.3, which scores at least as high. */
  lemma EveryBoxOnce(bb: seq<Detection>, order: seq<nat>, m: nat) returns (c: nat)
    requires Scored(bb) && Ranking(bb, order) && m < |bb|
    requires forall i :: 0 <= i < |bb| ==> !bb[i].Flat()
    ensures var cs := Clusters(Near(bb), order);
            && OnlyCluster(cs, c, m)
            && cs[c].leader < |bb|
            && Overlap(bb[m], bb[cs[c].leader]) > THRESHOLD
            && FarFromFirst(Near(bb), m, cs, c)
            && bb[cs[c].leader].score >= bb[m].score
  {
    var near, flat := Near(bb), NoArea(bb);
    AreaIsolates(bb);
    RefinesGreedy(near, flat, order);
    AllLeadersHaveArea(bb, order);
    var cs := Clusters(near, order);
    assert cs == Greedy(near, order);
    c := OneClusterEach(near, flat, order, m);
    MemberOfFirst(near, flat, order, c, m);
    LeaderOutscores(near, Score(bb), order, c);
    assert near(m, cs[c].leader);
    assert Score(bb)(cs[c].leader) >= Score(bb)(m);
  }

  lemma AllLeadersHaveArea(bb: seq<Detection>, order: seq<nat>)
    requires Indices(bb, order) && forall i :: 0 <= i < |bb| ==> !bb[i].Flat()
    ensures forall l :: l in Leaders(Near(bb), order, |order|) ==> !NoArea(bb)(l)
  {
    LeadersAreThose(Near(bb), order, |order|);
  }

  // ----------------------------------------------------- the imperative code

  /** Stands for std::sort: callers may rely on nothing but the ranking. */
  method SortByScore(bb: seq<Detection>) returns (order: seq<nat>)
    ensures Ranking(bb, order)
  {
    order := [];
    for n := 0 to |bb|
      invariant |order| == n
      invariant Indices(bb, order)
      invariant forall i :: 0 <= i < n ==> i in order
      invariant Descending(Score(bb), order)
    {
      var p := 0;
      while p < |order| && bb[order[p]].score >= bb[n].score
        invariant 0 <= p <= |order|
        invariant forall k :: 0 <= k < p ==> Score(bb)(order[k]) >= Score(bb)(n)
      {
        p := p + 1;
      }
      InsertRanked(Score(bb), order, p, n);
      order := order[..p] + [n] + order[p..];
    }
  }

  lemma InsertRanked(score: nat -> real, order: seq<nat>, p: nat, n: nat)
    requires Descending(score, order) && p <= |order|
    requires forall k :: 0 <= k < p ==> score(order[k]) >= score(n)
    requires p < |order| ==> score(n) >= score(order[p])
    ensures Descending(score, order[..p] + [n] + order[p..])
    ensures forall i :: i in order || i == n ==> i in order[..p] + [n] + order[p..]
  {
    var r := order[..p] + [n] + order[p..];
    forall j, k | 0 <= j < k < |r|
      ensures score(r[j]) >= score(r[k])
    {
      assert j < p ==> r[j] == order[j];
      assert j > p ==> r[j] == order[j - 1];
      assert k < p ==> r[k] == order[k];
      assert k > p ==> r[k] == order[k - 1];
    }
    forall i | i in order || i == n
      ensures i in r
    {
      if i == n {
        assert r[p] == n;
      } else {
        var k :| 0 <= k < |order| && order[k] == i;
        assert r[if k < p then k else k + 1] == i;
      }
    }
  }

  /** Taking the next entry of the worklist moves it behind the entries picked so far. */
  lemma PickStep(near: Relation, work: seq<nat>, k: nat, lead: nat, keep: bool, picked: seq<nat>)
    requires k < |work|
    ensures var more := if near(work[k], lead) == keep then [work[k]] else [];
            picked + Pick(near, work[k..], lead, keep) == (picked + more) + Pick(near, work[k + 1..], lead, keep)
  {
    assert work[k..][1..] == work[k + 1..];
  }

  lemma NearIs(bb: seq<Detection>, i: nat, j: nat)
    requires i < |bb| && j < |bb|
    ensures Near(bb)(i, j) == (Overlap(bb[i], bb[j]) > THRESHOLD)
  {
  }

  /** The inner loop that fills candidates and remained. */
  method Partition(bb: seq<Detection>, work: seq<nat>, lead: nat) returns (candidates: seq<nat>, remained: seq<nat>)
    requires Indices(bb, work) && lead < |bb|
    ensures candidates == Pick(Near(bb), work, lead, true)
    ensures remained == Pick(Near(bb), work, lead, false)
  {
    candidates, remained := [], [];
    ghost var near := Near(bb);
    ghost var near0, far0 := Pick(near, work, lead, true), Pick(near, work, lead, false);
    assert work[0..] == work;
    for k := 0 to |work|
      invariant near0 == candidates + Pick(near, work[k..], lead, true)
      invariant far0 == remained + Pick(near, work[k..], lead, false)
    {
      PickStep(near, work, k, lead, true, candidates);
      PickStep(near, work, k, lead, false, remained);
      NearIs(bb, work[k], lead);
      var similarity := Overlap(bb[work[k]], bb[lead]);
      if similarity > THRESHOLD {
        candidates := candidates + [work[k]];
      } else {
        remained := remained + [work[k]];
      }
    }
  }

  /** The running sums of the merge step. */
  method Sums(bb: seq<Detection>, candidates: seq<nat>)
    returns (wXmin: real, wYmin: real, wXmax: real, wYmax: real, totalScore: real)
    requires Scored(bb) && Indices(bb, candidates)
    ensures var ss := Scores(bb, candidates);
            && totalScore == Total(ss)
            && wXmin == Weighted(Edges(bb, candidates, XMin), ss)
            && wYmin == Weighted(Edges(bb, candidates, YMin), ss)
            && wXmax == Weighted(Edges(bb, candidates, XMax), ss)
            && wYmax == wXmax
  {
    ghost var ss, xMins, yMins, xMaxs :=
      Scores(bb, candidates), Edges(bb, candidates, XMin), Edges(bb, candidates, YMin), Edges(bb, candidates, XMax);
    wXmin, wYmin, wXmax, wYmax, totalScore := 0.0, 0.0, 0.0, 0.0, 0.0;
    for k := 0 to |candidates|
      invariant totalScore == Total(ss[..k])
      invariant wXmin == Weighted(xMins[..k], ss[..k])
      invariant wYmin == Weighted(yMins[..k], ss[..k])
      invariant wXmax == wYmax == Weighted(xMaxs[..k], ss[..k])
    {
      var score, bbox := bb[candidates[k]].score, bb[candidates[k]];
      SumsStep(xMins, ss, k);
      SumsStep(yMins, ss, k);
      SumsStep(xMaxs, ss, k);
      var hw, hh := bbox.w / 2.0, bbox.h / 2.0;
      totalScore := totalScore + score;
      wXmin := wXmin + Times(bbox.x - hw, score);
      wYmin := wYmin + Times(bbox.y - hh, score);
      wXmax := wXmax + Times(bbox.x + hw, score);
      wYmax := wYmax + Times(bbox.x + hw, score);
    }
    assert ss[..|ss|] == ss && xMins[..|ss|] == xMins && yMins[..|ss|] == yMins && xMaxs[..|ss|] == xMaxs;
  }

  /** The merge step: the leader itself, or the weighted mean of the candidates. */
  method WeightedDetection(bb: seq<Detection>, c: Cluster) returns (d: Detection)
    requires Scored(bb) && Fits(bb, c)
    ensures d == Merge(bb, c)
  {
    d := bb[c.leader];
    if c.members != [] {
      var wXmin, wYmin, wXmax, wYmax, totalScore := Sums(bb, c.members);
      TotalPositive(Scores(bb, c.members));
      var xMin, yMin, xMax, yMax := wXmin / totalScore, wYmin / totalScore, wXmax / totalScore, wYmax / totalScore;
      d := d.(x := (xMin + xMax) / 2.0, y := (yMin + yMax) / 2.0, w := xMax - xMin, h := yMax - yMin);
    }
  }

  lemma SumsStep(xs: seq<real>, ss: seq<real>, k: nat)
    requires k < |xs| == |ss|
    ensures Total(ss[..k + 1]) == Total(ss[..k]) + ss[k]
    ensures Weighted(xs[..k + 1], ss[..k + 1]) == Weighted(xs[..k], ss[..k]) + Times(xs[k], ss[k])
  {
    assert ss[..k + 1][..k] == ss[..k] && xs[..k + 1][..k] == xs[..k];
  }

  lemma SuppressedStep(bb: seq<Detection>, work: seq<nat>)
    requires Scored(bb) && Indices(bb, work) && work != []
    ensures var near := Near(bb);
            var c := Cluster(work[0], Pick(near, work, work[0], true));
            var remained := Pick(near, work, work[0], false);
            && Fits(bb, c) && Indices(bb, remained)
            && Suppressed(bb, work) ==
               [Merge(bb, c)] + if |remained| == |work| then [] else Suppressed(bb, remained)
  {
    var near := Near(bb);
    PickFits(bb, near, work, work[0], true);
    PickFits(bb, near, work, work[0], false);
    ClustersFit(bb, near, work);
    var cs := Clusters(near, work);
    assert cs[1..] == if |Pick(near, work, work[0], false)| == |work| then []
                      else Clusters(near, Pick(near, work, work[0], false));
  }

  /** One round of the outer loop: the detection pushed and the new worklist. */
  method Round(bb: seq<Detection>, work: seq<nat>) returns (weighted: Detection, remained: seq<nat>)
    requires Scored(bb) && Indices(bb, work) && work != []
    ensures Indices(bb, remained) && |remained| <= |work|
    ensures Suppressed(bb, work) ==
            [weighted] + if |remained| == |work| then [] else Suppressed(bb, remained)
  {
    var candidates;
    candidates, remained := Partition(bb, work, work[0]);
    SuppressedStep(bb, work);
    weighted := WeightedDetection(bb, Cluster(work[0], candidates));
  }

  method Suppress(bb: seq<Detection>) returns (ret: seq<Detection>, ghost order: seq<nat>)
    requires Scored(bb)
    ensures Ranking(bb, order)
    ensures ret == Suppressed(bb, order)
  {
    var remainedScores := SortByScore(bb);
    order := remainedScores;
    if bb == [] {
      return bb, order;
    }
    ret := [];
    ghost var goal := Suppressed(bb, order);
    while remainedScores != []
      invariant Indices(bb, remainedScores)
      invariant goal == ret + Suppressed(bb, remainedScores)
      decreases |remainedScores|
    {
      var originalSize := |remainedScores|;
      var weighted, remained := Round(bb, remainedScores);
      ghost var rest := if |remained| == originalSize then [] else Suppressed(bb, remained);
      assert ret + ([weighted] + rest) == (ret + [weighted]) + rest;
      ret := ret + [weighted];
      if originalSize == |remained| {
        break;
      } else {
        remainedScores := remained;
      }
    }
  }
}
