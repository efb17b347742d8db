/** Score-weighted means of real sequences, as the merge step accumulates them. */
module WeightedMeans {

  predicate Positive(ss: seq<real>) {
    forall k :: 0 <= k < |ss| ==> ss[k] > 0.0
  }

  function Total(ss: seq<real>): (t: real) {
    if ss == [] then 0.0 else Total(ss[..|ss| - 1]) + ss[|ss| - 1]
  }

  function Times(x: real, s: real): (p: real) {
    x * s
  }

  function Weighted(xs: seq<real>, ss: seq<real>): (w: real)
    requires |xs| == |ss|
  {
    if ss == [] then 0.0
    else Weighted(xs[..|ss| - 1], ss[..|ss| - 1]) + Times(xs[|ss| - 1], ss[|ss| - 1])
  }

  lemma {:induction false} TotalPositive(ss: seq<real>)
    requires Positive(ss)
    ensures Total(ss) >= 0.0
    ensures ss != [] ==> Total(ss) > 0.0
  {
    if ss != [] { TotalPositive(ss[..|ss| - 1]); }
  }

  function WeightedMean(xs: seq<real>, ss: seq<real>): (m: real)
    requires |xs| == |ss| > 0 && Positive(ss)
  {
    TotalPositive(ss);
    Weighted(xs, ss) / Total(ss)
  }

  lemma ScaledOrder(a: real, b: real, s: real)
    requires a <= b && s > 0.0
    ensures a * s <= b * s
  {
  }

  lemma QuotientOrder(a: real, b: real, t: real)
    requires a <= b && t > 0.0
    ensures a / t <= b / t
  {
  }

  lemma {:induction false} WeightedOrder(xs: seq<real>, ys: seq<real>, ss: seq<real>)
    requires |xs| == |ys| == |ss| && Positive(ss)
    requires forall k :: 0 <= k < |xs| ==> xs[k] <= ys[k]
    ensures Weighted(xs, ss) <= Weighted(ys, ss)
  {
    var n := |ss| - 1;
    if n >= 0 {
      WeightedOrder(xs[..n], ys[..n], ss[..n]);
      ScaledOrder(xs[n], ys[n], ss[n]);
    }
  }

  /** Raising every value cannot lower the mean. */
  lemma MeanOrder(xs: seq<real>, ys: seq<real>, ss: seq<real>)
    requires |xs| == |ys| == |ss| > 0 && Positive(ss)
    requires forall k :: 0 <= k < |xs| ==> xs[k] <= ys[k]
    ensures WeightedMean(xs, ss) <= WeightedMean(ys, ss)
  {
    TotalPositive(ss);
    WeightedOrder(xs, ys, ss);
    QuotientOrder(Weighted(xs, ss), Weighted(ys, ss), Total(ss));
  }

  lemma {:induction false} WeightedConstant(c: real, xs: seq<real>, ss: seq<real>)
    requires |xs| == |ss| && forall k :: 0 <= k < |xs| ==> xs[k] == c
    ensures Weighted(xs, ss) == c * Total(ss)
  {
    var n := |ss| - 1;
    if n >= 0 {
      WeightedConstant(c, xs[..n], ss[..n]);
      TimesSum(c, Total(ss[..n]), ss[n]);
    }
  }

  lemma TimesSum(c: real, a: real, b: real)
    ensures c * (a + b) == c * a + c * b
  {
  }

  lemma MeanConstant(c: real, xs: seq<real>, ss: seq<real>)
    requires |xs| == |ss| > 0 && Positive(ss) && forall k :: 0 <= k < |xs| ==> xs[k] == c
    ensures WeightedMean(xs, ss) == c
  {
    TotalPositive(ss);
    WeightedConstant(c, xs, ss);
    TimesOver(c, Total(ss));
  }

  lemma TimesOver(c: real, t: real)
    requires t > 0.0
    ensures c * t / t == c
  {
  }

  /** The mean lies between any bounds of its values. */
  lemma MeanBetween(xs: seq<real>, ss: seq<real>, lo: real, hi: real)
    requires |xs| == |ss| > 0 && Positive(ss)
    requires forall k :: 0 <= k < |xs| ==> lo <= xs[k] <= hi
    ensures lo <= WeightedMean(xs, ss) <= hi
  {
    var los, his := seq(|ss|, _ => lo), seq(|ss|, _ => hi);
    MeanOrder(los, xs, ss);
    MeanOrder(xs, his, ss);
    MeanConstant(lo, los, ss);
    MeanConstant(hi, his, ss);
  }
}
