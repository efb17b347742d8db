/** filter_sample of audio_sound_effector.cxx: a fixed-point RC filter over 16-bit stereo
    samples, in place, with its state kept between blocks. */
module RcFilter {
  import opened Bytes

  /** The cast to int16_t, which wraps. */
  function Wrap16(x: int): (r: int16) {
    (x + 32768) % 65536 - 32768
  }

  predicate Fits16(x: int) {
    -32768 <= x < 32768
  }

  function Gained(x: int): (r: int) {
    x * 10
  }

  /** What is left of the last output after one step. */
  function Decayed(last: int): (r: int) {
    TruncDiv(last * 995, 1000)
  }

  /** (last * 995 / 1000) + ((x * 10) * 5 / 1000), before the cast. */
  function Raw(last: int, x: int): (r: int) {
    Decayed(last) + TruncDiv(Gained(x) * 5, 1000)
  }

  function Filtered(last: int16, x: int16): (r: int16) {
    Wrap16(Raw(last, x))
  }

  lemma WrapFits(x: int)
    requires Fits16(x)
    ensures Wrap16(x) == x
  {
  }

  /** 0 stays, anything else gets smaller. */
  predicate Shrinks(before: int, y: int) {
    if before == 0 then y == 0 else Abs(y) < Abs(before)
  }

  lemma DecayShrinks(v: int)
    ensures Shrinks(v, Decayed(v))
  {
  }

  lemma TruncBound(v: int, bound: nat)
    requires Abs(v) <= 1000 * bound + 999
    ensures Abs(TruncDiv(v, 1000)) <= bound
  {
  }

  // ------------------------------------------- a recurrence over one channel

  type Step = (int16, int16) -> int16

  /** The outputs of a recurrence for a block of one channel's samples. */
  function Outputs(step: Step, last: int16, xs: seq<int16>): (ys: seq<int16>)
    ensures |ys| == |xs|
    decreases |xs|
  {
    if xs == [] then []
    else var y := step(last, xs[0]); [y] + Outputs(step, y, xs[1..])
  }

  function Last(step: Step, last: int16, xs: seq<int16>): (r: int16) {
    if xs == [] then last else Outputs(step, last, xs)[|xs| - 1]
  }

  lemma {:induction false} OutputsAppend(step: Step, last: int16, a: seq<int16>, b: seq<int16>)
    ensures Outputs(step, last, a + b) == Outputs(step, last, a) + Outputs(step, Last(step, last, a), b)
    decreases |a|
  {
    if a == [] {
      assert a + b == b;
    } else {
      var y, rest := step(last, a[0]), a[1..];
      assert a == [a[0]] + rest && a + b == [a[0]] + (rest + b);
      OutputsCons(step, last, a[0], rest);
      OutputsCons(step, last, a[0], rest + b);
      OutputsAppend(step, y, rest, b);
      var head, tail := Outputs(step, y, rest), Outputs(step, Last(step, y, rest), b);
      assert [y] + (head + tail) == ([y] + head) + tail;
    }
  }

  lemma OutputsCons(step: Step, last: int16, x: int16, xs: seq<int16>)
    ensures var y := step(last, x);
            && Outputs(step, last, [x] + xs) == [y] + Outputs(step, y, xs)
            && Last(step, last, [x] + xs) == Last(step, y, xs)
  {
    assert ([x] + xs)[1..] == xs;
  }

  lemma OutputsDiffer(step: Step, p: int16, q: int16, xs: seq<int16>)
    requires xs != []
    ensures Outputs(step, p, xs) == Outputs(step, q, xs) <==> step(p, xs[0]) == step(q, xs[0])
  {
    if Outputs(step, p, xs) == Outputs(step, q, xs) {
      assert Outputs(step, p, xs)[0] == Outputs(step, q, xs)[0];
    }
  }

  lemma OutputsAt(step: Step, last: int16, xs: seq<int16>, ys: seq<int16>, k: nat)
    requires k < |xs| == |ys| && Outputs(step, last, xs[k..]) == ys[k..]
    ensures step(last, xs[k]) == ys[k] && Outputs(step, ys[k], xs[k + 1..]) == ys[k + 1..]
  {
    var zs := Outputs(step, last, xs[k..]);
    assert xs[k..][1..] == xs[k + 1..] && ys[k..][1..] == ys[k + 1..];
    assert zs[0] == ys[k] && zs[1..] == ys[k + 1..];
  }

  predicate Silent(xs: seq<int16>) {
    forall k :: 0 <= k < |xs| ==> xs[k] == 0
  }

  ghost predicate Contracts(step: Step) {
    forall last: int16 :: Shrinks(last, step(last, 0))
  }

  lemma {:induction false} DecayOf(step: Step, last: int16, xs: seq<int16>, k: nat)
    requires Contracts(step) && Silent(xs) && k < |xs|
    ensures var before := if k == 0 then last else Outputs(step, last, xs)[k - 1];
            Shrinks(before, Outputs(step, last, xs)[k])
    decreases |xs|
  {
    if k > 0 {
      DecayOf(step, step(last, xs[0]), xs[1..], k - 1);
    }
  }

  lemma {:induction false} SilencedOf(step: Step, last: int16, xs: seq<int16>)
    requires Contracts(step) && Silent(xs) && Abs(last) <= |xs|
    ensures Last(step, last, xs) == 0
    decreases |xs|
  {
    if xs != [] {
      var y := step(last, xs[0]);
      SilencedOf(step, y, xs[1..]);
      assert Last(step, last, xs) == Last(step, y, xs[1..]);
    }
  }

  // ---------------------------------------------------------- blocks of both

  datatype Channels = Channels(left: int16, right: int16)

  datatype Block = Block(left: seq<int16>, right: seq<int16>)

  predicate Stereo(b: Block) {
    |b.left| == |b.right| > 0
  }

  /** The state the block starts from: a silent state is primed with the first sample. */
  function PrimedBy(s: Channels, left: int16, right: int16): (t: Channels) {
    if s == Channels(0, 0) then Channels(Wrap16(Gained(left)), Wrap16(Gained(right))) else s
  }

  function Primed(s: Channels, b: Block): (t: Channels)
    requires Stereo(b)
  {
    PrimedBy(s, b.left[0], b.right[0])
  }

  function Apply(step: Step, t: Channels, b: Block): (r: Block)
    ensures |r.left| == |b.left| && |r.right| == |b.right|
  {
    Block(Outputs(step, t.left, b.left), Outputs(step, t.right, b.right))
  }

  function Filter(s: Channels, b: Block): (r: Block)
    requires Stereo(b)
    ensures |r.left| == |b.left| && |r.right| == |b.right|
  {
    Apply(Filtered, Primed(s, b), b)
  }

  /** The last outputs of a block are the state carried to the next. */
  function Carried(r: Block): (t: Channels)
    requires Stereo(r)
  {
    Channels(r.left[|r.left| - 1], r.right[|r.right| - 1])
  }

  function FilterState(s: Channels, b: Block): (t: Channels)
    requires Stereo(b)
  {
    Carried(Filter(s, b))
  }

  function Joined(a: Block, b: Block): (r: Block) {
    Block(a.left + b.left, a.right + b.right)
  }

  lemma ApplyJoined(step: Step, t: Channels, a: Block, b: Block)
    requires Stereo(a)
    ensures Apply(step, t, Joined(a, b)) == Joined(Apply(step, t, a), Apply(step, Carried(Apply(step, t, a)), b))
  {
    OutputsAppend(step, t.left, a.left, b.left);
    OutputsAppend(step, t.right, a.right, b.right);
  }

  lemma ApplyDiffers(step: Step, t: Channels, u: Channels, b: Block)
    requires Stereo(b)
    ensures Apply(step, t, b) == Apply(step, u, b) <==>
            step(t.left, b.left[0]) == step(u.left, b.left[0]) && step(t.right, b.right[0]) == step(u.right, b.right[0])
  {
    OutputsDiffer(step, t.left, u.left, b.left);
    OutputsDiffer(step, t.right, u.right, b.right);
  }

  lemma JoinedDiffers(a: Block, b: Block, c: Block)
    ensures Joined(a, b) == Joined(a, c) <==> b == c
  {
    if Joined(a, b) == Joined(a, c) {
      assert b.left == (a.left + b.left)[|a.left|..] && c.left == (a.left + c.left)[|a.left|..];
      assert b.right == (a.right + b.right)[|a.right|..] && c.right == (a.right + c.right)[|a.right|..];
    }
  }

  /** On even states the decayed part tells them apart. */
  lemma EvenStatesApart(a: int, b: int)
    requires a < b
    ensures TruncDiv(1990 * a, 1000) < TruncDiv(1990 * b, 1000)
  {
  }

  lemma WrapApart(t: int, d: int, e: int)
    requires -65536 < d - e < 65536
    ensures Wrap16(d + t) == Wrap16(e + t) <==> d == e
  {
  }

  /** Two even states give the same output exactly when they are equal. */
  lemma EvenStatesShow(p: int16, q: int16, x: int16)
    requires p % 2 == 0 && q % 2 == 0
    ensures Filtered(p, x) == Filtered(q, x) <==> p == q
  {
    var d, e := Decayed(p), Decayed(q);
    var a, b := p / 2, q / 2;
    assert p * 995 == 1990 * a && q * 995 == 1990 * b;
    if a < b {
      EvenStatesApart(a, b);
    } else if b < a {
      EvenStatesApart(b, a);
    }
    TruncBound(p * 995, 32605);
    TruncBound(q * 995, 32605);
    WrapApart(TruncDiv(Gained(x) * 5, 1000), d, e);
  }

  lemma EvenPriming(x: int)
    ensures Wrap16(Gained(x)) % 2 == 0
  {
    EvenRemainder(5 * x + 16384);
  }

  lemma EvenRemainder(h: int)
    ensures 2 * h % 65536 % 2 == 0
  {
    var m := 2 * h % 65536;
    assert 2 * h == 65536 * (2 * h / 65536) + m;
    assert m == 2 * (h - 32768 * (2 * h / 65536));
  }

  /** States that priming can produce, the silent one included, show in a block's outputs. */
  lemma PrimingShows(t: Channels, u: Channels, b: Block)
    requires Stereo(b) && t.left % 2 == t.right % 2 == u.left % 2 == u.right % 2 == 0
    ensures Apply(Filtered, t, b) == Apply(Filtered, u, b) <==> t == u
  {
    ApplyDiffers(Filtered, t, u, b);
    EvenStatesShow(t.left, u.left, b.left[0]);
    EvenStatesShow(t.right, u.right, b.right[0]);
  }

  /** Filtering in two blocks equals filtering their join exactly when the carried state
      is not silent, or the second block begins with samples whose gain wraps to 0. */
  lemma BlockSplit(s: Channels, a: Block, b: Block)
    requires Stereo(a) && Stereo(b)
    ensures var carried := FilterState(s, a);
            Filter(s, Joined(a, b)) == Joined(Filter(s, a), Filter(carried, b)) <==>
            carried != Channels(0, 0) || Primed(carried, b) == Channels(0, 0)
  {
    var t, carried := Primed(s, a), FilterState(s, a);
    assert Primed(s, Joined(a, b)) == t;
    ApplyJoined(Filtered, t, a, b);
    var u := Primed(carried, b);
    JoinedDiffers(Filter(s, a), Apply(Filtered, carried, b), Apply(Filtered, u, b));
    if carried == Channels(0, 0) {
      EvenPriming(b.left[0]);
      EvenPriming(b.right[0]);
      PrimingShows(carried, u, b);
    }
  }

  /** A call with an empty block still primes, from whatever lies at its pointer.  It goes
      unnoticed by the next block exactly when the state was not silent, or the priming leaves
      it silent or as the next block itself would prime it. */
  lemma EmptyBlock(s: Channels, left: int16, right: int16, b: Block)
    requires Stereo(b)
    ensures var t := PrimedBy(s, left, right);
            Filter(t, b) == Filter(s, b) <==> s != Channels(0, 0) || t == Channels(0, 0) || t == Primed(s, b)
  {
    if s == Channels(0, 0) {
      var t := PrimedBy(s, left, right);
      EvenPriming(left);
      EvenPriming(right);
      EvenPriming(b.left[0]);
      EvenPriming(b.right[0]);
      PrimingShows(Primed(t, b), Primed(s, b), b);
    }
  }

  // ------------------------------------------------------------ range over runs

  predicate Bounded(xs: seq<int16>, bound: int) {
    forall k :: 0 <= k < |xs| ==> Abs(xs[k]) <= bound
  }

  predicate BlockBounded(b: Block, bound: int) {
    Bounded(b.left, bound) && Bounded(b.right, bound)
  }

  /** No cast on the way through a channel wraps. */
  ghost predicate CleanFrom(last: int16, xs: seq<int16>)
    decreases |xs|
  {
    xs == [] || (Fits16(Raw(last, xs[0])) && CleanFrom(Filtered(last, xs[0]), xs[1..]))
  }

  /** Nor in the priming. */
  ghost predicate Clean(s: Channels, b: Block)
    requires Stereo(b)
  {
    && (s == Channels(0, 0) ==> Fits16(Gained(b.left[0])) && Fits16(Gained(b.right[0])))
    && CleanFrom(Primed(s, b).left, b.left) && CleanFrom(Primed(s, b).right, b.right)
  }

  /** 32760 is kept by every step on samples up to 3276. */
  lemma StepBound(last: int16, x: int16)
    requires Abs(last) <= 32760 && Abs(x) <= 3276
    ensures Fits16(Raw(last, x)) && Abs(Filtered(last, x)) <= 32760
  {
    TruncBound(last * 995, 32596);
    TruncBound(Gained(x) * 5, 163);
    WrapFits(Raw(last, x));
  }

  lemma {:induction false} ChannelBound(last: int16, xs: seq<int16>)
    requires Abs(last) <= 32760 && Bounded(xs, 3276)
    ensures CleanFrom(last, xs)
    ensures Abs(Last(Filtered, last, xs)) <= 32760
    decreases |xs|
  {
    if xs != [] {
      var y := Filtered(last, xs[0]);
      StepBound(last, xs[0]);
      ChannelBound(y, xs[1..]);
      assert Last(Filtered, last, xs) == Last(Filtered, y, xs[1..]);
    }
  }

  predicate StateBounded(s: Channels) {
    Abs(s.left) <= 32760 && Abs(s.right) <= 32760
  }

  lemma PrimedBound(s: Channels, b: Block)
    requires Stereo(b) && StateBounded(s) && BlockBounded(b, 3276)
    ensures StateBounded(Primed(s, b)) && Fits16(Gained(b.left[0])) && Fits16(Gained(b.right[0]))
  {
  }

  lemma BlockBound(s: Channels, b: Block)
    requires Stereo(b) && StateBounded(s) && BlockBounded(b, 3276)
    ensures Clean(s, b) && StateBounded(FilterState(s, b))
  {
    var t := Primed(s, b);
    PrimedBound(s, b);
    ChannelBound(t.left, b.left);
    ChannelBound(t.right, b.right);
  }

  /** The state before block k of a run from power-up. */
  ghost function StateAt(bs: seq<Block>, k: nat): (s: Channels)
    requires k <= |bs| && forall i :: 0 <= i < |bs| ==> Stereo(bs[i])
  {
    if k == 0 then Channels(0, 0) else FilterState(StateAt(bs, k - 1), bs[k - 1])
  }

  ghost predicate AllBounded(bs: seq<Block>, bound: int) {
    forall i :: 0 <= i < |bs| ==> Stereo(bs[i]) && BlockBounded(bs[i], bound)
  }

  lemma {:induction false} RunBound(bs: seq<Block>, k: nat)
    requires k <= |bs| && AllBounded(bs, 3276)
    ensures StateBounded(StateAt(bs, k))
    ensures k < |bs| ==> Clean(StateAt(bs, k), bs[k])
  {
    if k > 0 {
      RunBound(bs, k - 1);
      BlockBound(StateAt(bs, k - 1), bs[k - 1]);
    }
    if k < |bs| {
      BlockBound(StateAt(bs, k), bs[k]);
    }
  }

  /** No run on samples within the bound, however long, wraps anywhere. */
  ghost predicate SafeInput(bound: int) {
    forall bs: seq<Block>, k: nat :: k < |bs| && AllBounded(bs, bound) ==> Clean(StateAt(bs, k), bs[k])
  }

  /** Main result: an amplitude bound keeps every run of any length free of wrap-around
      exactly when it is at most 3276. */
  lemma AmplitudeLimit(bound: nat)
    ensures SafeInput(bound) <==> bound <= 3276
  {
    if bound <= 3276 {
      forall bs: seq<Block>, k: nat | k < |bs| && AllBounded(bs, bound)
        ensures Clean(StateAt(bs, k), bs[k])
      {
        assert AllBounded(bs, 3276);
        RunBound(bs, k);
      }
    } else {
      var bs := [Block([3277], [3277])];
      assert AllBounded(bs, bound);
      assert StateAt(bs, 0) == Channels(0, 0);
      assert !Fits16(Gained(bs[0].left[0]));
      assert !Clean(StateAt(bs, 0), bs[0]);
    }
  }

  // -------------------------------------------------------- against the ideal filter

  lemma WrapCongruent(x: int)
    ensures (x - Wrap16(x)) % 65536 == 0
  {
  }

  lemma TruncNear(v: int)
    ensures -1000 < 1000 * TruncDiv(v, 1000) - v < 1000
  {
    TruncTowardsZero(v, 1000);
  }

  /** One step is within two of 0.995 of the last output and 0.05 of the sample. */
  lemma FilteredTracks(last: int16, x: int16)
    requires Abs(last) <= 32760 && Abs(x) <= 3276
    ensures -2000 < 1000 * Filtered(last, x) - (995 * last + 50 * x) < 2000
  {
    StepBound(last, x);
    WrapFits(Raw(last, x));
    TruncNear(last * 995);
    TruncNear(Gained(x) * 5);
  }

  lemma TruncOrder(a: int, b: int)
    requires a <= b
    ensures TruncDiv(a, 1000) <= TruncDiv(b, 1000)
  {
  }

  /** Raising a sample or the last output cannot lower the next output. */
  lemma FilteredOrder(last: int16, last': int16, x: int16, x': int16)
    requires Abs(last) <= 32760 && Abs(last') <= 32760 && Abs(x) <= 3276 && Abs(x') <= 3276
    requires last <= last' && x <= x'
    ensures Filtered(last, x) <= Filtered(last', x')
  {
    StepBound(last, x);
    StepBound(last', x');
    WrapFits(Raw(last, x));
    WrapFits(Raw(last', x'));
    TruncOrder(last * 995, last' * 995);
    TruncOrder(Gained(x) * 5, Gained(x') * 5);
  }

  /** The filter without rounding: its value after the given samples. */
  ghost function Ideal(start: real, xs: seq<int16>): (v: real)
    decreases |xs|
  {
    if xs == [] then start else Ideal(0.995 * start + 0.05 * xs[0] as real, xs[1..])
  }

  lemma IdealStep(last: int16, start: real, x: int16)
    requires Abs(last) <= 32760 && Abs(x) <= 3276 && -400.0 < last as real - start < 400.0
    ensures -400.0 < Filtered(last, x) as real - (0.995 * start + 0.05 * x as real) < 400.0
  {
    FilteredTracks(last, x);
    var y := Filtered(last, x);
    var gap := 1000 * y - (995 * last + 50 * x);
    assert gap as real == 1000.0 * y as real - (995.0 * last as real + 50.0 * x as real);
  }

  /** However long the run, the rounding errors never add up to 400. */
  lemma {:induction false} ErrorBound(last: int16, start: real, xs: seq<int16>)
    requires Abs(last) <= 32760 && Bounded(xs, 3276) && -400.0 < last as real - start < 400.0
    ensures -400.0 < Last(Filtered, last, xs) as real - Ideal(start, xs) < 400.0
    decreases |xs|
  {
    if xs != [] {
      var y := Filtered(last, xs[0]);
      StepBound(last, xs[0]);
      IdealStep(last, start, xs[0]);
      ErrorBound(y, 0.995 * start + 0.05 * xs[0] as real, xs[1..]);
      assert Last(Filtered, last, xs) == Last(Filtered, y, xs[1..]);
    }
  }

  lemma OutputIsLast(step: Step, last: int16, xs: seq<int16>, k: nat)
    requires k < |xs|
    ensures Outputs(step, last, xs)[k] == Last(step, last, xs[..k + 1])
  {
    OutputsAppend(step, last, xs[..k + 1], xs[k + 1..]);
    assert xs == xs[..k + 1] + xs[k + 1..];
  }

  lemma ChannelTracks(last: int16, xs: seq<int16>, k: nat)
    requires Abs(last) <= 32760 && Bounded(xs, 3276) && k < |xs|
    ensures -400.0 < Outputs(Filtered, last, xs)[k] as real - Ideal(last as real, xs[..k + 1]) < 400.0
  {
    OutputIsLast(Filtered, last, xs, k);
    ErrorBound(last, last as real, xs[..k + 1]);
  }

  /** What a channel starts from: ten times its first sample when both channels are silent. */
  ghost function StartOf(s: Channels, own: int16, first: int16): (v: real) {
    if s == Channels(0, 0) then 10.0 * first as real else own as real
  }

  /** Main result: every output of every block, on samples up to 3276, stays within 400 of the
      filter that keeps 0.995 of its value and adds 0.05 of the sample without rounding. */
  lemma TracksIdeal(s: Channels, b: Block, k: nat)
    requires Stereo(b) && StateBounded(s) && BlockBounded(b, 3276) && k < |b.left|
    ensures var r := Filter(s, b);
            && -400.0 < r.left[k] as real - Ideal(StartOf(s, s.left, b.left[0]), b.left[..k + 1]) < 400.0
            && -400.0 < r.right[k] as real - Ideal(StartOf(s, s.right, b.right[0]), b.right[..k + 1]) < 400.0
  {
    var t := Primed(s, b);
    PrimedBound(s, b);
    PrimedStart(s, b);
    ChannelTracks(t.left, b.left, k);
    ChannelTracks(t.right, b.right, k);
  }

  lemma PrimedStart(s: Channels, b: Block)
    requires Stereo(b) && BlockBounded(b, 3276)
    ensures var t := Primed(s, b);
            && t.left as real == StartOf(s, s.left, b.left[0])
            && t.right as real == StartOf(s, s.right, b.right[0])
  {
    assert Abs(b.left[0]) <= 3276 && Abs(b.right[0]) <= 3276;
    WrapFits(Gained(b.left[0]));
    WrapFits(Gained(b.right[0]));
  }

  predicate TenTimes(y: int, x: int) {
    -2 < y - 10 * x < 2
  }

  lemma PrimedOutput(x: int16)
    requires Abs(x) <= 3276
    ensures TenTimes(Filtered(Wrap16(Gained(x)), x), x)
  {
    WrapFits(Gained(x));
    FilteredTracks(Wrap16(Gained(x)), x);
  }

  /** The first output after silence is ten times the channel's own first sample, but for
      rounding. */
  lemma FirstOutput(b: Block)
    requires Stereo(b) && BlockBounded(b, 3276)
    ensures var r := Filter(Channels(0, 0), b);
            TenTimes(r.left[0], b.left[0]) && TenTimes(r.right[0], b.right[0])
  {
    assert Abs(b.left[0]) <= 3276 && Abs(b.right[0]) <= 3276;
    PrimedOutput(b.left[0]);
    PrimedOutput(b.right[0]);
  }

  // ------------------------------------------------------------- decay on silence

  lemma SilentStep(last: int16)
    ensures Shrinks(last, Filtered(last, 0))
  {
    DecayShrinks(last);
    SilentRaw(last);
    SmallerFits(last, Decayed(last));
  }

  lemma SilentRaw(v: int)
    ensures Raw(v, 0) == Decayed(v)
  {
  }

  lemma SmallerFits(v: int, d: int)
    requires Fits16(v) && Shrinks(v, d)
    ensures Wrap16(d) == d
  {
    WrapFits(d);
  }

  lemma FilterContracts()
    ensures Contracts(Filtered)
  {
    forall last: int16
      ensures Shrinks(last, Filtered(last, 0))
    {
      SilentStep(last);
    }
  }

  /** On silence the magnitude falls strictly with every sample until it is 0, which
      takes at most as many samples as its value. */
  lemma Decay(last: int16, xs: seq<int16>, k: nat)
    requires Silent(xs) && k < |xs|
    ensures var before := if k == 0 then last else Outputs(Filtered, last, xs)[k - 1];
            Shrinks(before, Outputs(Filtered, last, xs)[k])
    ensures Abs(last) <= |xs| ==> Last(Filtered, last, xs) == 0
  {
    FilterContracts();
    DecayOf(Filtered, last, xs, k);
    if Abs(last) <= |xs| {
      SilencedOf(Filtered, last, xs);
    }
  }

  // ------------------------------------------------------------- the imperative code

  /** The samples of one channel in an interleaved buffer. */
  ghost function Channel(buf: seq<int16>, c: nat, frames: nat): (xs: seq<int16>)
    requires c < 2 && 2 * frames <= |buf|
    ensures |xs| == frames
  {
    seq(frames, k requires 0 <= k < frames => buf[2 * k + c])
  }

  ghost function Interleaved(buf: seq<int16>, frames: nat): (b: Block)
    requires 2 * frames <= |buf|
  {
    Block(Channel(buf, 0, frames), Channel(buf, 1, frames))
  }

  /** The loop has replaced the first k samples of a channel by their outputs. */
  ghost predicate Progress(buf: seq<int16>, c: nat, frames: nat, last: int16, xs: seq<int16>, ys: seq<int16>, k: nat)
    requires c < 2 && 2 * frames <= |buf|
  {
    && k <= frames == |xs| == |ys|
    && (forall i :: 0 <= i < frames ==> buf[2 * i + c] == if i < k then ys[i] else xs[i])
    && Outputs(Filtered, last, xs[k..]) == ys[k..]
    && (k > 0 ==> last == ys[k - 1])
  }

  lemma ProgressStep(buf: seq<int16>, buf': seq<int16>, c: nat, frames: nat, last: int16, last': int16,
                     xs: seq<int16>, ys: seq<int16>, k: nat)
    requires c < 2 && 2 * frames <= |buf| == |buf'| && k < frames
    requires Progress(buf, c, frames, last, xs, ys, k)
    requires last' == Filtered(last, buf[2 * k + c]) && buf'[2 * k + c] == last'
    requires forall i :: 0 <= i < frames && i != k ==> buf'[2 * i + c] == buf[2 * i + c]
    ensures Progress(buf', c, frames, last', xs, ys, k + 1)
  {
    OutputsAt(Filtered, last, xs, ys, k);
  }

  /** Both channels after k frames of a block b whose outputs are r. */
  ghost predicate LoopAt(buf: seq<int16>, frames: nat, s: Channels, b: Block, r: Block, k: nat)
    requires 2 * frames <= |buf|
  {
    && Progress(buf, 0, frames, s.left, b.left, r.left, k)
    && Progress(buf, 1, frames, s.right, b.right, r.right, k)
  }

  lemma LoopStart(buf: seq<int16>, frames: nat, s: Channels)
    requires 2 * frames <= |buf|
    ensures var b := Interleaved(buf, frames); LoopAt(buf, frames, s, b, Apply(Filtered, s, b), 0)
  {
    var b := Interleaved(buf, frames);
    var r := Apply(Filtered, s, b);
    assert b.left[0..] == b.left && b.right[0..] == b.right && r.left[0..] == r.left && r.right[0..] == r.right;
  }

  lemma LoopStep(buf: seq<int16>, frames: nat, s: Channels, t: Channels, b: Block, r: Block, k: nat)
    requires 2 * frames <= |buf| && k < frames && LoopAt(buf, frames, s, b, r, k)
    requires t == Channels(Filtered(s.left, buf[2 * k]), Filtered(s.right, buf[2 * k + 1]))
    ensures LoopAt(buf[2 * k := t.left][2 * k + 1 := t.right], frames, t, b, r, k + 1)
  {
    var buf' := buf[2 * k := t.left][2 * k + 1 := t.right];
    ProgressStep(buf, buf', 0, frames, s.left, t.left, b.left, r.left, k);
    ProgressStep(buf, buf', 1, frames, s.right, t.right, b.right, r.right, k);
  }

  lemma LoopEnd(buf: seq<int16>, frames: nat, s: Channels, b: Block, r: Block)
    requires 2 * frames <= |buf| && LoopAt(buf, frames, s, b, r, frames)
    ensures Interleaved(buf, frames) == r
    ensures frames > 0 ==> s == Carried(r)
  {
    assert Channel(buf, 0, frames) == r.left && Channel(buf, 1, frames) == r.right;
  }

  class Effector {
    var lsL: int16
    var rsL: int16

    ghost function State(): (s: Channels)
      reads this
    {
      Channels(lsL, rsL)
    }

    constructor ()
      ensures State() == Channels(0, 0)
    {
      lsL, rsL := 0, 0;
    }

    /** The loop body: one frame at ptr[at]. */
    method FilterFrame(ptr: array<int16>, at: nat)
      requires at + 1 < ptr.Length
      modifies this, ptr
      ensures lsL == Filtered(old(lsL), old(ptr[at])) && rsL == Filtered(old(rsL), old(ptr[at + 1]))
      ensures ptr[..] == old(ptr[..])[at := lsL][at + 1 := rsL]
    {
      ptr[at] := Wrap16(Raw(lsL, ptr[at]));
      ptr[at + 1] := Wrap16(Raw(rsL, ptr[at + 1]));
      lsL := ptr[at];
      rsL := ptr[at + 1];
    }

    method FilterLoop(ptr: array<int16>, size: nat)
      requires 2 * ((size + 3) / 4) <= ptr.Length
      modifies this, ptr
      ensures var frames := (size + 3) / 4;
              && Interleaved(ptr[..], frames) == Apply(Filtered, old(State()), old(Interleaved(ptr[..], frames)))
              && (frames > 0 ==> State() == Carried(Interleaved(ptr[..], frames)))
              && (frames == 0 ==> State() == old(State()))
              && ptr[..][2 * frames..] == old(ptr[..])[2 * frames..]
    {
      ghost var frames := (size + 3) / 4;
      ghost var b := Interleaved(ptr[..], frames);
      ghost var r := Apply(Filtered, State(), b);
      LoopStart(ptr[..], frames, State());
      FilterFrames(ptr, size, frames, b, r);
      LoopEnd(ptr[..], frames, State(), b, r);
    }

    method FilterFrames(ptr: array<int16>, size: nat, ghost frames: nat, ghost b: Block, ghost r: Block)
      requires frames == (size + 3) / 4 && 2 * frames <= ptr.Length && LoopAt(ptr[..], frames, State(), b, r, 0)
      modifies this, ptr
      ensures LoopAt(ptr[..], frames, State(), b, r, frames)
      ensures frames == 0 ==> State() == old(State())
      ensures ptr[..][2 * frames..] == old(ptr[..])[2 * frames..]
    {
      var cnt, at := 0, 0;
      ghost var k := 0;
      while cnt < size
        invariant at == 2 * k && cnt == 4 * k && k <= frames
        invariant LoopAt(ptr[..], frames, State(), b, r, k)
        invariant ptr[..][2 * frames..] == old(ptr[..])[2 * frames..]
        invariant k == 0 ==> State() == old(State())
      {
        FilterNext(ptr, at, frames, b, r, k);
        at := at + 2;
        cnt := cnt + 4;
        k := k + 1;
      }
    }

    /** The loop body at frame k of a block b whose outputs are r. */
    method FilterNext(ptr: array<int16>, at: nat, ghost frames: nat, ghost b: Block, ghost r: Block, ghost k: nat)
      requires 2 * frames <= ptr.Length && k < frames && at == 2 * k && LoopAt(ptr[..], frames, State(), b, r, k)
      modifies this, ptr
      ensures LoopAt(ptr[..], frames, State(), b, r, k + 1)
      ensures ptr[..][2 * frames..] == old(ptr[..])[2 * frames..]
    {
      ghost var buf, s := ptr[..], State();
      FilterFrame(ptr, at);
      LoopStep(buf, frames, s, State(), b, r, k);
    }

    /** filter_sample(ptr, size): size is in bytes, four to a frame.  The first frame is
        read for priming even when size is 0. */
    method FilterSample(ptr: array<int16>, size: nat)
      requires 2 <= ptr.Length && 2 * ((size + 3) / 4) <= ptr.Length
      modifies this, ptr
      ensures var frames := (size + 3) / 4;
              && (frames > 0 ==>
                    && Interleaved(ptr[..], frames) == Filter(old(State()), old(Interleaved(ptr[..], frames)))
                    && State() == FilterState(old(State()), old(Interleaved(ptr[..], frames))))
              && (frames == 0 ==> State() == PrimedBy(old(State()), old(ptr[0]), old(ptr[1])))
              && ptr[..][2 * frames..] == old(ptr[..])[2 * frames..]
    {
      if lsL == 0 && rsL == 0 {
        lsL, rsL := Wrap16(Gained(ptr[0])), Wrap16(Gained(ptr[1]));
      }
      FilterLoop(ptr, size);
    }
  }
}
