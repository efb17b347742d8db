/** synthesizer_done_callback of audio_synthesizer.cxx: interleaved 16-bit frames of any
    number of channels are mixed to two, reading and writing the same buffer. */
module Downmix {
  import opened Bytes

  lemma {:induction false} SumBounds(xs: seq<int16>)
    ensures -32768 * |xs| <= Sum(xs) <= 32767 * |xs|
  {
    if xs != [] { SumBounds(xs[..|xs| - 1]); }
  }

  lemma QuotientBound(s: int, n: nat, bound: nat)
    requires 0 <= s <= bound * n && n > 0
    ensures 0 <= s / n <= bound
  {
  }

  /** The truncated mean of a frame always fits the sample type. */
  lemma MeanFits(xs: seq<int16>)
    requires xs != []
    ensures -32768 <= TruncDiv(Sum(xs), |xs|) <= 32767
  {
    SumBounds(xs);
    var s := Sum(xs);
    if s >= 0 {
      QuotientBound(s, |xs|, 32767);
    } else {
      QuotientBound(-s, |xs|, 32768);
    }
  }

  function Mean(xs: seq<int16>): (m: int16)
    requires xs != []
  {
    MeanFits(xs);
    TruncDiv(Sum(xs), |xs|)
  }

  /** The mean of a frame, multiplied by the channels, falls short of the sum by less than one
      per channel, towards zero. */
  predicate IsMean(m: int, sum: int, ch: nat) {
    && Abs(ch * m) <= Abs(sum) < Abs(ch * m) + ch
    && (sum >= 0 ==> m >= 0) && (sum <= 0 ==> m <= 0)
  }

  lemma MeanOfSum(xs: seq<int16>)
    requires xs != []
    ensures IsMean(Mean(xs), Sum(xs), |xs|)
  {
    TruncTowardsZero(Sum(xs), |xs|);
    SignOfFactor(|xs|, Mean(xs));
  }

  lemma SignOfFactor(d: int, m: int)
    requires d > 0
    ensures (d * m >= 0 ==> m >= 0) && (d * m <= 0 ==> m <= 0)
  {
  }

  // ------------------------------------------------- reference and in-place form

  /** Where frame j begins, added up as the input pointer does. */
  function Start(ch: nat, j: nat): (p: nat) {
    if j == 0 then 0 else Start(ch, j - 1) + ch
  }

  lemma {:induction false} StartTimes(ch: nat, j: nat)
    ensures Start(ch, j) == j * ch
  {
    if j > 0 {
      StartTimes(ch, j - 1);
      assert (j - 1) * ch + ch == j * ch;
    }
  }

  lemma {:induction false} StartAtLeast(ch: nat, j: nat)
    requires ch >= 2
    ensures 2 * j <= Start(ch, j)
  {
    if j > 0 { StartAtLeast(ch, j - 1); }
  }

  /** All frames can be read, and two samples written for each. */
  predicate Holds(buf: seq<int16>, ch: nat, frames: nat) {
    ch > 0 && Start(ch, frames) <= |buf| && 2 * frames <= |buf|
  }

  /** Where the frames fill the buffer, the writes stay inside it exactly for two or more
      channels, or when there is nothing to mix. */
  lemma WritesInside(buf: seq<int16>, ch: nat, frames: nat)
    requires ch > 0 && |buf| == Start(ch, frames)
    ensures Holds(buf, ch, frames) <==> ch >= 2 || frames == 0
  {
    StartTimes(ch, frames);
    if ch >= 2 {
      StartAtLeast(ch, frames);
    }
  }

  lemma {:induction false} FrameInside(ch: nat, frames: nat, j: nat)
    requires j < frames
    ensures Start(ch, j) + ch <= Start(ch, frames)
  {
    if j < frames - 1 { FrameInside(ch, frames - 1, j); }
  }

  function FrameAt(buf: seq<int16>, ch: nat, frames: nat, j: nat): (xs: seq<int16>)
    requires Holds(buf, ch, frames) && j < frames
    ensures |xs| == ch
  {
    FrameInside(ch, frames, j);
    buf[Start(ch, j)..Start(ch, j) + ch]
  }

  /** Out of place: frame j becomes two copies of its mean. */
  function Mixed(buf: seq<int16>, ch: nat, frames: nat): (r: seq<int16>)
    requires Holds(buf, ch, frames)
    ensures |r| == 2 * frames
  {
    seq(2 * frames, k requires 0 <= k < 2 * frames => Mean(FrameAt(buf, ch, frames, k / 2)))
  }

  /** One frame of the loop: read at its start, written at 2 * j. */
  function MixFrame(buf: seq<int16>, ch: nat, frames: nat, j: nat): (r: seq<int16>)
    requires Holds(buf, ch, frames) && j < frames
    ensures |r| == |buf|
  {
    Pair(buf, 2 * j, Mean(FrameAt(buf, ch, frames, j)))
  }

  /** The same value stored twice at `at`. */
  function Pair(buf: seq<int16>, at: nat, m: int16): (r: seq<int16>)
    requires at + 2 <= |buf|
    ensures |r| == |buf|
  {
    buf[at := m][at + 1 := m]
  }

  /** The buffer after the loop has gone from frame j to the end. */
  function MixFrom(buf: seq<int16>, ch: nat, frames: nat, j: nat): (r: seq<int16>)
    requires Holds(buf, ch, frames) && j <= frames
    ensures |r| == |buf|
    decreases frames - j
  {
    if j == frames then buf else MixFrom(MixFrame(buf, ch, frames, j), ch, frames, j + 1)
  }

  /** From frame j on the buffer is untouched, before it holds the means. */
  ghost predicate MixedUpTo(orig: seq<int16>, buf: seq<int16>, ch: nat, frames: nat, j: nat)
    requires Holds(orig, ch, frames) && |buf| == |orig| && j <= frames
  {
    && buf[2 * j..] == orig[2 * j..]
    && forall k :: 0 <= k < 2 * j ==> buf[k] == Mixed(orig, ch, frames)[k]
  }

  lemma FrameUnread(orig: seq<int16>, buf: seq<int16>, ch: nat, frames: nat, j: nat)
    requires Holds(orig, ch, frames) && |buf| == |orig| && ch >= 2 && j < frames && buf[2 * j..] == orig[2 * j..]
    ensures FrameAt(buf, ch, frames, j) == FrameAt(orig, ch, frames, j)
  {
    StartAtLeast(ch, j);
    FrameInside(ch, frames, j);
    var lo := Start(ch, j);
    SameFrom(orig, buf, 2 * j, lo, lo + ch);
  }

  lemma SameFrom(a: seq<int16>, b: seq<int16>, from: nat, lo: nat, hi: nat)
    requires from <= lo <= hi <= |a| == |b| && a[from..] == b[from..]
    ensures a[lo..hi] == b[lo..hi]
  {
    SliceSlice(a, from, |a|, lo - from, hi - from);
    SliceSlice(b, from, |b|, lo - from, hi - from);
    assert a[from..|a|] == a[from..] && b[from..|b|] == b[from..];
  }

  lemma MixFrameStep(orig: seq<int16>, buf: seq<int16>, ch: nat, frames: nat, j: nat)
    requires Holds(orig, ch, frames) && |buf| == |orig| && ch >= 2 && j < frames
    requires MixedUpTo(orig, buf, ch, frames, j)
    ensures MixedUpTo(orig, MixFrame(buf, ch, frames, j), ch, frames, j + 1)
  {
    FrameUnread(orig, buf, ch, frames, j);
    var next := MixFrame(buf, ch, frames, j);
    assert next[2 * (j + 1)..] == buf[2 * j..][2..] == orig[2 * (j + 1)..];
  }

  lemma AllMixed(buf: seq<int16>, orig: seq<int16>, means: seq<int16>)
    requires |means| <= |buf| == |orig| && buf[|means|..] == orig[|means|..]
    requires forall k :: 0 <= k < |means| ==> buf[k] == means[k]
    ensures buf == means + orig[|means|..]
  {
    assert buf[..|means|] == means;
    assert buf == buf[..|means|] + buf[|means|..];
  }

  /** With two or more channels, a frame not yet read is never touched. */
  lemma {:induction false} UnreadIntact(orig: seq<int16>, buf: seq<int16>, ch: nat, frames: nat, j: nat)
    requires Holds(orig, ch, frames) && |buf| == |orig| && ch >= 2 && j <= frames
    requires MixedUpTo(orig, buf, ch, frames, j)
    ensures MixFrom(buf, ch, frames, j) == Mixed(orig, ch, frames) + orig[2 * frames..]
    decreases frames - j
  {
    if j == frames {
      AllMixed(buf, orig, Mixed(orig, ch, frames));
    } else {
      MixFrameStep(orig, buf, ch, frames, j);
      UnreadIntact(orig, MixFrame(buf, ch, frames, j), ch, frames, j + 1);
    }
  }

  /** Main result: in place equals out of place for every buffer and two or more channels. */
  lemma InPlaceIsSafe(buf: seq<int16>, ch: nat, frames: nat)
    requires Holds(buf, ch, frames) && ch >= 2
    ensures MixFrom(buf, ch, frames, 0) == Mixed(buf, ch, frames) + buf[2 * frames..]
  {
    UnreadIntact(buf, buf, ch, frames, 0);
  }

  /** In numbers: both output samples of frame j are the truncated mean of the original samples
      j * ch up to (j + 1) * ch. */
  lemma OutputInNumbers(buf: seq<int16>, ch: nat, frames: nat, j: nat)
    requires Holds(buf, ch, frames) && ch >= 2 && j < frames
    ensures j * ch + ch <= |buf|
    ensures var out, sum := MixFrom(buf, ch, frames, 0), Sum(buf[j * ch..j * ch + ch]);
            out[2 * j] == out[2 * j + 1] && IsMean(out[2 * j], sum, ch)
  {
    InPlaceIsSafe(buf, ch, frames);
    StartTimes(ch, j);
    FrameInside(ch, frames, j);
    MeanOfSum(FrameAt(buf, ch, frames, j));
    assert Mixed(buf, ch, frames)[2 * j] == Mean(FrameAt(buf, ch, frames, j)) == Mixed(buf, ch, frames)[2 * j + 1];
  }

  predicate IsHalf(m: int, left: int, right: int) {
    IsMean(m, left + right, 2)
  }

  /** For two channels: half the sum of the left and the right sample, truncated. */
  lemma StereoInNumbers(buf: seq<int16>, frames: nat, j: nat)
    requires Holds(buf, 2, frames) && j < frames
    ensures 2 * j + 2 <= |buf| && IsHalf(MixFrom(buf, 2, frames, 0)[2 * j], buf[2 * j], buf[2 * j + 1])
  {
    OutputInNumbers(buf, 2, frames, j);
    var l, r := buf[2 * j], buf[2 * j + 1];
    assert buf[j * 2..j * 2 + 2] == [l] + [r];
    SumAppend([l], [r]);
    SumOfOne(l);
    SumOfOne(r);
  }

  /** With one channel every frame reads what the one before it has written. */
  lemma {:induction false} MonoSmears(orig: seq<int16>, buf: seq<int16>, frames: nat, j: nat)
    requires Holds(orig, 1, frames) && |buf| == |orig| && 0 < j <= frames
    requires forall k :: 0 <= k < 2 * j ==> buf[k] == orig[0]
    ensures forall k :: 0 <= k < 2 * frames ==> MixFrom(buf, 1, frames, j)[k] == orig[0]
    decreases frames - j
  {
    if j < frames {
      MeanOfOne(buf, frames, j);
      MonoSmears(orig, MixFrame(buf, 1, frames, j), frames, j + 1);
    }
  }

  lemma MeanOfOne(buf: seq<int16>, frames: nat, j: nat)
    requires Holds(buf, 1, frames) && j < frames
    ensures Mean(FrameAt(buf, 1, frames, j)) == buf[j]
  {
    var xs := FrameAt(buf, 1, frames, j);
    StartTimes(1, j);
    assert xs == [buf[j]];
    assert xs[..0] == [];
    assert Sum(xs) == buf[j];
    WholeQuotient(Sum(xs));
  }

  lemma WholeQuotient(v: int)
    ensures TruncDiv(v, 1) == v
  {
  }

  /** So for one channel the two forms agree exactly on constant input. */
  lemma MonoUnsafe(buf: seq<int16>, frames: nat)
    requires Holds(buf, 1, frames) && frames > 0
    ensures MixFrom(buf, 1, frames, 0)[..2 * frames] == Mixed(buf, 1, frames) <==>
            forall j :: 0 <= j < frames ==> buf[j] == buf[0]
  {
    MeanOfOne(buf, frames, 0);
    var first, all, ref := MixFrame(buf, 1, frames, 0), MixFrom(buf, 1, frames, 0), Mixed(buf, 1, frames);
    MonoSmears(buf, first, frames, 1);
    assert all == MixFrom(first, 1, frames, 1);
    forall k | 0 <= k < 2 * frames
      ensures ref[k] == buf[k / 2] && all[..2 * frames][k] == buf[0]
    {
      MeanOfOne(buf, frames, k / 2);
    }
    if all[..2 * frames] == ref {
      forall j | 0 <= j < frames
        ensures buf[j] == buf[0]
      {
        assert ref[2 * j] == all[..2 * frames][2 * j];
      }
    }
  }

  // ------------------------------------------------------------- the imperative code

  /** The inner loop: the sum of the ch samples at `input`. */
  method AddChannels(a: array<int16>, input: nat, ch: nat) returns (dataL: int)
    requires input + ch <= a.Length
    ensures dataL == Sum(a[..][input..input + ch])
  {
    dataL := 0;
    ghost var xs := a[..][input..input + ch];
    for i := 0 to ch
      invariant dataL == Sum(xs[..i])
    {
      assert xs[..i + 1][..i] == xs[..i];
      dataL := dataL + a[input + i];
    }
    assert xs[..ch] == xs;
  }

  /** goal is what the loop makes of buf from frame j on, when it fits. */
  ghost predicate LeadsTo(buf: seq<int16>, ch: nat, frames: nat, j: nat, goal: seq<int16>) {
    j <= frames && (Holds(buf, ch, frames) ==> goal == MixFrom(buf, ch, frames, j))
  }

  lemma LeadsToStep(buf: seq<int16>, next: seq<int16>, ch: nat, frames: nat, j: nat, goal: seq<int16>)
    requires j < frames && Start(ch, j) + ch <= |buf| && 2 * j + 2 <= |buf| && ch > 0
    requires next == Pair(buf, 2 * j, Mean(buf[Start(ch, j)..Start(ch, j) + ch]))
    requires LeadsTo(buf, ch, frames, j, goal)
    ensures LeadsTo(next, ch, frames, j + 1, goal)
  {
    if Holds(buf, ch, frames) {
      assert next == MixFrame(buf, ch, frames, j);
    }
  }

  /** The loop body: frame j at `input` is mixed into the two samples at `output`. */
  method MixOne(a: array<int16>, size: nat, ch: nat, ghost j: nat, input: nat, output: nat, ghost goal: seq<int16>)
    requires ch > 0 && j < size && input == Start(ch, j) && input + ch <= a.Length && output == 2 * j <= a.Length - 2
    requires LeadsTo(a[..], ch, size, j, goal)
    modifies a
    ensures LeadsTo(a[..], ch, size, j + 1, goal)
  {
    ghost var buf := a[..];
    ghost var m := Mean(buf[input..input + ch]);
    var dataL := AddChannels(a, input, ch);
    dataL := TruncDiv(dataL, ch);
    assert dataL == m;
    a[output] := dataL;
    a[output + 1] := dataL;
    assert a[..] == Pair(buf, output, m);
    LeadsToStep(buf, a[..], ch, size, j, goal);
  }

  /** The frame loop over `size` frames; returns where the output pointer ends, and whether
      it went past the buffer, which is undefined in C. */
  method MixInPlace(a: array<int16>, size: nat, ch: nat) returns (overrun: bool, output: nat)
    requires ch > 0 && Start(ch, size) <= a.Length
    modifies a
    ensures overrun <==> !Holds(old(a[..]), ch, size)
    ensures !overrun ==> a[..] == MixFrom(old(a[..]), ch, size, 0) && output == 2 * size
  {
    ghost var goal := if Holds(a[..], ch, size) then MixFrom(a[..], ch, size, 0) else [];
    overrun, output := MixFrames(a, size, ch, goal);
  }

  method MixFrames(a: array<int16>, size: nat, ch: nat, ghost goal: seq<int16>) returns (overrun: bool, output: nat)
    requires ch > 0 && Start(ch, size) <= a.Length && LeadsTo(a[..], ch, size, 0, goal)
    modifies a
    ensures overrun <==> 2 * size > a.Length
    ensures !overrun ==> LeadsTo(a[..], ch, size, size, goal) && output == 2 * size
  {
    var input := 0;
    output, overrun := 0, false;
    for j := 0 to size
      invariant input == Start(ch, j) && output == 2 * j <= a.Length
      invariant LeadsTo(a[..], ch, size, j, goal)
    {
      FrameInside(ch, size, j);
      if output + 2 > a.Length {
        return true, output;
      }
      MixOne(a, size, ch, j, input, output, goal);
      input := input + ch;
      output := output + 2;
    }
  }

  /** param.size / (byte_length * input_ch), with two bytes to a sample. */
  function FrameCount(paramSize: nat, ch: nat): (n: nat)
    requires ch > 0
  {
    Quotient(paramSize, 2 * ch)
  }

  function Quotient(a: nat, b: nat): (q: nat)
    requires b > 0
  {
    a / b
  }

  lemma FrameCountFits(samples: nat, ch: nat)
    requires ch > 0
    ensures Start(ch, FrameCount(2 * samples, ch)) <= samples < Start(ch, FrameCount(2 * samples, ch)) + ch
  {
    var q := FrameCount(2 * samples, ch);
    StartTimes(ch, q);
    QuotientMultiple(2 * samples, 2 * ch);
    assert 2 * ch * q == 2 * (q * ch);
  }

  /** Every whole frame of the buffer is mixed, and nothing else. */
  lemma WholeFrames(samples: nat, ch: nat)
    requires ch > 0
    ensures var f := FrameCount(2 * samples, ch);
            f * ch <= samples < f * ch + ch
  {
    FrameCountFits(samples, ch);
    StartTimes(ch, FrameCount(2 * samples, ch));
  }

  /** The callback for 16-bit samples on a buffer of that many samples: the whole of it is
      mixed, and newSize is the size in bytes reported to the mixer. */
  method DoneCallback(a: array<int16>, samples: nat, ch: nat) returns (overrun: bool, newSize: nat)
    requires ch > 0 && samples <= a.Length
    modifies a
    ensures var frames := FrameCount(2 * samples, ch);
            && (overrun <==> !Holds(old(a[..]), ch, frames))
            && (!overrun ==> a[..] == MixFrom(old(a[..]), ch, frames, 0) && newSize == 4 * frames)
  {
    var size := FrameCount(2 * samples, ch);
    FrameCountFits(samples, ch);
    var output;
    overrun, output := MixInPlace(a, size, ch);
    newSize := 2 * output;
  }
}
