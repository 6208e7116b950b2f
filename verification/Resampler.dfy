/** Conversion between sample rates, one of which is a multiple of the other. */
module Resampler {
  import opened Words

  // ---------- cells ----------

  /** The place of a channel's sample in a buffer of interleaved frames. */
  function Cell(frame: nat, channel: nat, channels: nat): nat {
    frame * channels + channel
  }

  lemma CellsOrdered(f: nat, c: nat, f': nat, c': nat, channels: nat)
    requires c < channels && c' < channels && (f < f' || (f == f' && c < c'))
    ensures Cell(f, c, channels) < Cell(f', c', channels)
  {
    if f < f' {
      assert (f + 1) * channels <= f' * channels;
    }
  }

  lemma CellWithin(f: nat, c: nat, frames: nat, channels: nat)
    requires f < frames && c < channels
    ensures Cell(f, c, channels) < frames * channels
  {
    assert (f + 1) * channels <= frames * channels;
  }

  lemma NextCell(f: nat, c: nat, channels: nat)
    ensures Cell(f, c + 1, channels) == Cell(f, c, channels) + 1
    ensures Cell(f, channels, channels) == Cell(f + 1, 0, channels)
  {
  }

  /** Frame `s` of group `i`. */
  function Frame(i: nat, s: nat, factor: nat): nat {
    i * factor + s
  }

  lemma FrameWithin(i: nat, s: nat, groups: nat, factor: nat)
    requires i < groups && s < factor
    ensures Frame(i, s, factor) < groups * factor
  {
    assert (i + 1) * factor <= groups * factor;
  }

  lemma FrameAtLeast(i: nat, s: nat, factor: nat)
    requires factor >= 1
    ensures Frame(i, s, factor) >= i
  {
    assert i * 1 <= i * factor;
  }

  lemma Groups(numSamples: nat, factor: nat)
    requires factor >= 1
    ensures numSamples / factor * factor <= numSamples
  {
  }

  /** Every cell of `frames` frames belongs to one channel of one frame. */
  lemma CellCovered(k: nat, frames: nat, channels: nat) returns (f: nat, c: nat)
    requires k < frames * channels
    ensures f < frames && c < channels && k == Cell(f, c, channels)
  {
    f, c := k / channels, k % channels;
    assert k == f * channels + c;
    assert f >= frames ==> frames * channels <= f * channels;
  }

  // ---------- compressing ----------

  /** How often `b` fits into `a`. */
  function Times(a: nat, b: nat): (q: nat)
    requires b > 0
  {
    if a < b then 0 else 1 + Times(a - b, b)
  }

  /** The division of C++, towards zero. */
  function Quotient(a: int, b: nat): int
    requires b > 0
  {
    if a < 0 then -(Times(-a, b) as int) else Times(a, b)
  }

  /** The running value over a group of samples. */
  function Accumulated(group: seq<int>): int {
    if group == [] then 0
    else
      var s := |group| - 1;
      (if s > 0 then Quotient(Accumulated(group[..s]) * (s - 1), s) else 0) + Quotient(group[s], s + 1)
  }

  lemma {:induction false} TimesBounds(a: nat, b: nat)
    requires b > 0
    ensures b * Times(a, b) <= a < b * Times(a, b) + b
  {
    if a < b {
    } else {
      TimesBounds(a - b, b);
      assert b * Times(a, b) == b + b * Times(a - b, b);
    }
  }

  lemma QuotientBounds(a: int, b: nat)
    requires b > 0
    ensures a >= 0 ==> 0 <= b * Quotient(a, b) <= a
    ensures a <= 0 ==> a <= b * Quotient(a, b) <= 0
  {
    hide Times;
    TimesBounds(if a < 0 then -a else a, b);
  }

  lemma NoMore(s: nat, x: int, high: int)
    requires s > 0 && s * x <= s * high
    ensures x <= high
  {
    assert x > high ==> s * x >= s * (high + 1);
  }

  lemma Smaller(a: int, b: int, s: nat)
    requires a <= b
    ensures a * s <= b * s
  {
  }

  lemma Scaled(a: int, s: nat, high: nat)
    requires s > 0 && a <= high
    ensures s * Quotient(a * (s - 1), s) <= high * (s - 1)
  {
    hide Quotient;
    var t: nat := s - 1;
    QuotientBounds(a * t, s);
    Smaller(a, high, t);
    Smaller(0, high, t);
    if a < 0 { Smaller(a, 0, t); }
  }

  lemma Shared(x: int, s: nat, high: nat)
    requires x <= high
    ensures s * Quotient(x, s + 1) <= high
  {
    hide Quotient;
    var y := Quotient(x, s + 1);
    QuotientBounds(x, s + 1);
    assert (s + 1) * y == s * y + y;
    if y < 0 { assert s * y <= 0; }
  }

  lemma BelowLimit(a: int, x: int, s: nat, high: nat)
    requires s > 0 && a <= high && x <= high
    ensures Quotient(a * (s - 1), s) + Quotient(x, s + 1) <= high
  {
    hide Quotient;
    var q, y := Quotient(a * (s - 1), s), Quotient(x, s + 1);
    Scaled(a, s, high);
    Shared(x, s, high);
    assert s * (q + y) == s * q + s * y;
    assert high * (s - 1) + high == s * high;
    NoMore(s, q + y, high);
  }

  lemma QuotientNegated(a: int, b: nat)
    requires b > 0
    ensures Quotient(-a, b) == -Quotient(a, b)
  {
    hide Times;
    if a == 0 { TimesBounds(0, b); }
  }

  lemma AccumulatedStep(a: int, x: int, s: nat, low: int, high: nat)
    requires s > 0 && low <= 0 && low <= a <= high && low <= x <= high
    ensures low <= Quotient(a * (s - 1), s) + Quotient(x, s + 1) <= high
  {
    hide Quotient;
    BelowLimit(a, x, s, high);
    BelowLimit(-a, -x, s, -low);
    assert -a * (s - 1) == -(a * (s - 1));
    QuotientNegated(a * (s - 1), s);
    QuotientNegated(x, s + 1);
  }

  lemma QuotientOne(x: int)
    ensures Quotient(x, 1) == x
  {
    hide Times;
    TimesBounds(if x < 0 then -x else x, 1);
  }

  /** The running value never leaves the range of the samples, whatever the number of samples is. */
  lemma {:induction false} AccumulatorInRange(group: seq<int>, low: int, high: int)
    requires low <= 0 <= high && forall s | 0 <= s < |group| :: low <= group[s] <= high
    ensures low <= Accumulated(group) <= high
    decreases |group|
  {
    hide Quotient;
    if group == [] {
    } else {
      var s := |group| - 1;
      AccumulatorInRange(group[..s], low, high);
      if s == 0 {
        QuotientOne(group[0]);
      } else {
        AccumulatedStep(Accumulated(group[..s]), group[s], s, low, high);
      }
    }
  }

  /** The samples of a channel in one group of frames. */
  function Group(input: seq<int>, i: nat, c: nat, channels: nat, factor: nat): seq<int>
    requires forall s | 0 <= s < factor :: Cell(Frame(i, s, factor), c, channels) < |input|
  {
    seq(factor, s requires 0 <= s < factor => input[Cell(Frame(i, s, factor), c, channels)])
  }

  lemma GroupWithin(size: nat, i: nat, s: nat, c: nat, channels: nat, factor: nat, numSamples: nat)
    requires factor >= 1 && numSamples * channels <= size && i < numSamples / factor && s < factor && c < channels
    ensures Cell(Frame(i, s, factor), c, channels) < size
    ensures Cell(i, c, channels) <= Cell(Frame(i, s, factor), c, channels)
  {
    Groups(numSamples, factor);
    FrameWithin(i, s, numSamples / factor, factor);
    CellWithin(Frame(i, s, factor), c, numSamples, channels);
    FrameAtLeast(i, s, factor);
    if i < Frame(i, s, factor) { CellsOrdered(i, c, Frame(i, s, factor), c, channels); }
  }

  /** What a compressed buffer holds: for each group and channel the value of the group, and behind them
      what was there before. */
  ghost predicate CompressedFrom(input: seq<int>, before: seq<int>, after: seq<int>,
                                 numSamples: nat, channels: nat, factor: nat)
    requires factor >= 1 && numSamples * channels <= |input| && |after| == |before|
  {
    && (forall i: nat, c: nat | i < numSamples / factor && c < channels ::
          Cell(i, c, channels) < |after| && Written(input, after, i, c, channels, factor, numSamples))
    && (forall k | numSamples / factor * channels <= k < |after| :: after[k] == before[k])
  }

  ghost predicate Written(input: seq<int>, after: seq<int>, i: nat, c: nat, channels: nat, factor: nat, numSamples: nat)
    requires factor >= 1 && numSamples * channels <= |input| && i < numSamples / factor && c < channels
    requires Cell(i, c, channels) < |after|
  {
    forall s | 0 <= s < factor ensures Cell(Frame(i, s, factor), c, channels) < |input| {
      GroupWithin(|input|, i, s, c, channels, factor, numSamples);
    }
    after[Cell(i, c, channels)] == Accumulated(Group(input, i, c, channels, factor))
  }

  /** The cells in front of channel `c` of frame `i` are written, the others are as before. */
  ghost predicate CompressedUpTo(input: seq<int>, before: seq<int>, after: seq<int>, numSamples: nat, channels: nat,
                                 factor: nat, i: nat, c: nat)
    requires factor >= 1 && numSamples * channels <= |input| && |after| == |before|
  {
    && (forall j: nat, d: nat | j < numSamples / factor && d < channels && (j < i || (j == i && d < c)) ::
          Cell(j, d, channels) < |after| && Written(input, after, j, d, channels, factor, numSamples))
    && (forall k | Cell(i, c, channels) <= k < |after| :: after[k] == before[k])
  }

  lemma WriteCell(input: seq<int>, before: seq<int>, after: seq<int>, numSamples: nat, channels: nat, factor: nat,
                  i: nat, c: nat, next: seq<int>)
    requires factor >= 1 && numSamples * channels <= |input| && |after| == |before|
    requires i < numSamples / factor && c < channels && Cell(i, c, channels) < |after| == |next|
    requires CompressedUpTo(input, before, after, numSamples, channels, factor, i, c)
    requires forall k | 0 <= k < |after| :: k != Cell(i, c, channels) ==> next[k] == after[k]
    requires Written(input, next, i, c, channels, factor, numSamples)
    ensures CompressedUpTo(input, before, next, numSamples, channels, factor, i, c + 1)
  {
    hide Cell, Group, Accumulated;
    NextCell(i, c, channels);
    forall j: nat, d: nat | j < numSamples / factor && d < channels && (j < i || (j == i && d < c + 1))
      ensures Cell(j, d, channels) < |next| && Written(input, next, j, d, channels, factor, numSamples)
    {
      if j < i || d < c { CellsOrdered(j, d, i, c, channels); }
    }
  }

  /** One group of samples of a channel, with the running value always in the range of the samples. */
  method CompressGroup(input: array<int>, i: nat, c: nat, numChannels: nat, factor: nat, numSamples: nat,
                       low: int, high: int)
    returns (tmp: int)
    requires factor >= 1 && numSamples * numChannels <= input.Length && i < numSamples / factor && c < numChannels
    requires low <= 0 <= high && forall k | 0 <= k < input.Length :: low <= input[k] <= high
    ensures tmp == Accumulated(WholeGroup(input[..], i, c, numChannels, factor, numSamples))
    ensures low <= tmp <= high
  {
    hide Cell, Frame, Accumulated, Quotient;
    tmp := 0;
    ghost var group := WholeGroup(input[..], i, c, numChannels, factor, numSamples);
    assert group[..0] == [];
    NoSamples();
    for s := 0 to factor
      invariant tmp == Accumulated(group[..s])
      invariant low <= tmp <= high
    {
      GroupWithin(input.Length, i, s, c, numChannels, factor, numSamples);
      tmp := (if s > 0 then Quotient(tmp * (s - 1), s) else 0)
             + Quotient(input[Cell(Frame(i, s, factor), c, numChannels)], s + 1);
      OneMoreSample(group, s);
      AccumulatorInRange(group[..s + 1], low, high);
    }
    assert group[..factor] == group;
  }

  /** Every group of `factor` samples of a channel becomes one sample. The buffers may be one and the same. */
  method Compress(input: array<int>, output: array<int>, numSamples: nat, numChannels: nat, factor: nat,
                  low: int, high: int)
    returns (n: nat)
    requires factor >= 1 && numSamples * numChannels <= input.Length
    requires numSamples / factor * numChannels <= output.Length
    requires low <= 0 <= high && forall k | 0 <= k < input.Length :: low <= input[k] <= high
    modifies output
    ensures n == numSamples / factor
    ensures CompressedFrom(old(input[..]), old(output[..]), output[..], numSamples, numChannels, factor)
    ensures input == output ==> forall k | 0 <= k < input.Length :: low <= input[k] <= high
  {
    hide Cell, Accumulated, WholeGroup, Written, CompressedUpTo, CompressedFrom;
    n := numSamples / factor;
    ghost var samples, before := input[..], output[..];
    Start(samples, before, numSamples, numChannels, factor);
    for i := 0 to n
      invariant CompressedUpTo(samples, before, output[..], numSamples, numChannels, factor, i, 0)
      invariant input != output ==> input[..] == samples
      invariant forall k | 0 <= k < input.Length :: low <= input[k] <= high
    {
      for c := 0 to numChannels
        invariant CompressedUpTo(samples, before, output[..], numSamples, numChannels, factor, i, c)
        invariant input != output ==> input[..] == samples
        invariant forall k | 0 <= k < input.Length :: low <= input[k] <= high
      {
        var tmp := CompressGroup(input, i, c, numChannels, factor, numSamples, low, high);
        if input == output {
          GroupUntouched(samples, input[..], i, c, numChannels, factor, numSamples);
        }
        CellWithin(i, c, n, numChannels);
        ghost var after := output[..];
        output[Cell(i, c, numChannels)] := tmp;
        GroupWritten(samples, output[..], i, c, numChannels, factor, numSamples);
        WriteCell(samples, before, after, numSamples, numChannels, factor, i, c, output[..]);
      }
      NextFrame(samples, before, output[..], numSamples, numChannels, factor, i);
    }
    Finish(samples, before, output[..], numSamples, numChannels, factor);
  }

  /** The samples of a group are still there when its turn comes in a shared buffer. */
  lemma GroupUntouched(samples: seq<int>, now: seq<int>, i: nat, c: nat, channels: nat, factor: nat, numSamples: nat)
    requires factor >= 1 && numSamples * channels <= |samples| == |now| && i < numSamples / factor && c < channels
    requires CompressedUpTo(samples, samples, now, numSamples, channels, factor, i, c)
    ensures WholeGroup(now, i, c, channels, factor, numSamples)
            == WholeGroup(samples, i, c, channels, factor, numSamples)
  {
    hide Cell, Frame, Written;
    forall s | 0 <= s < factor
      ensures WholeGroup(now, i, c, channels, factor, numSamples)[s]
              == WholeGroup(samples, i, c, channels, factor, numSamples)[s]
    {
      GroupWithin(|now|, i, s, c, channels, factor, numSamples);
    }
  }

  ghost function WholeGroup(input: seq<int>, i: nat, c: nat, channels: nat, factor: nat, numSamples: nat): (g: seq<int>)
    requires factor >= 1 && numSamples * channels <= |input| && i < numSamples / factor && c < channels
    ensures forall s | 0 <= s < factor :: Cell(Frame(i, s, factor), c, channels) < |input|
    ensures g == Group(input, i, c, channels, factor)
  {
    forall s | 0 <= s < factor ensures Cell(Frame(i, s, factor), c, channels) < |input| {
      GroupWithin(|input|, i, s, c, channels, factor, numSamples);
    }
    Group(input, i, c, channels, factor)
  }

  lemma NoSamples()
    ensures Accumulated([]) == 0
  {
  }

  lemma OneMoreSample(group: seq<int>, s: nat)
    requires s < |group|
    ensures Accumulated(group[..s + 1]) ==
            (if s > 0 then Quotient(Accumulated(group[..s]) * (s - 1), s) else 0) + Quotient(group[s], s + 1)
  {
    assert group[..s + 1][..s] == group[..s];
  }

  lemma GroupWritten(input: seq<int>, after: seq<int>, i: nat, c: nat, channels: nat, factor: nat, numSamples: nat)
    requires factor >= 1 && numSamples * channels <= |input| && i < numSamples / factor && c < channels
    requires Cell(i, c, channels) < |after|
    requires after[Cell(i, c, channels)] == Accumulated(WholeGroup(input, i, c, channels, factor, numSamples))
    ensures Written(input, after, i, c, channels, factor, numSamples)
  {
  }

  lemma Start(input: seq<int>, before: seq<int>, numSamples: nat, channels: nat, factor: nat)
    requires factor >= 1 && numSamples * channels <= |input|
    ensures CompressedUpTo(input, before, before, numSamples, channels, factor, 0, 0)
  {
  }

  lemma NextFrame(input: seq<int>, before: seq<int>, after: seq<int>, numSamples: nat, channels: nat,
                  factor: nat, i: nat)
    requires factor >= 1 && numSamples * channels <= |input| && |after| == |before|
    requires CompressedUpTo(input, before, after, numSamples, channels, factor, i, channels)
    ensures CompressedUpTo(input, before, after, numSamples, channels, factor, i + 1, 0)
  {
    hide Cell, Written;
    NextCell(i, 0, channels);
  }

  lemma Finish(input: seq<int>, before: seq<int>, after: seq<int>, numSamples: nat, channels: nat, factor: nat)
    requires factor >= 1 && numSamples * channels <= |input| && |after| == |before|
    requires CompressedUpTo(input, before, after, numSamples, channels, factor, numSamples / factor, 0)
    ensures CompressedFrom(input, before, after, numSamples, channels, factor)
  {
    hide Written;
    assert Cell(numSamples / factor, 0, channels) == numSamples / factor * channels;
    hide Cell;
  }

  /** Compressing in place gives the same samples as compressing into another buffer. */
  lemma InPlaceAsSeparate(input: seq<int>, before: seq<int>, shared: seq<int>, separate: seq<int>,
                          numSamples: nat, channels: nat, factor: nat)
    requires factor >= 1 && numSamples * channels <= |input| == |shared| && |before| == |separate|
    requires numSamples / factor * channels <= |shared| && numSamples / factor * channels <= |separate|
    requires CompressedFrom(input, input, shared, numSamples, channels, factor)
    requires CompressedFrom(input, before, separate, numSamples, channels, factor)
    ensures shared[..numSamples / factor * channels] == separate[..numSamples / factor * channels]
  {
    hide Cell;
    var n := numSamples / factor;
    forall k | 0 <= k < n * channels ensures shared[k] == separate[k] {
      var f, c := CellCovered(k, n, channels);
      assert Written(input, shared, f, c, channels, factor, numSamples);
      assert Written(input, separate, f, c, channels, factor, numSamples);
    }
  }

  // ---------- the value of a group ----------

  function Sum(group: seq<int>): int {
    if group == [] then 0 else Sum(group[..|group| - 1]) + group[|group| - 1]
  }

  /** The first of several samples does not count at all. */
  lemma {:induction false} FirstIgnored(group: seq<int>, x: int)
    requires |group| >= 2
    ensures Accumulated(group) == Accumulated(group[0 := x])
    decreases |group|
  {
    hide Quotient;
    var s, other := |group| - 1, group[0 := x];
    assert other[..s] == group[..s][0 := x];
    if s > 1 {
      FirstIgnored(group[..s], x);
    } else {
      assert Accumulated(group[..s]) * 0 == Accumulated(other[..s]) * 0;
    }
  }

  lemma {:induction false} Silence(n: nat)
    ensures Accumulated(seq(n, _ => 0)) == 0 && Sum(seq(n, _ => 0)) == 0
  {
    if n == 0 {
    } else {
      Silence(n - 1);
      assert seq(n, _ => 0)[..n - 1] == seq(n - 1, _ => 0);
      QuotientZero(n);
      if n > 1 { QuotientZero(n - 1); }
    }
  }

  lemma QuotientZero(b: nat)
    requires b > 0
    ensures Quotient(0, b) == 0
  {
  }

  lemma {:induction false} SumFirst(x: int, n: nat)
    ensures Sum([x] + seq(n, _ => 0)) == x
    decreases n
  {
    var g := [x] + seq(n, _ => 0);
    if n > 0 {
      SumFirst(x, n - 1);
      assert g[..n] == [x] + seq(n - 1, _ => 0);
    } else {
      assert g[..0] == [];
    }
  }

  ghost predicate IsMean(factor: nat)
    requires factor >= 1
  {
    forall group: seq<int> | |group| == factor :: Accumulated(group) == Quotient(Sum(group), factor)
  }

  /** The value of a group is the arithmetic mean of its samples for groups of one sample only. */
  lemma MeanExactly(factor: nat)
    requires factor >= 1
    ensures IsMean(factor) <==> factor == 1
  {
    if factor == 1 {
      forall group: seq<int> | |group| == 1 ensures Accumulated(group) == Quotient(Sum(group), 1) {
        assert group[..0] == [];
        assert Sum(group[..0]) == 0;
      }
    } else {
      var zeros := seq(factor - 1, _ => 0);
      var group := [factor] + zeros;
      assert group[0 := 0] == seq(factor, _ => 0);
      FirstIgnored(group, 0);
      Silence(factor);
      SumFirst(factor, factor - 1);
      assert Times(factor, factor) == 1 + Times(0, factor);
    }
  }

  // ---------- widths ----------

  predicate InInt(x: int) { -0x8000_0000 <= x < 0x8000_0000 }

  /** Every product of the running value fits into an `int`. */
  predicate ProductsFit(group: seq<int>) {
    group == []
    || (ProductsFit(group[..|group| - 1]) && InInt(Accumulated(group[..|group| - 1]) * (|group| - 2)))
  }

  predicate InRange(group: seq<int>, low: int, high: int) {
    forall s | 0 <= s < |group| :: low <= group[s] <= high
  }

  lemma ProductBound(a: int, n: nat, bound: int, most: nat)
    requires -bound <= a <= bound && n <= most
    ensures -(bound * most) <= a * n <= bound * most
  {
    Smaller(a, bound, n);
    Smaller(-bound, a, n);
    Smaller(n, most, bound);
    assert -bound * n == -(bound * n) && n * bound == bound * n && most * bound == bound * most;
  }

  /** For samples of 8 and 16 bits all products fit, whatever the factor is. */
  lemma {:induction false} SmallSamplesFit(group: seq<int>)
    requires |group| < 0x100 && InRange(group, -0x8000, 0x7FFF)
    ensures ProductsFit(group)
  {
    hide Accumulated;
    if group == [] {
    } else {
      var front := group[..|group| - 1];
      SmallSamplesFit(front);
      AccumulatorInRange(front, -0x8000, 0x7FFF);
      if |group| >= 2 { ProductBound(Accumulated(front), |group| - 2, 0x8000, 0x100); }
    }
  }

  /** Samples of 32 bits that overflow the product behind the third sample. */
  function Overflowing(factor: nat): seq<int>
    requires factor >= 4
  {
    [0, 0x7FFF_FFFF, 0x7FFF_FFFF] + seq(factor - 3, _ => 0)
  }

  lemma ThreeSamples()
    ensures Accumulated([0, 0x7FFF_FFFF, 0x7FFF_FFFF]) == 0x3FFF_FFFF / 2 + 0x7FFF_FFFF / 3
  {
    var g := [0, 0x7FFF_FFFF, 0x7FFF_FFFF];
    assert g[..2] == [0, 0x7FFF_FFFF] && g[..2][..1] == [0] && g[..2][..1][..0] == [];
    assert Accumulated([0]) == Quotient(0, 1);
    TimesIs(0x7FFF_FFFF, 2, 0x3FFF_FFFF);
    TimesIs(0x7FFF_FFFF, 3, 0x7FFF_FFFF / 3);
    TimesIs(0x3FFF_FFFF, 2, 0x3FFF_FFFF / 2);
    TimesIs(0, 1, 0);
    assert Quotient(0 * 0, 1) == 0;
    assert Accumulated([0, 0x7FFF_FFFF]) == 0x3FFF_FFFF;
  }

  lemma TimesIs(a: nat, b: nat, q: nat)
    requires 0 < b <= 3 && b * q <= a < b * q + b
    ensures Times(a, b) == q
  {
    hide Times;
    TimesBounds(a, b);
  }

  lemma {:induction false} FrontFits(group: seq<int>, n: nat)
    requires n <= |group|
    ensures ProductsFit(group) ==> ProductsFit(group[..n])
    decreases |group|
  {
    hide Accumulated;
    if n == |group| {
      assert group[..n] == group;
    } else {
      var front := group[..|group| - 1];
      FrontFits(front, n);
      assert front[..n] == group[..n];
    }
  }

  lemma OverflowingFails(factor: nat)
    requires factor >= 4
    ensures |Overflowing(factor)| == factor && InRange(Overflowing(factor), -0x8000_0000, 0x7FFF_FFFF)
    ensures !ProductsFit(Overflowing(factor))
  {
    hide Accumulated;
    var group := Overflowing(factor);
    FrontFits(group, 4);
    assert group[..4][..3] == [0, 0x7FFF_FFFF, 0x7FFF_FFFF];
    ThreeSamples();
    assert !InInt((0x3FFF_FFFF / 2 + 0x7FFF_FFFF / 3) * 2);
  }

  /** With samples of 32 bits the products of all groups of a size fit exactly up to three samples. */
  lemma WideSamplesFit(factor: nat)
    requires 1 <= factor
    ensures (forall group: seq<int> | |group| == factor && InRange(group, -0x8000_0000, 0x7FFF_FFFF) ::
               ProductsFit(group))
            <==> factor <= 3
  {
    hide ProductsFit, InRange;
    if factor <= 3 {
      forall group: seq<int> | |group| == factor && InRange(group, -0x8000_0000, 0x7FFF_FFFF)
        ensures ProductsFit(group)
      {
        ThreeFit(group);
      }
    } else {
      OverflowingFails(factor);
    }
  }

  lemma {:induction false} ThreeFit(group: seq<int>)
    requires |group| <= 3 && InRange(group, -0x8000_0000, 0x7FFF_FFFF)
    ensures ProductsFit(group)
  {
    hide Accumulated;
    if group == [] {
    } else {
      var front := group[..|group| - 1];
      ThreeFit(front);
      if |group| == 1 {
        assert front == [];
        NoSamples();
      } else {
        AccumulatorInRange(front, -0x8000_0000, 0x7FFF_FFFF);
      }
    }
  }

  // ---------- floating-point samples, without rounding ----------

  function RealAccumulated(group: seq<real>): real {
    if group == [] then 0.0
    else
      var s := |group| - 1;
      (if s > 0 then RealAccumulated(group[..s]) * (s - 1) as real / s as real else 0.0) + group[s] / (s + 1) as real
  }

  /** Sample `s` counts `s / (s + 1)` times. */
  function Weighted(group: seq<real>): real {
    if group == [] then 0.0
    else
      var s := |group| - 1;
      Weighted(group[..s]) + group[s] * s as real / (s + 1) as real
  }

  lemma RealStep(a: real, x: real, w: real, s: nat)
    requires s > 0 && a * (s - 1) as real == w
    ensures (a * (s - 1) as real / s as real + x / (s + 1) as real) * s as real == w + x * s as real / (s + 1) as real
  {
    var t, u := s as real, (s + 1) as real;
    assert a * (s - 1) as real / t * t == w;
    assert x / u * t == x * t / u;
  }

  /** The value of a group of reals is the mean of `n - 1` samples, each shrunk by its weight; the first one is lost. */
  lemma {:induction false} RealClosedForm(group: seq<real>)
    requires |group| >= 1
    ensures |group| >= 2 ==> RealAccumulated(group) * (|group| - 1) as real == Weighted(group)
    ensures |group| == 1 ==> RealAccumulated(group) == group[0]
    decreases |group|
  {
    var s := |group| - 1;
    if s == 0 {
    } else {
      var front := group[..s];
      RealClosedForm(front);
      if s == 1 {
        assert front[..0] == [];
        assert Weighted(front) == Weighted([]) + front[0] * 0.0 / 1.0;
      }
      RealStep(RealAccumulated(front), group[s], Weighted(front), s);
    }
  }

  // ---------- extrapolating ----------

  /** Each sample is repeated in `factor` frames, and what is behind them is as before. */
  ghost predicate ExtrapolatedFrom(input: seq<int>, before: seq<int>, after: seq<int>,
                                   numSamples: nat, channels: nat, factor: nat)
    requires |after| == |before|
  {
    && (forall i: nat, c: nat, s: nat | i < numSamples && c < channels && s < factor ::
          Repeated(input, after, i, c, s, channels, factor))
    && (forall k | numSamples * factor * channels <= k < |after| :: after[k] == before[k])
  }

  ghost predicate Repeated(input: seq<int>, after: seq<int>, i: nat, c: nat, s: nat, channels: nat, factor: nat) {
    && Cell(i, c, channels) < |input|
    && Cell(Frame(i, s, factor), c, channels) < |after|
    && after[Cell(Frame(i, s, factor), c, channels)] == input[Cell(i, c, channels)]
  }

  lemma RepeatedWithin(i: nat, c: nat, s: nat, numSamples: nat, channels: nat, factor: nat)
    requires i < numSamples && c < channels && s < factor
    ensures Cell(i, c, channels) < numSamples * channels
    ensures Cell(Frame(i, s, factor), c, channels) < numSamples * factor * channels
  {
    CellWithin(i, c, numSamples, channels);
    FrameWithin(i, s, numSamples, factor);
    CellWithin(Frame(i, s, factor), c, numSamples * factor, channels);
  }

  lemma CellsDistinct(f: nat, c: nat, f': nat, c': nat, channels: nat)
    requires c < channels && c' < channels && (f != f' || c != c')
    ensures Cell(f, c, channels) != Cell(f', c', channels)
  {
    if f < f' || (f == f' && c < c') {
      CellsOrdered(f, c, f', c', channels);
    } else {
      CellsOrdered(f', c', f, c, channels);
    }
  }

  /** Different places in the loops write different cells. */
  lemma RepeatedDistinct(i: nat, c: nat, s: nat, i': nat, c': nat, s': nat, channels: nat, factor: nat)
    requires c < channels && c' < channels && s < factor && s' < factor && (i != i' || c != c' || s != s')
    ensures Cell(Frame(i, s, factor), c, channels) != Cell(Frame(i', s', factor), c', channels)
  {
    assert Frame(i, s, factor) == Cell(i, s, factor) && Frame(i', s', factor) == Cell(i', s', factor);
    if i != i' || s != s' { CellsDistinct(i, s, i', s', factor); }
    CellsDistinct(Frame(i, s, factor), c, Frame(i', s', factor), c', channels);
  }

  predicate Earlier(i: nat, c: nat, s: nat, i': nat, c': nat, s': nat) {
    i < i' || (i == i' && (c < c' || (c == c' && s < s')))
  }

  /** All places in front of one in the loops are written. */
  ghost predicate RepeatedUpTo(input: seq<int>, after: seq<int>, channels: nat, factor: nat, i: nat, c: nat, s: nat) {
    forall j: nat, d: nat, t: nat | d < channels && t < factor && Earlier(j, d, t, i, c, s) ::
      Repeated(input, after, j, d, t, channels, factor)
  }

  lemma RepeatOne(input: seq<int>, after: seq<int>, next: seq<int>, channels: nat, factor: nat, i: nat, c: nat, s: nat)
    requires c < channels && s < factor && RepeatedUpTo(input, after, channels, factor, i, c, s)
    requires |next| == |after| && Repeated(input, next, i, c, s, channels, factor)
    requires forall k | 0 <= k < |after| :: k != Cell(Frame(i, s, factor), c, channels) ==> next[k] == after[k]
    ensures RepeatedUpTo(input, next, channels, factor, i, c, s + 1)
  {
    hide Cell, Frame;
    forall j: nat, d: nat, t: nat | d < channels && t < factor && Earlier(j, d, t, i, c, s + 1)
      ensures Repeated(input, next, j, d, t, channels, factor)
    {
      if Earlier(j, d, t, i, c, s) {
        assert Repeated(input, after, j, d, t, channels, factor);
        RepeatedDistinct(j, d, t, i, c, s, channels, factor);
      }
    }
  }

  method Extrapolate(input: array<int>, output: array<int>, numSamples: nat, numChannels: nat, factor: nat)
    returns (n: nat)
    requires input != output
    requires numSamples * numChannels <= input.Length && numSamples * factor * numChannels <= output.Length
    modifies output
    ensures n == numSamples * factor
    ensures ExtrapolatedFrom(input[..], old(output[..]), output[..], numSamples, numChannels, factor)
  {
    hide Cell, Frame, Repeated, RepeatedUpTo, ExtrapolatedFrom;
    ghost var samples, before := input[..], output[..];
    ghost var size := numSamples * factor * numChannels;
    NothingRepeated(samples, before, numChannels, factor);
    for i := 0 to numSamples
      invariant RepeatedUpTo(samples, output[..], numChannels, factor, i, 0, 0)
      invariant output[size..] == before[size..]
    {
      for c := 0 to numChannels
        invariant RepeatedUpTo(samples, output[..], numChannels, factor, i, c, 0)
        invariant output[size..] == before[size..]
      {
        for s := 0 to factor
          invariant RepeatedUpTo(samples, output[..], numChannels, factor, i, c, s)
          invariant output[size..] == before[size..]
        {
          RepeatedWithin(i, c, s, numSamples, numChannels, factor);
          ghost var after := output[..];
          output[Cell(Frame(i, s, factor), c, numChannels)] := input[Cell(i, c, numChannels)];
          RepetitionWritten(samples, output[..], i, c, s, numChannels, factor);
          RepeatOne(samples, after, output[..], numChannels, factor, i, c, s);
        }
        NextPlace(samples, output[..], numChannels, factor, i, c);
      }
      NextGroup(samples, output[..], numChannels, factor, i);
    }
    AllRepeated(samples, before, output[..], numSamples, numChannels, factor);
    n := numSamples * factor;
  }

  lemma NothingRepeated(input: seq<int>, after: seq<int>, channels: nat, factor: nat)
    ensures RepeatedUpTo(input, after, channels, factor, 0, 0, 0)
  {
  }

  lemma NextPlace(input: seq<int>, after: seq<int>, channels: nat, factor: nat, i: nat, c: nat)
    requires RepeatedUpTo(input, after, channels, factor, i, c, factor)
    ensures RepeatedUpTo(input, after, channels, factor, i, c + 1, 0)
  {
    hide Repeated;
  }

  lemma NextGroup(input: seq<int>, after: seq<int>, channels: nat, factor: nat, i: nat)
    requires RepeatedUpTo(input, after, channels, factor, i, channels, 0)
    ensures RepeatedUpTo(input, after, channels, factor, i + 1, 0, 0)
  {
    hide Repeated;
  }

  lemma AllRepeated(input: seq<int>, before: seq<int>, after: seq<int>, numSamples: nat, channels: nat, factor: nat)
    requires |after| == |before| && numSamples * factor * channels <= |after|
    requires RepeatedUpTo(input, after, channels, factor, numSamples, 0, 0)
    requires after[numSamples * factor * channels..] == before[numSamples * factor * channels..]
    ensures ExtrapolatedFrom(input, before, after, numSamples, channels, factor)
  {
    hide Repeated;
    var size := numSamples * factor * channels;
    forall k | size <= k < |after| ensures after[k] == before[k] {
      assert after[k] == after[size..][k - size];
    }
  }

  lemma RepetitionWritten(input: seq<int>, after: seq<int>, i: nat, c: nat, s: nat, channels: nat, factor: nat)
    requires Cell(i, c, channels) < |input| && Cell(Frame(i, s, factor), c, channels) < |after|
    requires after[Cell(Frame(i, s, factor), c, channels)] == input[Cell(i, c, channels)]
    ensures Repeated(input, after, i, c, s, channels, factor)
  {
  }

  /** Taking every `factor`-th frame of an extrapolated buffer gives the samples again. */
  lemma ThinningRestores(input: seq<int>, before: seq<int>, after: seq<int>,
                         numSamples: nat, channels: nat, factor: nat,
                         i: nat, c: nat)
    requires factor >= 1 && |after| == |before| && i < numSamples && c < channels
    requires ExtrapolatedFrom(input, before, after, numSamples, channels, factor)
    ensures Cell(i, c, channels) < |input| && Cell(i * factor, c, channels) < |after|
    ensures after[Cell(i * factor, c, channels)] == input[Cell(i, c, channels)]
  {
    hide Cell;
    assert Repeated(input, after, i, c, 0, channels, factor);
  }

  /** Each cell of an extrapolated buffer is the repetition of one sample, so that the samples determine them all. */
  lemma ExtrapolatedWhole(input: seq<int>, before: seq<int>, after: seq<int>, before': seq<int>, after': seq<int>,
                          numSamples: nat, channels: nat, factor: nat)
    requires factor >= 1 && |after| == |before| && |after'| == |before'|
    requires ExtrapolatedFrom(input, before, after, numSamples, channels, factor)
    requires ExtrapolatedFrom(input, before', after', numSamples, channels, factor)
    requires numSamples * factor * channels <= |after| && numSamples * factor * channels <= |after'|
    ensures after[..numSamples * factor * channels] == after'[..numSamples * factor * channels]
  {
    hide Cell, Frame;
    forall k | 0 <= k < numSamples * factor * channels ensures after[k] == after'[k] {
      var f, c := CellCovered(k, numSamples * factor, channels);
      var i, s := FrameCovered(f, numSamples, factor);
      assert Repeated(input, after, i, c, s, channels, factor) && Repeated(input, after', i, c, s, channels, factor);
    }
  }

  lemma FrameCovered(f: nat, groups: nat, factor: nat) returns (i: nat, s: nat)
    requires f < groups * factor
    ensures i < groups && s < factor && f == Frame(i, s, factor)
  {
    i, s := CellCovered(f, groups, factor);
  }

  // ---------- sample rates ----------

  const SAMPLE_RATE_ALL := 0xFFFF_FFFF

  predicate Multiple(rate: U32, outputSampleRate: U32)
    requires outputSampleRate > 0
  {
    rate % outputSampleRate == 0 && rate < SAMPLE_RATE_ALL
  }

  /** The lowest of the available rates that is a multiple of the other rate, zero if there is none. */
  method GetBestInputSampleRate(availableSampleRates: seq<U32>, outputSampleRate: U32) returns (best: U32)
    requires outputSampleRate > 0
    ensures (exists r | r in availableSampleRates :: r % outputSampleRate == 0 && r < 0xFFFF_FFFF) ==>
            best in availableSampleRates && best % outputSampleRate == 0 && best < 0xFFFF_FFFF
    ensures (forall r | r in availableSampleRates :: r % outputSampleRate != 0 || r == 0xFFFF_FFFF) ==> best == 0
    ensures forall r | r in availableSampleRates && r % outputSampleRate == 0 && r < 0xFFFF_FFFF :: best <= r
  {
    best := SAMPLE_RATE_ALL;
    for i := 0 to |availableSampleRates|
      invariant best == SAMPLE_RATE_ALL || (best in availableSampleRates[..i] && Multiple(best, outputSampleRate))
      invariant forall j | 0 <= j < i && Multiple(availableSampleRates[j], outputSampleRate) ::
                  best <= availableSampleRates[j]
    {
      var availableSampleRate := availableSampleRates[i];
      if availableSampleRate % outputSampleRate == 0 {
        if availableSampleRate < best {
          best := availableSampleRate;
        }
      }
    }
    if best == SAMPLE_RATE_ALL {
      return 0;
    }
  }
}
