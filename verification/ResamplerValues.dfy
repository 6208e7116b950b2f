/** The samples of a compressed buffer in terms of the cells of the input. */
module ResamplerValues {
  import opened Resampler

  /** Channel `c` in frame `s` of group `i` of interleaved frames. */
  function Place(i: nat, s: nat, c: nat, channels: nat, factor: nat): nat {
    (i * factor + s) * channels + c
  }

  lemma GroupValue(input: seq<int>, before: seq<int>, after: seq<int>, numSamples: nat, channels: nat, factor: nat,
                   i: nat, c: nat, group: seq<int>)
    requires factor >= 1 && numSamples * channels <= |input| && |after| == |before|
    requires CompressedFrom(input, before, after, numSamples, channels, factor)
    requires i < numSamples / factor && c < channels
    requires group == WholeGroup(input, i, c, channels, factor, numSamples)
    ensures i * channels + c < |after| && |group| == factor && after[i * channels + c] == Accumulated(group)
    ensures forall s: nat | s < factor ::
              Place(i, s, c, channels, factor) < |input| && group[s] == input[Place(i, s, c, channels, factor)]
  {
    hide Accumulated;
    assert Written(input, after, i, c, channels, factor, numSamples);
    forall s: nat | s < factor
      ensures Place(i, s, c, channels, factor) < |input| && group[s] == input[Place(i, s, c, channels, factor)]
    {
      assert Cell(Frame(i, s, factor), c, channels) == Place(i, s, c, channels, factor);
    }
  }

  lemma OneSample(group: seq<int>)
    requires |group| == 1
    ensures Accumulated(group) == group[0]
  {
    assert group[..0] == [] && Accumulated(group) == Quotient(group[0], 1);
    QuotientOne(group[0]);
  }

  /** A factor of one leaves every sample as it is. */
  lemma FactorOne(input: seq<int>, before: seq<int>, after: seq<int>, numSamples: nat, channels: nat, i: nat, c: nat)
    requires numSamples * channels <= |input| && |after| == |before|
    requires CompressedFrom(input, before, after, numSamples, channels, 1)
    requires i < numSamples && c < channels
    ensures i * channels + c < |after| && i * channels + c < |input|
    ensures after[i * channels + c] == input[i * channels + c]
  {
    hide CompressedFrom, WholeGroup, Accumulated;
    var group := WholeGroup(input, i, c, channels, 1, numSamples);
    GroupValue(input, before, after, numSamples, channels, 1, i, c, group);
    assert Place(i, 0, c, channels, 1) == i * channels + c;
    OneSample(group);
  }

  /** With a larger factor the first frame of a group has no influence: buffers that agree on the others are
      compressed to the same sample. */
  lemma FirstFrameIgnored(input: seq<int>, other: seq<int>, before: seq<int>, after: seq<int>, after': seq<int>,
                          numSamples: nat, channels: nat, factor: nat, i: nat, c: nat)
    requires factor >= 2 && numSamples * channels <= |input| == |other| && |after| == |before| == |after'|
    requires CompressedFrom(input, before, after, numSamples, channels, factor)
    requires CompressedFrom(other, before, after', numSamples, channels, factor)
    requires i < numSamples / factor && c < channels
    requires forall s: nat | 1 <= s < factor && Place(i, s, c, channels, factor) < |input| ::
               input[Place(i, s, c, channels, factor)] == other[Place(i, s, c, channels, factor)]
    ensures i * channels + c < |after| && after[i * channels + c] == after'[i * channels + c]
  {
    hide CompressedFrom, WholeGroup, Accumulated, Place;
    var g, h := WholeGroup(input, i, c, channels, factor, numSamples),
                WholeGroup(other, i, c, channels, factor, numSamples);
    GroupValue(input, before, after, numSamples, channels, factor, i, c, g);
    GroupValue(other, before, after', numSamples, channels, factor, i, c, h);
    FirstIgnored(g, h[0]);
    forall s: nat | 1 <= s < factor ensures g[s] == h[s] {
      assert Place(i, s, c, channels, factor) < |input|;
    }
    assert g[0 := h[0]] == h;
  }

  /** Half of a number, towards zero. */
  function Half(x: int): int { if x >= 0 then x / 2 else -(-x / 2) }

  lemma QuotientTwo(x: int)
    ensures Quotient(x, 2) == Half(x)
  {
    hide Times;
    TimesBounds(if x < 0 then -x else x, 2);
  }

  lemma PairValue(group: seq<int>)
    requires |group| == 2
    ensures Accumulated(group) == Half(group[1])
  {
    hide Quotient, Half;
    assert Accumulated(group) == Quotient(Accumulated(group[..1]) * 0, 1) + Quotient(group[1], 2);
    QuotientOne(0);
    QuotientTwo(group[1]);
  }

  /** With a factor of two a sample is half of the second one of its pair. */
  lemma FactorTwo(input: seq<int>, before: seq<int>, after: seq<int>, numSamples: nat, channels: nat, i: nat, c: nat)
    requires numSamples * channels <= |input| && |after| == |before|
    requires CompressedFrom(input, before, after, numSamples, channels, 2)
    requires i < numSamples / 2 && c < channels
    ensures i * channels + c < |after| && (2 * i + 1) * channels + c < |input|
    ensures after[i * channels + c] == Half(input[(2 * i + 1) * channels + c])
  {
    hide CompressedFrom, WholeGroup, Accumulated, Half;
    var group := WholeGroup(input, i, c, channels, 2, numSamples);
    GroupValue(input, before, after, numSamples, channels, 2, i, c, group);
    SecondOfPair(i, c, channels);
    hide Place;
    assert group[1] == input[Place(i, 1, c, channels, 2)];
    PairValue(group);
  }

  lemma SecondOfPair(i: nat, c: nat, channels: nat)
    ensures Place(i, 1, c, channels, 2) == (2 * i + 1) * channels + c
  {
    assert i * 2 + 1 == 2 * i + 1;
  }

  // ---------- the weights ----------

  function Abs(x: real): real { if x < 0.0 then -x else x }

  /** The first `n` samples, sample `s` counted `s / (s + 1)` times. */
  function WeightedSum(group: seq<int>, n: nat): real
    requires n <= |group|
  {
    if n == 0 then 0.0 else WeightedSum(group, n - 1) + (group[n - 1] * (n - 1)) as real / n as real
  }

  lemma Remainder(x: int, b: nat)
    requires b > 0
    ensures -(b as int) < x - b * Quotient(x, b) < b
  {
    hide Times;
    TimesBounds(if x < 0 then -x else x, b);
  }

  lemma Times2(r: int, s: nat, bound: int)
    requires -bound <= r <= bound
    ensures -(s * bound) <= s * r <= s * bound
  {
    Smaller(r, bound, s);
    Smaller(-bound, r, s);
    assert r * s == s * r && bound * s == s * bound && -bound * s == -(s * bound);
  }

  /** Rounding a new sample costs less than `s`. */
  lemma ShareError(x: int, s: nat)
    requires s >= 1
    ensures Abs((s * Quotient(x, s + 1)) as real - (x * s) as real / (s + 1) as real) <= s as real
  {
    hide Quotient;
    var q := Quotient(x, s + 1);
    Remainder(x, s + 1);
    var r := x - (s + 1) * q;
    Times2(r, s, s);
    assert s * r == x * s - (s + 1) * (s * q) by {
      assert s * ((s + 1) * q) == (s + 1) * (s * q);
      assert s * r == s * x - s * ((s + 1) * q);
    }
    assert s * s <= (s + 1) * s;
    Divided(x * s, s * q, s + 1, s);
  }

  lemma Divided(a: int, q: int, b: nat, bound: nat)
    requires b > 0 && -(b * bound) <= a - b * q <= b * bound
    ensures Abs(q as real - a as real / b as real) <= bound as real
  {
    var y := a as real / b as real;
    assert y * b as real == a as real;
    assert (b * q) as real == b as real * q as real && (b * bound) as real == b as real * bound as real;
    if q as real - y > bound as real { assert (q as real - y) * b as real > bound as real * b as real; }
    if y - q as real > bound as real { assert (y - q as real) * b as real > bound as real * b as real; }
  }

  lemma StepError(a: int, x: int, s: nat, w: real)
    requires s >= 1 && Abs((a * (s - 1)) as real - w) <= ((s - 1) * (s - 1)) as real
    ensures var next := Quotient(a * (s - 1), s) + Quotient(x, s + 1);
            Abs((next * s) as real - (w + (x * s) as real / (s + 1) as real)) <= (s * s) as real
  {
    hide Quotient;
    var p, q := Quotient(a * (s - 1), s), Quotient(x, s + 1);
    Remainder(a * (s - 1), s);
    ShareError(x, s);
    Errors((p + q) * s, s * p, s * q, a * (s - 1), w, (x * s) as real / (s + 1) as real, s);
  }

  lemma Errors(total: int, p: int, q: int, a: int, w: real, y: real, s: nat)
    requires s >= 1 && total == p + q && -(s as int) < a - p < s
    requires Abs(q as real - y) <= s as real && Abs(a as real - w) <= ((s - 1) * (s - 1)) as real
    ensures Abs(total as real - (w + y)) <= (s * s) as real
  {
    assert s * s == (s - 1) * (s - 1) + (s - 1) + s;
  }

  lemma SumOfFront(group: seq<int>, n: nat, m: nat)
    requires n <= m <= |group|
    ensures WeightedSum(group[..m], n) == WeightedSum(group, n)
  {
  }

  /** The value of a group and its weighted sum differ by no more than the group is long, less one. */
  lemma {:induction false} ValueNearWeights(group: seq<int>)
    requires |group| >= 1
    ensures var n := |group| - 1;
            Abs((Accumulated(group) * n) as real - WeightedSum(group, n + 1)) <= (n * n) as real
    decreases |group|
  {
    hide Quotient;
    var s := |group| - 1;
    if s == 0 {
      assert WeightedSum(group, 1) == WeightedSum(group, 0) + (group[0] * 0) as real / 1 as real;
      assert Accumulated(group) * 0 == 0;
    } else {
      var front := group[..s];
      ValueNearWeights(front);
      SumOfFront(group, s, s);
      StepError(Accumulated(front), group[s], s, WeightedSum(group, s));
    }
  }

  /** The samples of channel `c` in the first `n` frames of group `i`, each counted with its weight. */
  function CellSum(input: seq<int>, i: nat, c: nat, channels: nat, factor: nat, n: nat): real
    requires forall s: nat | s < n :: Place(i, s, c, channels, factor) < |input|
  {
    if n == 0 then 0.0
    else CellSum(input, i, c, channels, factor, n - 1)
         + (input[Place(i, n - 1, c, channels, factor)] * (n - 1)) as real / n as real
  }

  lemma {:induction false} CellSumOfGroup(input: seq<int>, i: nat, c: nat, channels: nat, factor: nat, n: nat,
                                          group: seq<int>)
    requires n <= |group|
    requires forall s: nat | s < |group| ::
               Place(i, s, c, channels, factor) < |input| && group[s] == input[Place(i, s, c, channels, factor)]
    ensures CellSum(input, i, c, channels, factor, n) == WeightedSum(group, n)
    decreases n
  {
    hide Place;
    if n == 0 {
    } else {
      CellSumOfGroup(input, i, c, channels, factor, n - 1, group);
      assert group[n - 1] == input[Place(i, n - 1, c, channels, factor)];
    }
  }

  /** For every factor a sample, times the factor less one, differs from the weighted sum of the samples of its group
      by no more than the square of that: frame `s` of the group counts `s / (s + 1)` times. */
  lemma CompressedNearWeights(input: seq<int>, before: seq<int>, after: seq<int>, numSamples: nat, channels: nat,
                              factor: nat, i: nat, c: nat)
    requires factor >= 1 && numSamples * channels <= |input| && |after| == |before|
    requires CompressedFrom(input, before, after, numSamples, channels, factor)
    requires i < numSamples / factor && c < channels
    ensures i * channels + c < |after|
    ensures forall s: nat | s < factor :: Place(i, s, c, channels, factor) < |input|
    ensures var n := factor - 1;
            Abs((after[i * channels + c] * n) as real - CellSum(input, i, c, channels, factor, factor))
            <= (n * n) as real
  {
    hide CompressedFrom, WholeGroup, Accumulated, WeightedSum, Place, CellSum, Abs;
    var group := WholeGroup(input, i, c, channels, factor, numSamples);
    GroupValue(input, before, after, numSamples, channels, factor, i, c, group);
    ValueNearWeights(group);
    CellSumOfGroup(input, i, c, channels, factor, factor, group);
  }
  /** Sample `i` of channel `c` is in all `factor` frames of its group of an extrapolated buffer. */
  lemma ExtrapolatedCell(input: seq<int>, before: seq<int>, after: seq<int>, numSamples: nat, channels: nat,
                         factor: nat, i: nat, c: nat, s: nat)
    requires |after| == |before| && i < numSamples && c < channels && s < factor
    requires ExtrapolatedFrom(input, before, after, numSamples, channels, factor)
    ensures i * channels + c < |input| && (i * factor + s) * channels + c < |after|
    ensures after[(i * factor + s) * channels + c] == input[i * channels + c]
  {
    assert Repeated(input, after, i, c, s, channels, factor);
  }
}
