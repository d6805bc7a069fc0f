/**
  The 2D joint histogram of two voxel channels (`Histogram::makeImage`):
  a min/max scan per channel, linear binning into a fixed 32 x 32 grid,
  per-bin visit counts and a tone map from counts to RGBA bytes.

  Samples are exact reals rather than 32-bit floats; bin counts are
  naturals rather than floats.
 */
module Histogram {
  import opened Pixels

  /** Grid size of the histogram image (columns follow channel 0). */
  const HistImageWidth: nat := 32
  /** Grid size of the histogram image (rows follow channel 1). */
  const HistImageHeight: nat := 32
  /** Count that maps to full red; the observed maximum count is not used. */
  const ToneCeiling: nat := 1000
  /** Colour channel value of bins drawn grey. */
  const GreyLevel: Byte := 100

  datatype Rgba = Rgba(r: Byte, g: Byte, b: Byte, a: Byte)

  /** The persistent part of a histogram: its image and the two channel
      indices it was last built from. */
  datatype Histogram = Histogram(image: seq<seq<Rgba>>, chIndex0: int, chIndex1: int)

  /** A value range as `[lo, hi]`. */
  datatype Range = Range(lo: real, hi: real)

  /** The values the two ranges start from before the scan. */
  datatype Seeds = Seeds(lo0: real, hi0: real, lo1: real, hi1: real)

  /** Holds of a grid with HistImageHeight rows of HistImageWidth cells. */
  predicate IsGrid<T>(g: seq<seq<T>>)
  {
    |g| == HistImageHeight && forall h | 0 <= h < |g| :: |g[h]| == HistImageWidth
  }

  function MinReal(a: real, b: real): real { if b < a then b else a }
  function MaxReal(a: real, b: real): real { if a < b then b else a }
  function MinInt(a: int, b: int): int { if b < a then b else a }

  // ---------------------------------------------------------------------
  // Range scan
  // ---------------------------------------------------------------------

  /** The running minimum and maximum of the first `n` samples of `ch`,
      started from the given seeds. The lower bound is at most every sample
      and the upper bound at least every sample, whatever the seeds are, and
      each bound is either its seed or one of the samples. */
  function ScanRange(ch: seq<real>, n: nat, seedLo: real, seedHi: real): (r: Range)
    requires n <= |ch|
    ensures r.lo <= seedLo && seedHi <= r.hi
    ensures forall j | 0 <= j < n :: r.lo <= ch[j] <= r.hi
    ensures r.lo == seedLo || exists j | 0 <= j < n :: r.lo == ch[j]
    ensures r.hi == seedHi || exists j | 0 <= j < n :: r.hi == ch[j]
  {
    if n == 0 then Range(seedLo, seedHi)
    else
      var r := ScanRange(ch, n - 1, seedLo, seedHi);
      Range(MinReal(r.lo, ch[n - 1]), MaxReal(r.hi, ch[n - 1]))
  }

  /** What the source reads before the scan: both channels must hold the
      sample at index 0 and every index below the length of channel 0. */
  predicate ChannelsReadable(voxels: seq<seq<real>>, c0: int, c1: int)
  {
    && |voxels| > 0
    && 0 <= c0 < |voxels| && 0 <= c1 < |voxels|
    && |voxels[c0]| > 0 && |voxels[c1]| > 0
    && |voxels[0]| <= |voxels[c0]| && |voxels[0]| <= |voxels[c1]|
  }

  /** The seeds as written: range0's lower bound comes from channel c1 (the
      second assignment to `range0[0]` overwrites the first) and range1's
      upper bound is never initialised, here the arbitrary value `junk`. */
  function SourceSeeds(voxels: seq<seq<real>>, c0: int, c1: int, junk: real): Seeds
    requires ChannelsReadable(voxels, c0, c1)
  {
    Seeds(voxels[c1][0], voxels[c0][0], voxels[c1][0], junk)
  }

  /** The evidently intended seeds: each range starts at its own channel's
      first sample. */
  function OwnSeeds(voxels: seq<seq<real>>, c0: int, c1: int): Seeds
    requires ChannelsReadable(voxels, c0, c1)
  {
    Seeds(voxels[c0][0], voxels[c0][0], voxels[c1][0], voxels[c1][0])
  }

  /** The value ranges of channel c0 and channel c1 after the scan over the
      first |voxels[0]| samples. */
  function ChannelRanges(voxels: seq<seq<real>>, c0: int, c1: int, seeds: Seeds): (rs: (Range, Range))
    requires ChannelsReadable(voxels, c0, c1)
    ensures forall j | 0 <= j < |voxels[0]| :: rs.0.lo <= voxels[c0][j] <= rs.0.hi
    ensures forall j | 0 <= j < |voxels[0]| :: rs.1.lo <= voxels[c1][j] <= rs.1.hi
  {
    (ScanRange(voxels[c0], |voxels[0]|, seeds.lo0, seeds.hi0),
     ScanRange(voxels[c1], |voxels[0]|, seeds.lo1, seeds.hi1))
  }

  /** With the intended seeds the ranges are tight: each bound is attained by
      a sample and bounds every sample. */
  lemma OwnSeedsTight(voxels: seq<seq<real>>, c0: int, c1: int)
    requires ChannelsReadable(voxels, c0, c1) && |voxels[0]| > 0
    ensures var rs := ChannelRanges(voxels, c0, c1, OwnSeeds(voxels, c0, c1));
      && (exists j | 0 <= j < |voxels[0]| :: voxels[c0][j] == rs.0.lo)
      && (exists j | 0 <= j < |voxels[0]| :: voxels[c0][j] == rs.0.hi)
      && (exists j | 0 <= j < |voxels[0]| :: voxels[c1][j] == rs.1.lo)
      && (exists j | 0 <= j < |voxels[0]| :: voxels[c1][j] == rs.1.hi)
  {
  }

  // ---------------------------------------------------------------------
  // Binning
  // ---------------------------------------------------------------------

  /** The width of one bin when `r` is split into `size` bins. */
  function BinStep(r: Range, size: nat): real
    requires size > 0
  {
    (r.hi - r.lo) / (size as real)
  }

  /** The bin of `v`: the float-to-unsigned conversion of
      `(v - lo) / ((hi - lo) / size)` truncates a non-negative value, that is
      floors it, and the result is clamped to `size - 1`. A degenerate range
      would divide by zero, so the range must be non-degenerate. */
  function BinIndex(v: real, r: Range, size: nat): (b: int)
    requires size > 0 && r.lo < r.hi && r.lo <= v <= r.hi
    ensures 0 <= b < size
  {
    var q := (v - r.lo) / BinStep(r, size);
    assert q >= 0.0;
    MinInt(q.Floor, size - 1)
  }

  /** The bin index `b` of `v` covers `v`: `v` lies at or above the bin's lower
      edge, and below its upper edge unless `b` is the last bin, which also
      takes the range's maximum. */
  lemma BinInterval(v: real, r: Range, size: nat)
    requires size > 0 && r.lo < r.hi && r.lo <= v <= r.hi
    ensures var b := BinIndex(v, r, size);
      && r.lo + (b as real) * BinStep(r, size) <= v
      && (b < size - 1 ==> v < r.lo + ((b + 1) as real) * BinStep(r, size))
  {
    var step := BinStep(r, size);
    var q := (v - r.lo) / step;
    var b := BinIndex(v, r, size);
    assert step > 0.0;
    assert q * step == v - r.lo;
    assert (b as real) <= q;
    assert (b as real) * step <= q * step;
    if b < size - 1 {
      assert b == q.Floor;
      assert q < (b + 1) as real;
      assert q * step < ((b + 1) as real) * step;
      assert v < r.lo + ((b + 1) as real) * step;
    }
  }

  /** Binning is monotone: a larger sample never gets a smaller bin. */
  lemma BinMonotone(v: real, v': real, r: Range, size: nat)
    requires size > 0 && r.lo < r.hi && r.lo <= v <= v' <= r.hi
    ensures BinIndex(v, r, size) <= BinIndex(v', r, size)
  {
    var step := BinStep(r, size);
    var q := (v - r.lo) / step;
    var q' := (v' - r.lo) / step;
    assert step > 0.0;
    assert q <= q' by {
      assert q' - q == (v' - v) / step;
    }
    assert (q.Floor as real) < (q'.Floor + 1) as real;
  }

  /** The range's maximum lands exactly one past the last bin before the
      clamp, so the clamp is what keeps it in the grid. */
  lemma MaximumNeedsClamp(r: Range, size: nat)
    requires size > 0 && r.lo < r.hi
    ensures ((r.hi - r.lo) / BinStep(r, size)).Floor == size
    ensures BinIndex(r.hi, r, size) == size - 1
  {
    var step := BinStep(r, size);
    assert step > 0.0;
    assert step * (size as real) == r.hi - r.lo;
    assert (r.hi - r.lo) / step == size as real;
  }

  // ---------------------------------------------------------------------
  // Counting
  // ---------------------------------------------------------------------

  /** The ranges can bin the first `n` sample pairs: both channels are long
      enough, every sample lies in its channel's range, and, when there is a
      sample to bin, neither range is degenerate. */
  predicate Binnable(xs: seq<real>, ys: seq<real>, r0: Range, r1: Range, n: nat)
  {
    && n <= |xs| && n <= |ys|
    && (n > 0 ==> r0.lo < r0.hi && r1.lo < r1.hi)
    && (forall j | 0 <= j < n :: r0.lo <= xs[j] <= r0.hi)
    && (forall j | 0 <= j < n :: r1.lo <= ys[j] <= r1.hi)
  }

  /** The grid cell `(row, column)` that sample pair `j` increments: the row
      is channel 1's bin, the column channel 0's bin. */
  function SampleBin(xs: seq<real>, ys: seq<real>, r0: Range, r1: Range, n: nat, j: int): (hw: (int, int))
    requires Binnable(xs, ys, r0, r1, n) && 0 <= j < n
    ensures 0 <= hw.0 < HistImageHeight && 0 <= hw.1 < HistImageWidth
  {
    (BinIndex(ys[j], r1, HistImageHeight), BinIndex(xs[j], r0, HistImageWidth))
  }

  /** How many of the first `n` sample pairs fall in cell `(h, w)`. */
  function Hits(xs: seq<real>, ys: seq<real>, r0: Range, r1: Range, n: nat, h: int, w: int): nat
    requires Binnable(xs, ys, r0, r1, n)
  {
    if n == 0 then 0
    else
      Hits(xs, ys, r0, r1, n - 1, h, w)
        + (if SampleBin(xs, ys, r0, r1, n, n - 1) == (h, w) then 1 else 0)
  }

  function Sum(s: seq<nat>): nat
  {
    if |s| == 0 then 0 else Sum(s[..|s| - 1]) + s[|s| - 1]
  }

  /** Replacing one entry changes the sum by the difference. */
  lemma {:induction false} SumUpdate(s: seq<nat>, i: int, v: nat)
    requires 0 <= i < |s|
    ensures Sum(s[i := v]) + s[i] == Sum(s) + v
    decreases |s|
  {
    var t := s[i := v];
    if i == |s| - 1 {
      assert t[..|t| - 1] == s[..|s| - 1];
    } else {
      assert t[..|t| - 1] == s[..|s| - 1][i := v];
      SumUpdate(s[..|s| - 1], i, v);
    }
  }

  /** The total of all cells of a grid. */
  function GridTotal(g: seq<seq<nat>>): nat
  {
    Sum(seq(|g|, h requires 0 <= h < |g| => Sum(g[h])))
  }

  function ZeroGrid(): (g: seq<seq<nat>>)
    ensures IsGrid(g) && forall h, w | 0 <= h < HistImageHeight && 0 <= w < HistImageWidth :: g[h][w] == 0
  {
    seq(HistImageHeight, _ => seq(HistImageWidth, _ => 0))
  }

  lemma {:induction false} SumZero(s: seq<nat>)
    requires forall i | 0 <= i < |s| :: s[i] == 0
    ensures Sum(s) == 0
    decreases |s|
  {
    if |s| > 0 {
      SumZero(s[..|s| - 1]);
    }
  }

  lemma ZeroGridTotal()
    ensures GridTotal(ZeroGrid()) == 0
  {
    var g := ZeroGrid();
    forall h | 0 <= h < |g|
      ensures Sum(g[h]) == 0
    {
      SumZero(g[h]);
    }
    SumZero(seq(|g|, h requires 0 <= h < |g| => Sum(g[h])));
  }

  /** Adds one visit to cell `(h, w)`: that cell grows by one, every other
      cell keeps its count and the grid total grows by one. */
  function Increment(g: seq<seq<nat>>, h: int, w: int): (g': seq<seq<nat>>)
    requires IsGrid(g) && 0 <= h < HistImageHeight && 0 <= w < HistImageWidth
    ensures IsGrid(g')
    ensures g'[h][w] == g[h][w] + 1
    ensures forall h', w' | 0 <= h' < HistImageHeight && 0 <= w' < HistImageWidth && (h', w') != (h, w) ::
      g'[h'][w'] == g[h'][w']
    ensures GridTotal(g') == GridTotal(g) + 1
  {
    var row := g[h][w := g[h][w] + 1];
    var g' := g[h := row];
    SumUpdate(g[h], w, g[h][w] + 1);
    var sums := seq(|g|, i requires 0 <= i < |g| => Sum(g[i]));
    var sums' := seq(|g'|, i requires 0 <= i < |g'| => Sum(g'[i]));
    assert sums' == sums[h := Sum(row)];
    SumUpdate(sums, h, Sum(row));
    g'
  }

  /** The visit counts after the first `n` sample pairs: every cell holds the
      number of pairs binned into it, and the counts add up to `n`, so each
      pair is counted exactly once. */
  function CountSamples(xs: seq<real>, ys: seq<real>, r0: Range, r1: Range, n: nat): (g: seq<seq<nat>>)
    requires Binnable(xs, ys, r0, r1, n)
    ensures IsGrid(g)
    ensures forall h, w | 0 <= h < HistImageHeight && 0 <= w < HistImageWidth ::
      g[h][w] == Hits(xs, ys, r0, r1, n, h, w)
    ensures GridTotal(g) == n
  {
    if n == 0 then
      ZeroGridTotal();
      ZeroGrid()
    else
      var g := CountSamples(xs, ys, r0, r1, n - 1);
      var hw := SampleBin(xs, ys, r0, r1, n, n - 1);
      Increment(g, hw.0, hw.1)
  }

  // ---------------------------------------------------------------------
  // Tone mapping
  // ---------------------------------------------------------------------

  /** The colour intensity of a count: `count / 1000 * 255`, capped at 255 and
      truncated to an unsigned integer. */
  function Intensity(count: nat): (c: int)
    ensures 0 <= c <= 255
  {
    var x := count as real / (ToneCeiling as real) * 255.0;
    var capped := MinReal(x, 255.0);
    assert 0.0 <= capped <= 255.0;
    capped.Floor
  }

  /** The intensity agrees with integer arithmetic: `count * 255 / 1000`,
      capped at 255. */
  lemma IntensityFormula(count: nat)
    ensures Intensity(count) == MinInt(count * 255 / 1000, 255)
  {
    var x := count as real / 1000.0 * 255.0;
    var q := count * 255 / 1000;
    var rem := count * 255 % 1000;
    assert count * 255 == 1000 * q + rem;
    assert x == (q as real) + (rem as real) / 1000.0;
    assert (q as real) <= x < (q + 1) as real;
    if x < 255.0 {
      assert x.Floor == q;
    } else {
      assert q >= 255;
    }
  }

  /** A bin is drawn grey exactly when it holds fewer than four visits, so
      grey covers nearly empty bins too, not only empty ones. */
  lemma IntensityZeroIff(count: nat)
    ensures Intensity(count) == 0 <==> count < 4
  {
    IntensityFormula(count);
  }

  /** A bin reaches full red exactly when it holds at least 1000 visits. */
  lemma IntensityFullIff(count: nat)
    ensures Intensity(count) == 255 <==> count >= ToneCeiling
  {
    IntensityFormula(count);
  }

  /** More visits never give a lower intensity. */
  lemma IntensityMonotone(count: nat, count': nat)
    requires count <= count'
    ensures Intensity(count) <= Intensity(count')
  {
    IntensityFormula(count);
    IntensityFormula(count');
    assert count * 255 <= count' * 255;
  }

  /** The pixel drawn for a bin: fewer than four visits give grey 100 with the
      alpha byte left as it was; otherwise red is the intensity, blue its
      complement to 255, green 0 and alpha opaque. */
  function ToneMap(count: nat, prevAlpha: Byte): (px: Rgba)
    ensures count < 4 ==> px == Rgba(GreyLevel, GreyLevel, GreyLevel, prevAlpha)
    ensures count >= 4 ==>
      var c := MinInt(count * 255 / 1000, 255);
      px == Rgba(c, 0, 255 - c, 255)
    ensures px.g == 0 ==> px.r + px.b == 255
  {
    IntensityZeroIff(count);
    IntensityFormula(count);
    var c := Intensity(count);
    if c == 0 then Rgba(GreyLevel, GreyLevel, GreyLevel, prevAlpha)
    else Rgba(c, 0, 255 - c, 255)
  }

  // ---------------------------------------------------------------------
  // makeImage
  // ---------------------------------------------------------------------

  /** Rebuilds the histogram from channels c0 and c1. The samples scanned are
      the first |voxels[0]| of each channel. Every cell shows its own visit
      count through the tone map (grey cells keep the previous alpha byte),
      and the channel indices are remembered. */
  function MakeImage(prev: Histogram, voxels: seq<seq<real>>, c0: int, c1: int, seeds: Seeds): (hist: Histogram)
    requires IsGrid(prev.image)
    requires ChannelsReadable(voxels, c0, c1)
    requires var rs := ChannelRanges(voxels, c0, c1, seeds);
      |voxels[0]| > 0 ==> rs.0.lo < rs.0.hi && rs.1.lo < rs.1.hi
    ensures hist.chIndex0 == c0 && hist.chIndex1 == c1
    ensures IsGrid(hist.image)
    ensures var rs := ChannelRanges(voxels, c0, c1, seeds);
      forall h, w | 0 <= h < HistImageHeight && 0 <= w < HistImageWidth ::
        var n := Hits(voxels[c0], voxels[c1], rs.0, rs.1, |voxels[0]|, h, w);
        var c := MinInt(n * 255 / 1000, 255);
        hist.image[h][w] == if n < 4 then Rgba(GreyLevel, GreyLevel, GreyLevel, prev.image[h][w].a)
                            else Rgba(c, 0, 255 - c, 255)
  {
    var rs := ChannelRanges(voxels, c0, c1, seeds);
    var counts := CountSamples(voxels[c0], voxels[c1], rs.0, rs.1, |voxels[0]|);
    var image := seq(HistImageHeight, h requires 0 <= h < HistImageHeight =>
      seq(HistImageWidth, w requires 0 <= w < HistImageWidth => ToneMap(counts[h][w], prev.image[h][w].a)));
    Histogram(image, c0, c1)
  }

  /** Every one of the |voxels[0]| sample pairs lands in exactly one cell:
      the cell counts of a rebuild add up to the number of samples. */
  lemma EverySampleCountedOnce(voxels: seq<seq<real>>, c0: int, c1: int, seeds: Seeds)
    requires ChannelsReadable(voxels, c0, c1)
    requires var rs := ChannelRanges(voxels, c0, c1, seeds);
      |voxels[0]| > 0 ==> rs.0.lo < rs.0.hi && rs.1.lo < rs.1.hi
    ensures var rs := ChannelRanges(voxels, c0, c1, seeds);
      var counts := seq(HistImageHeight, h requires 0 <= h < HistImageHeight =>
        seq(HistImageWidth, w requires 0 <= w < HistImageWidth =>
          Hits(voxels[c0], voxels[c1], rs.0, rs.1, |voxels[0]|, h, w)));
      GridTotal(counts) == |voxels[0]|
  {
    var rs := ChannelRanges(voxels, c0, c1, seeds);
    var g := CountSamples(voxels[c0], voxels[c1], rs.0, rs.1, |voxels[0]|);
    var counts := seq(HistImageHeight, h requires 0 <= h < HistImageHeight =>
      seq(HistImageWidth, w requires 0 <= w < HistImageWidth =>
        Hits(voxels[c0], voxels[c1], rs.0, rs.1, |voxels[0]|, h, w)));
    forall h | 0 <= h < HistImageHeight
      ensures counts[h] == g[h]
    {
      assert |counts[h]| == |g[h]|;
    }
    assert counts == g;
  }

  // ---------------------------------------------------------------------
  // The seeding defect
  // ---------------------------------------------------------------------

  /** With the seeds as written, channel 0's range starts at channel 1's
      first sample: for channel 0 = [5, 6] and channel 1 = [0, 1] the range
      of channel 0 becomes [0, 6], and channel 0's smallest sample lands in
      column 26 instead of column 0. */
  lemma SourceSeedsShiftBins()
    ensures var voxels := [[5.0, 6.0], [0.0, 1.0]];
      var rs := ChannelRanges(voxels, 0, 1, SourceSeeds(voxels, 0, 1, 0.0));
      && rs.0 == Range(0.0, 6.0)
      && rs.0.lo < voxels[0][0] && rs.0.lo < voxels[0][1]
      && BinIndex(5.0, rs.0, HistImageWidth) == 26
  {
    var voxels := [[5.0, 6.0], [0.0, 1.0]];
    var rs := ChannelRanges(voxels, 0, 1, SourceSeeds(voxels, 0, 1, 0.0));
    assert rs.0 == Range(0.0, 6.0);
    var q := (5.0 - 0.0) / BinStep(rs.0, HistImageWidth);
    assert BinStep(rs.0, HistImageWidth) == 6.0 / 32.0;
    assert q == 80.0 / 3.0;
    assert 26.0 <= q < 27.0;
  }

  /** With each channel seeded from its own first sample, a channel's
      smallest sample lands in the first bin and its largest in the last. */
  lemma OwnSeedsSpanGrid(voxels: seq<seq<real>>, c0: int, c1: int, j: int)
    requires ChannelsReadable(voxels, c0, c1) && 0 <= j < |voxels[0]|
    requires var rs := ChannelRanges(voxels, c0, c1, OwnSeeds(voxels, c0, c1));
      rs.0.lo < rs.0.hi
    ensures var rs := ChannelRanges(voxels, c0, c1, OwnSeeds(voxels, c0, c1));
      && (voxels[c0][j] == rs.0.lo ==> BinIndex(voxels[c0][j], rs.0, HistImageWidth) == 0)
      && (voxels[c0][j] == rs.0.hi ==> BinIndex(voxels[c0][j], rs.0, HistImageWidth) == HistImageWidth - 1)
      && (exists k | 0 <= k < |voxels[0]| :: BinIndex(voxels[c0][k], rs.0, HistImageWidth) == 0)
  {
    var rs := ChannelRanges(voxels, c0, c1, OwnSeeds(voxels, c0, c1));
    OwnSeedsTight(voxels, c0, c1);
    MaximumNeedsClamp(rs.0, HistImageWidth);
    var k :| 0 <= k < |voxels[0]| && voxels[c0][k] == rs.0.lo;
    assert BinIndex(voxels[c0][k], rs.0, HistImageWidth) == 0;
  }
}
