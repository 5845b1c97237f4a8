/**
 * Histogram binning of the statistics engine (`compute_histogram`,
 * src/stats/stats.cpp).  Samples are single-precision floats in the source and
 * reals here; the float-to-int32 conversion of the bin coordinate is written
 * out.
 */
module StatsHistogram {
  import opened StatsTypes

  const Int32Min: int := -0x8000_0000
  const Int32Max: int := 0x7FFF_FFFF

  /** Rounding toward zero, as a C cast from floating point does. */
  function Truncate(x: real): (t: int)
    ensures 0.0 <= x ==> t as real <= x < t as real + 1.0
    ensures x < 0.0 ==> t as real - 1.0 < x <= t as real
  {
    if x >= 0.0 then x.Floor else -((-x).Floor)
  }

  /**
   * `(int32)x`: the truncated value when it fits, otherwise the x86
   * "integer indefinite" value `INT32_MIN`, which is what an out-of-range,
   * infinite or undefined coordinate converts to on that platform.
   */
  function ToInt32(x: real): (r: int)
    ensures Int32Min <= r <= Int32Max
    ensures Int32Min <= Truncate(x) <= Int32Max ==> r == Truncate(x)
  {
    var t := Truncate(x);
    if Int32Min <= t <= Int32Max then t else Int32Min
  }

  /** `math::clamp(x, lo, hi)`. */
  function Clamp(x: int, lo: int, hi: int): int
  {
    if x < lo then lo else if x > hi then hi else x
  }

  /** The bin coordinate `(v - min_val) * scl` with `scl = num_bins / (max_val - min_val)`. */
  function Coordinate(v: real, lo: real, hi: real, n: nat): real
    requires hi != lo
  {
    (v - lo) * (n as real / (hi - lo))
  }

  /**
   * The bin a sample falls in: `clamp((int32)coordinate, 0, n - 1)`.
   * When `hi == lo` the scale is infinite and every coordinate is infinite or
   * undefined, which converts to `INT32_MIN` and clamps to bin 0.
   */
  function BinIndex(v: real, lo: real, hi: real, n: nat): (b: nat)
    requires n > 0
    ensures b < n
  {
    if hi == lo then 0 else Clamp(ToInt32(Coordinate(v, lo, hi, n)), 0, n - 1)
  }

  /** The coordinate measures `v - lo` in units of the bin width. */
  lemma CoordinateScaled(v: real, lo: real, hi: real, n: nat)
    requires hi != lo
    ensures Coordinate(v, lo, hi, n) * (hi - lo) == (v - lo) * (n as real)
  {
    var w := hi - lo;
    var q := n as real / w;
    assert q * w == n as real;
    assert (v - lo) * q * w == (v - lo) * (q * w);
  }

  /** A value whose multiple by a positive width lies between two multiples of it lies between the factors. */
  lemma Between(x: real, lower: real, upper: real, w: real, y: real)
    requires w > 0.0 && x * w == y
    requires lower * w <= y < upper * w
    ensures lower <= x < upper
  {
  }

  /** A value whose multiple by a positive width is negative is negative. */
  lemma BelowZero(x: real, w: real, y: real)
    requires w > 0.0 && x * w == y && y < 0.0
    ensures x < 0.0
  {
  }

  /** A value whose multiple by a positive width reaches `m` widths is at least `m`. */
  lemma AtLeast(x: real, w: real, y: real, m: real)
    requires w > 0.0 && x * w == y && w * m <= y
    ensures m <= x
  {
  }

  /** A sample in the `b`-th of `n` equal parts of `[lo, hi)` lands in bin `b`. */
  lemma BinOfSampleInRange(v: real, lo: real, hi: real, n: nat, b: nat)
    requires 0 < n <= Int32Max && lo < hi && b < n
    requires (b as real) * (hi - lo) <= (v - lo) * (n as real) < (b as real + 1.0) * (hi - lo)
    ensures BinIndex(v, lo, hi, n) == b
  {
    CoordinateScaled(v, lo, hi, n);
    Between(Coordinate(v, lo, hi, n), b as real, b as real + 1.0, hi - lo, (v - lo) * (n as real));
    assert Coordinate(v, lo, hi, n).Floor == b;
  }

  /** Samples below the range go to the first bin; samples at or above it go to the last one while the coordinate fits an int32. */
  lemma BinOfSampleOutside(v: real, lo: real, hi: real, n: nat)
    requires n > 0 && lo < hi
    ensures v < lo ==> BinIndex(v, lo, hi, n) == 0
    ensures hi <= v && Coordinate(v, lo, hi, n) < Int32Max as real + 1.0 ==> BinIndex(v, lo, hi, n) == n - 1
  {
    CoordinateScaled(v, lo, hi, n);
    if v < lo {
      NegativeScaled(v - lo, n as real);
      BelowZero(Coordinate(v, lo, hi, n), hi - lo, (v - lo) * (n as real));
    }
    if hi <= v {
      ScaleMono(hi - lo, v - lo, n as real);
      AtLeast(Coordinate(v, lo, hi, n), hi - lo, (v - lo) * (n as real), n as real);
    }
  }

  /** A negative value times a positive factor is negative. */
  lemma NegativeScaled(a: real, k: real)
    requires a < 0.0 && k > 0.0
    ensures a * k < 0.0
  {
  }

  /** Multiplying both sides of an inequality by a non-negative factor. */
  lemma ScaleMono(a: real, c: real, k: real)
    requires a <= c && k >= 0.0
    ensures k * a <= c * k
  {
    assert (c - a) * k >= 0.0;
  }

  /** How many of the samples fall in bin `b`. */
  function Count(data: seq<real>, lo: real, hi: real, n: nat, b: nat): nat
    requires n > 0
  {
    if data == [] then 0
    else
      var last := data[|data| - 1];
      Count(data[..|data| - 1], lo, hi, n, b) + (if BinIndex(last, lo, hi, n) == b then 1 else 0)
  }

  /** The bins after one pass over the samples: bin `b` holds `Count(data, b)`. */
  function Tally(data: seq<real>, lo: real, hi: real, n: nat): (bins: seq<real>)
    requires n > 0
    ensures |bins| == n
  {
    seq(n, b requires 0 <= b < n => Count(data, lo, hi, n, b) as real)
  }

  /** The sum of bins `[0, m)`. */
  function SumTo(bins: seq<real>, m: nat): real
    requires m <= |bins|
  {
    if m == 0 then 0.0 else SumTo(bins, m - 1) + bins[m - 1]
  }

  /** Every sample is counted in exactly one bin: the bins add up to the number of samples. */
  lemma {:induction false} TallyTotal(data: seq<real>, lo: real, hi: real, n: nat)
    requires n > 0
    ensures SumTo(Tally(data, lo, hi, n), n) == |data| as real
    decreases |data|
  {
    if data != [] {
      var init := data[..|data| - 1];
      var k := BinIndex(data[|data| - 1], lo, hi, n);
      TallyTotal(init, lo, hi, n);
      assert data[..|data| - 1] == init;
      forall b | 0 <= b < n
        ensures Tally(data, lo, hi, n)[b] == Tally(init, lo, hi, n)[b] + (if b == k then 1.0 else 0.0)
      {
      }
      SumStep(Tally(init, lo, hi, n), Tally(data, lo, hi, n), k, n);
    } else {
      SumZeros(Tally(data, lo, hi, n), n);
    }
  }

  lemma {:induction false} SumZeros(bins: seq<real>, m: nat)
    requires m <= |bins| && forall b :: 0 <= b < |bins| ==> bins[b] == 0.0
    ensures SumTo(bins, m) == 0.0
    decreases m
  {
    if m > 0 {
      SumZeros(bins, m - 1);
    }
  }

  /** Adding one to a single bin `k < m` adds one to the sum of bins `[0, m)`. */
  lemma {:induction false} SumStep(before: seq<real>, after: seq<real>, k: nat, m: nat)
    requires m <= |before| == |after| && k < m
    requires forall b :: 0 <= b < |after| ==> after[b] == before[b] + (if b == k then 1.0 else 0.0)
    ensures SumTo(after, m) == SumTo(before, m) + 1.0
    decreases m
  {
    if m - 1 != k {
      SumStep(before, after, k, m - 1);
    } else {
      SumUnchanged(before, after, m - 1);
    }
  }

  lemma {:induction false} SumUnchanged(before: seq<real>, after: seq<real>, m: nat)
    requires m <= |before| && m <= |after|
    requires forall b :: 0 <= b < m ==> after[b] == before[b]
    ensures SumTo(after, m) == SumTo(before, m)
    decreases m
  {
    if m > 0 {
      SumUnchanged(before, after, m - 1);
    }
  }

  /** The smallest sample and `FLT_MAX`, as the scan that starts from `FLT_MAX` finds it. */
  function Lowest(data: seq<real>): real
  {
    if data == [] then FltMax
    else
      var m := Lowest(data[..|data| - 1]);
      var d := data[|data| - 1];
      if d < m then d else m
  }

  /** The largest sample and `-FLT_MAX`, as the scan that starts from `-FLT_MAX` finds it. */
  function Highest(data: seq<real>): real
  {
    if data == [] then -FltMax
    else
      var m := Highest(data[..|data| - 1]);
      var d := data[|data| - 1];
      if d > m then d else m
  }

  /**
   * The automatic range bounds every sample, and for samples within the
   * float range both bounds are samples.
   */
  lemma {:induction false} RangeOfSamples(data: seq<real>)
    ensures forall i :: 0 <= i < |data| ==> Lowest(data) <= data[i] <= Highest(data)
    ensures data != [] && (forall i :: 0 <= i < |data| ==> -FltMax <= data[i] <= FltMax) ==>
      (exists i :: 0 <= i < |data| && data[i] == Lowest(data)) &&
      (exists i :: 0 <= i < |data| && data[i] == Highest(data))
    decreases |data|
  {
    if data != [] {
      var n := |data| - 1;
      var init := data[..n];
      RangeOfSamples(init);
      forall i | 0 <= i < n ensures data[i] == init[i] { }
      if data != [] && (forall i :: 0 <= i < |data| ==> -FltMax <= data[i] <= FltMax) {
        if n == 0 {
          assert data[0] == Lowest(data) && data[0] == Highest(data);
        } else {
          assert forall i :: 0 <= i < |init| ==> -FltMax <= init[i] <= FltMax;
          var lo :| 0 <= lo < |init| && init[lo] == Lowest(init);
          var hi :| 0 <= hi < |init| && init[hi] == Highest(init);
          assert Lowest(data) == data[lo] || Lowest(data) == data[n];
          assert Highest(data) == data[hi] || Highest(data) == data[n];
        }
      }
    }
  }

  /** `Histogram`: the bins and the ranges and sample count it carries. */
  class Histogram {
    var bins: seq<real>
    var valRange: Range
    var binRange: Range
    var numSamples: int

    constructor ()
      ensures bins == [] && valRange == Range(0.0, 0.0) && binRange == Range(0.0, 0.0) && numSamples == 0
    {
      bins := [];
      valRange := Range(0.0, 0.0);
      binRange := Range(0.0, 0.0);
      numSamples := 0;
    }

    /**
     * `compute_histogram(hist, num_bins, data, min_val, max_val)`: the bins
     * are resized to `num_bins` and zeroed, then each sample adds one to its
     * bin.  The ranges and the sample count are not written.
     */
    method ComputeInRange(numBins: int, data: seq<real>, lo: real, hi: real)
      requires numBins > 0
      modifies this
      ensures bins == Tally(data, lo, hi, numBins)
      ensures valRange == old(valRange) && binRange == old(binRange) && numSamples == old(numSamples)
    {
      bins := seq(numBins, _ => 0.0);
      var i := 0;
      while i < |data|
        invariant 0 <= i <= |data|
        invariant |bins| == numBins
        invariant forall b :: 0 <= b < numBins ==> bins[b] == Count(data[..i], lo, hi, numBins, b) as real
        invariant valRange == old(valRange) && binRange == old(binRange) && numSamples == old(numSamples)
      {
        var k := BinIndex(data[i], lo, hi, numBins);
        bins := bins[k := bins[k] + 1.0];
        assert data[..i + 1][..i] == data[..i];
        i := i + 1;
      }
      assert data[..i] == data;
    }

    /**
     * `compute_histogram(hist, num_bins, data)`: no samples leave the
     * histogram as it was; otherwise the range is scanned from
     * `[FLT_MAX, -FLT_MAX]` and the samples are binned over it.
     */
    method Compute(numBins: int, data: seq<real>)
      requires data != [] ==> numBins > 0
      modifies this
      ensures valRange == old(valRange) && binRange == old(binRange) && numSamples == old(numSamples)
      ensures data == [] ==> bins == old(bins)
      ensures data != [] ==> bins == Tally(data, Lowest(data), Highest(data), numBins)
    {
      if |data| == 0 {
        return;
      }
      var lo := FltMax;
      var hi := -FltMax;
      var i := 0;
      while i < |data|
        invariant 0 <= i <= |data|
        invariant lo == Lowest(data[..i]) && hi == Highest(data[..i])
      {
        assert data[..i + 1][..i] == data[..i];
        lo := if data[i] < lo then data[i] else lo;
        hi := if data[i] > hi then data[i] else hi;
        i := i + 1;
      }
      assert data[..i] == data;
      ComputeInRange(numBins, data, lo, hi);
    }
  }

  /** `compute_histogram(num_bins, data)`: a fresh histogram binned over the samples' own range. */
  method HistogramOf(numBins: int, data: seq<real>) returns (h: Histogram)
    requires data != [] ==> numBins > 0
    ensures fresh(h)
    ensures data == [] ==> h.bins == []
    ensures data != [] ==> h.bins == Tally(data, Lowest(data), Highest(data), numBins)
  {
    h := new Histogram();
    h.Compute(numBins, data);
  }

  /** `compute_histogram(num_bins, data, min_val, max_val)`: a fresh histogram binned over `[lo, hi]`. */
  method HistogramInRange(numBins: int, data: seq<real>, lo: real, hi: real) returns (h: Histogram)
    requires numBins > 0
    ensures fresh(h) && h.bins == Tally(data, lo, hi, numBins)
  {
    h := new Histogram();
    h.ComputeInRange(numBins, data, lo, hi);
  }
}
