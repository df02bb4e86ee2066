/**
 The spike density (`makeSpikeDensity`): the histogram's rates smoothed with
 a Gaussian kernel sampled every bin. The Gaussian density and the
 convolution routine are outside the model; they are passed in as functions.
 */
module SpikeDensity {
  import opened Recording
  import SpikeHistogram

  const KERNEL := "kernel"
  const SIGMA := "sigma"

  /**
   `np.arange(-3*sigma, 3*sigma, binSize)`: the points where the kernel is
   sampled, one bin apart from `-3*sigma` on and all below `3*sigma`.
   */
  function KernelSupport(sigma: real, binSize: real): (points: seq<real>)
    requires binSize > 0.0
    ensures forall k :: 0 <= k < |points| ==> points[k] == -3.0 * sigma + k as real * binSize
    ensures forall k :: 0 <= k < |points| ==> -3.0 * sigma <= points[k] < 3.0 * sigma
  {
    SpikeHistogram.ArangeBounds(-3.0 * sigma, 3.0 * sigma, binSize);
    SpikeHistogram.Arange(-3.0 * sigma, 3.0 * sigma, binSize)
  }

  /**
   The support is `-3*sigma + k*binSize` for every k >= 0 whose value lies
   below `3*sigma`, so it stays within [-3 sigma, 3 sigma).
   */
  lemma KernelSupportExact(sigma: real, binSize: real, k: nat)
    requires binSize > 0.0
    ensures k < |KernelSupport(sigma, binSize)| <==> -3.0 * sigma + k as real * binSize < 3.0 * sigma
    ensures k < |KernelSupport(sigma, binSize)| ==>
      KernelSupport(sigma, binSize)[k] == -3.0 * sigma + k as real * binSize
  {
    SpikeHistogram.ArangeExact(-3.0 * sigma, 3.0 * sigma, binSize, k);
  }

  /** When `sigma >= binSize` the six-sigma span holds at least six sample points. */
  lemma KernelSupportAtLeastSix(sigma: real, binSize: real)
    requires 0.0 < binSize <= sigma
    ensures |KernelSupport(sigma, binSize)| >= 6
  {
    KernelSupportExact(sigma, binSize, 5);
    assert 5.0 * binSize <= 5.0 * sigma;
  }

  /** `norm.pdf(edges, 0, sigma) * binSize`, with the normal density `pdf(x, sigma)` left abstract. */
  function Kernel(sigma: real, binSize: real, pdf: (real, real) -> real): (kernel: seq<real>)
    requires binSize > 0.0
    ensures |kernel| == |KernelSupport(sigma, binSize)|
    ensures forall k :: 0 <= k < |kernel| ==>
      kernel[k] == pdf(KernelSupport(sigma, binSize)[k], sigma) * binSize
  {
    var points := KernelSupport(sigma, binSize);
    seq(|points|, k requires 0 <= k < |points| => pdf(points[k], sigma) * binSize)
  }

  /** A smoothing routine that returns as many samples as it is given. */
  ghost predicate KeepsLength(smooth: (seq<real>, seq<real>) -> seq<real>) {
    forall x, k :: |smooth(x, k)| == |x|
  }

  /** `convolve1d(rates, kernel, axis=0)`: a 1-D series directly, a (bin, trial) array column by column. */
  function SmoothAlongBins(rates: Value, kernel: seq<real>, smooth: (seq<real>, seq<real>) -> seq<real>): (r: Value)
    requires rates.Vec? || rates.Mat?
    ensures r.Vec? == rates.Vec? && r.Mat? == rates.Mat?
    ensures rates.Vec? ==> r.vec == smooth(rates.vec, kernel)
    ensures rates.Mat? ==>
      && r.mat.height == rates.mat.height && |r.mat.cols| == |rates.mat.cols|
      && forall j :: 0 <= j < |rates.mat.cols| ==> r.mat.cols[j] == smooth(rates.mat.cols[j], kernel)
  {
    if rates.Vec? then Vec(smooth(rates.vec, kernel))
    else
      var cols := rates.mat.cols;
      Mat(Matrix(rates.mat.height, seq(|cols|, j requires 0 <= j < |cols| => smooth(cols[j], kernel))))
  }

  /** Column-wise smoothing with a length-keeping routine keeps the shape of the rates. */
  lemma SmoothingKeepsShape(rates: Value, kernel: seq<real>, smooth: (seq<real>, seq<real>) -> seq<real>)
    requires rates.Vec? || (rates.Mat? && rates.mat.Rectangular())
    requires KeepsLength(smooth)
    ensures var out := SmoothAlongBins(rates, kernel, smooth);
      && out.Vec? == rates.Vec?
      && (out.Vec? ==> |out.vec| == |rates.vec|)
      && (out.Mat? ==> out.mat.height == rates.mat.height && |out.mat.cols| == |rates.mat.cols|
                       && out.mat.Rectangular())
  {
  }

  /** The histogram record fields `makeSpikeDensity` reads, when the record is there. */
  predicate DensityInput(xsg: Xsg) {
    SPIKE_HIST in xsg ==>
      && xsg[SPIKE_HIST].Dict?
      && var hist := xsg[SPIKE_HIST].fields;
      && SpikeHistogram.BIN_SIZE in hist && hist[SpikeHistogram.BIN_SIZE].Num?
      && hist[SpikeHistogram.BIN_SIZE].num > 0.0
      && SpikeHistogram.BIN_CENTERS in hist
      && SpikeHistogram.RATES in hist
      && (hist[SpikeHistogram.RATES].Vec? || hist[SpikeHistogram.RATES].Mat?)
  }

  /**
   `makeSpikeDensity`: a KeyError without a histogram, the assertion failure
   when `sigma < binSize`, and otherwise a copy with `spikeDensity` added and
   nothing else changed: the histogram's bin centres unchanged, the kernel
   sampled on its support, `sigma` as given, and the smoothed rates.
   */
  function MakeSpikeDensity(xsg: Xsg, sigma: real := 100.0, pdf: (real, real) -> real,
                            smooth: (seq<real>, seq<real>) -> seq<real>): (r: Result<Xsg>)
    requires DensityInput(xsg)
    ensures SPIKE_HIST !in xsg ==> r == Err(MissingField(SPIKE_HIST))
    ensures SPIKE_HIST in xsg ==>
      var hist := xsg[SPIKE_HIST].fields;
      var binSize := hist[SpikeHistogram.BIN_SIZE].num;
      && (r.Err? <==> sigma < binSize)
      && (r.Err? ==> r.failure == SigmaBelowBinSize)
      && (r.Ok? ==>
            && AddsField(xsg, r.value, SPIKE_DENSITY)
            && r.value[SPIKE_DENSITY].Dict?
            && var density := r.value[SPIKE_DENSITY].fields;
            && density.Keys == {SpikeHistogram.BIN_CENTERS, KERNEL, SIGMA, SpikeHistogram.RATES}
            && density[SpikeHistogram.BIN_CENTERS] == hist[SpikeHistogram.BIN_CENTERS]
            && density[SIGMA] == Num(sigma)
            && density[KERNEL] == Vec(Kernel(sigma, binSize, pdf))
            && |density[KERNEL].vec| >= 6
            && density[SpikeHistogram.RATES]
                 == SmoothAlongBins(hist[SpikeHistogram.RATES], density[KERNEL].vec, smooth))
  {
    if SPIKE_HIST !in xsg then Err(MissingField(SPIKE_HIST))
    else
      var hist := xsg[SPIKE_HIST].fields;
      var binSize := hist[SpikeHistogram.BIN_SIZE].num;
      if sigma < binSize then Err(SigmaBelowBinSize)
      else
        KernelSupportAtLeastSix(sigma, binSize);
        var kernel := Kernel(sigma, binSize, pdf);
        var density := map[SpikeHistogram.BIN_CENTERS := hist[SpikeHistogram.BIN_CENTERS],
                           KERNEL := Vec(kernel),
                           SIGMA := Num(sigma),
                           SpikeHistogram.RATES := SmoothAlongBins(hist[SpikeHistogram.RATES], kernel, smooth)];
        Ok(WithField(xsg, SPIKE_DENSITY, Dict(density)))
  }
}
