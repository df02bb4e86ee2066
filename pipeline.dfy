/**
 The stages chained as the toolkit intends: detection, then the histogram,
 then the density. Each stage supplies the field the next one reads, and the
 chain only ever adds fields.
 */
module Pipeline {
  import opened Recording
  import SpikeDetection
  import SpikeHistogram
  import SpikeDensity

  /** After `detectSpikes`, `makeSTH` finds its spike times and cannot fail. */
  lemma HistogramAfterDetection(xsg: Xsg, thresh: SpikeDetection.ThresholdSpec, edge: SpikeDetection.Edge,
                                channel: string, binSize: real)
    requires SpikeDetection.DetectInput(xsg, thresh, channel)
    requires SpikeHistogram.STHInput(xsg) && binSize > 0.0
    ensures SpikeHistogram.STHInput(SpikeDetection.DetectSpikes(xsg, thresh, edge, channel))
    ensures SpikeHistogram.MakeSTH(SpikeDetection.DetectSpikes(xsg, thresh, edge, channel), binSize).Ok?
  {
    var detected := SpikeDetection.DetectSpikes(xsg, thresh, edge, channel);
    assert detected[EPHYS] == xsg[EPHYS] && detected[SAMPLE_RATE] == xsg[SAMPLE_RATE];
    assert IsMerged(detected) == IsMerged(xsg);
  }

  /** After `makeSTH`, `makeSpikeDensity` fails exactly when sigma is below the bin size. */
  lemma DensityAfterHistogram(xsg: Xsg, binSize: real, sigma: real, pdf: (real, real) -> real,
                              smooth: (seq<real>, seq<real>) -> seq<real>)
    requires SpikeHistogram.STHInput(xsg) && binSize > 0.0 && SPIKE_TIMES in xsg
    ensures SpikeHistogram.MakeSTH(xsg, binSize).Ok?
    ensures SpikeDensity.DensityInput(SpikeHistogram.MakeSTH(xsg, binSize).value)
    ensures var hist := SpikeHistogram.MakeSTH(xsg, binSize).value;
      SpikeDensity.MakeSpikeDensity(hist, sigma, pdf, smooth).Ok? <==> sigma >= binSize
  {
  }

  /** With a length-keeping smoother, the density's rates have the shape of the histogram's rates. */
  lemma DensityRatesKeepShape(xsg: Xsg, binSize: real, sigma: real, pdf: (real, real) -> real,
                              smooth: (seq<real>, seq<real>) -> seq<real>)
    requires SpikeHistogram.STHInput(xsg) && binSize > 0.0 && SPIKE_TIMES in xsg && sigma >= binSize
    requires SpikeDensity.KeepsLength(smooth)
    ensures var hist := SpikeHistogram.MakeSTH(xsg, binSize).value;
      var density := SpikeDensity.MakeSpikeDensity(hist, sigma, pdf, smooth).value;
      var before := hist[SPIKE_HIST].fields[SpikeHistogram.RATES];
      var after := density[SPIKE_DENSITY].fields[SpikeHistogram.RATES];
      && after.Vec? == before.Vec?
      && (after.Vec? ==> |after.vec| == |before.vec| == |SpikeHistogram.STHEdges(xsg, binSize)| - 1)
      && (after.Mat? ==> after.mat.height == before.mat.height && |after.mat.cols| == |before.mat.cols|)
  {
    var hist := SpikeHistogram.MakeSTH(xsg, binSize).value;
    var density := SpikeDensity.MakeSpikeDensity(hist, sigma, pdf, smooth).value;
    var before := hist[SPIKE_HIST].fields[SpikeHistogram.RATES];
    SpikeDensity.SmoothingKeepsShape(before, density[SPIKE_DENSITY].fields[SpikeDensity.KERNEL].vec, smooth);
  }

  /**
   Detection, histogram and density in a row: the result holds every field
   of the input unchanged, plus `spikeTimes`, `spikeHist` and `spikeDensity`.
   */
  lemma PipelineOnlyAddsFields(xsg: Xsg, thresh: SpikeDetection.ThresholdSpec, edge: SpikeDetection.Edge,
                               channel: string, binSize: real, sigma: real, pdf: (real, real) -> real,
                               smooth: (seq<real>, seq<real>) -> seq<real>)
    requires SpikeDetection.DetectInput(xsg, thresh, channel)
    requires SpikeHistogram.STHInput(xsg) && 0.0 < binSize <= sigma
    ensures var detected := SpikeDetection.DetectSpikes(xsg, thresh, edge, channel);
      && SpikeHistogram.MakeSTH(detected, binSize).Ok?
      && var hist := SpikeHistogram.MakeSTH(detected, binSize).value;
      && SpikeDensity.DensityInput(hist)
      && SpikeDensity.MakeSpikeDensity(hist, sigma, pdf, smooth).Ok?
      && var out := SpikeDensity.MakeSpikeDensity(hist, sigma, pdf, smooth).value;
      && out.Keys == xsg.Keys + {SPIKE_TIMES, SPIKE_HIST, SPIKE_DENSITY}
      && forall k :: k in xsg && k != SPIKE_TIMES && k != SPIKE_HIST && k != SPIKE_DENSITY ==> out[k] == xsg[k]
  {
    var detected := SpikeDetection.DetectSpikes(xsg, thresh, edge, channel);
    HistogramAfterDetection(xsg, thresh, edge, channel, binSize);
    var hist := SpikeHistogram.MakeSTH(detected, binSize).value;
    DensityAfterHistogram(detected, binSize, sigma, pdf, smooth);
    var out := SpikeDensity.MakeSpikeDensity(hist, sigma, pdf, smooth).value;
    AddsThreeFields(xsg, detected, hist, out, SPIKE_TIMES, SPIKE_HIST, SPIKE_DENSITY);
  }

  /**
   With every argument left at its default (falling edge on `chan0`, 1 ms
   bins, sigma of 100 ms), the three stages succeed one after another.
   */
  lemma DefaultsSucceed(xsg: Xsg, thresh: SpikeDetection.ThresholdSpec, pdf: (real, real) -> real,
                        smooth: (seq<real>, seq<real>) -> seq<real>)
    requires SpikeDetection.DetectInput(xsg, thresh, CHAN0)
    requires SpikeHistogram.STHInput(xsg)
    ensures var hist := SpikeHistogram.MakeSTH(SpikeDetection.DetectSpikes(xsg, thresh));
      && hist.Ok?
      && SpikeDensity.DensityInput(hist.value)
      && SpikeDensity.MakeSpikeDensity(hist.value, pdf := pdf, smooth := smooth).Ok?
  {
    PipelineOnlyAddsFields(xsg, thresh, SpikeDetection.Falling, CHAN0, 1.0, 100.0, pdf, smooth);
  }
}
