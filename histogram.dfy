/**
 The spike-time histogram (`makeSTH` and its inner `makeHist`): fixed-width
 bins from 0 up to the recording's duration, counts per bin with
 `np.histogram` semantics, bin centres and rates.
 */
module SpikeHistogram {
  import opened Recording

  /** The smallest integer not below `x`. */
  function Ceil(x: real): (n: int)
    ensures n as real - 1.0 < x <= n as real
  {
    -((-x).Floor)
  }

  /** For a positive factor, multiplying keeps a strict order both ways. */
  lemma MulPreservesLess(a: real, b: real, c: real)
    requires c > 0.0
    ensures a < b <==> a * c < b * c
  {
    if a < b { assert (b - a) * c > 0.0; }
    if a * c < b * c { assert (b - a) * c > 0.0; }
  }

  /**
   `np.arange(start, stop, step)` for a positive step:
   ⌈(stop - start) / step⌉ values (none when stop <= start), the k-th being
   `start + k * step`.
   */
  function Arange(start: real, stop: real, step: real): (r: seq<real>)
    requires step > 0.0
    ensures forall k :: 0 <= k < |r| ==> r[k] == start + k as real * step
  {
    if stop <= start then []
    else
      var n := Ceil((stop - start) / step);
      seq(n, k requires 0 <= k < n => start + k as real * step)
  }

  /** The values of `Arange` are exactly the points `start + k * step`, k = 0, 1, ..., that lie below `stop`. */
  lemma ArangeExact(start: real, stop: real, step: real, k: nat)
    requires step > 0.0
    ensures k < |Arange(start, stop, step)| <==> start + k as real * step < stop
  {
    if stop <= start {
      assert k as real * step >= 0.0;
    } else {
      var q := (stop - start) / step;
      assert q * step == stop - start;
      MulPreservesLess(k as real, q, step);
    }
  }

  /** Every value of `Arange` lies in `[start, stop)`. */
  lemma ArangeBounds(start: real, stop: real, step: real)
    requires step > 0.0
    ensures forall k :: 0 <= k < |Arange(start, stop, step)| ==> start <= Arange(start, stop, step)[k] < stop
  {
    forall k | 0 <= k < |Arange(start, stop, step)| ensures start <= Arange(start, stop, step)[k] < stop {
      ArangeExact(start, stop, step, k);
      assert k as real * step >= 0.0;
    }
  }

  /** Non-decreasing: the order `np.histogram` requires of explicit edges. */
  predicate Sorted(s: seq<real>) {
    forall j, k :: 0 <= j < k < |s| ==> s[j] <= s[k]
  }

  lemma ArangeSorted(start: real, stop: real, step: real)
    requires step > 0.0
    ensures Sorted(Arange(start, stop, step))
  {
    var r := Arange(start, stop, step);
    forall j, k | 0 <= j < k < |r| ensures r[j] <= r[k] {
      MulPreservesLess(j as real, k as real, step);
    }
  }

  /** Bin `k` of `np.histogram`: `[edges[k], edges[k+1])`, except that the last bin is closed on the right. */
  predicate InBin(x: real, edges: seq<real>, k: int)
    requires 0 <= k < |edges| - 1
  {
    edges[k] <= x && (x < edges[k + 1] || (k == |edges| - 2 && x == edges[k + 1]))
  }

  /** How many of `xs` (duplicates included) fall in bin `k`. */
  function CountInBin(xs: seq<real>, edges: seq<real>, k: int): nat
    requires 0 <= k < |edges| - 1
    decreases |xs|
  {
    if xs == [] then 0
    else CountInBin(xs[..|xs| - 1], edges, k) + (if InBin(xs[|xs| - 1], edges, k) then 1 else 0)
  }

  /** `counts` of `np.histogram(xs, edges)`: one count per bin, one bin fewer than edges. */
  function Counts(xs: seq<real>, edges: seq<real>): (c: seq<nat>)
    requires |edges| >= 1
    ensures |c| == |edges| - 1
    ensures forall k :: 0 <= k < |c| ==> c[k] == CountInBin(xs, edges, k)
  {
    seq(|edges| - 1, k requires 0 <= k < |edges| - 1 => CountInBin(xs, edges, k))
  }

  /** `0.5*(bin_edges[1:]+bin_edges[:-1])`. */
  function Centers(edges: seq<real>): (c: seq<real>)
    requires |edges| >= 1
    ensures |c| == |edges| - 1
    ensures forall k :: 0 <= k < |c| ==> edges[k] <= edges[k + 1] ==> edges[k] <= c[k] <= edges[k + 1]
  {
    seq(|edges| - 1, k requires 0 <= k < |edges| - 1 => 0.5 * (edges[k + 1] + edges[k]))
  }

  /** `counts * (1000.0 / bin_size)`: events per second. */
  function Rates(counts: seq<nat>, binSize: real): (r: seq<real>)
    requires binSize > 0.0
    ensures |r| == |counts|
  {
    seq(|counts|, k requires 0 <= k < |counts| => counts[k] as real * (1000.0 / binSize))
  }

  /** Rates convert back to counts: `rates[k] * bin_size / 1000 == counts[k]`. */
  lemma RatesGiveCounts(counts: seq<nat>, binSize: real, k: nat)
    requires binSize > 0.0 && k < |counts|
    ensures Rates(counts, binSize)[k] * binSize / 1000.0 == counts[k] as real
  {
    var c := counts[k] as real;
    assert (1000.0 / binSize) * binSize == 1000.0;
    assert c * (1000.0 / binSize) * binSize == c * ((1000.0 / binSize) * binSize);
  }

  function Sum(s: seq<nat>): nat
    decreases |s|
  {
    if s == [] then 0 else Sum(s[..|s| - 1]) + s[|s| - 1]
  }

  /** How many of `xs` lie in `[lo, hi]`. */
  function Within(xs: seq<real>, lo: real, hi: real): (n: nat)
    decreases |xs|
  {
    if xs == [] then 0
    else Within(xs[..|xs| - 1], lo, hi) + (if lo <= xs[|xs| - 1] <= hi then 1 else 0)
  }

  /** At most every element lies in `[lo, hi]`, and all of them do exactly when the count is the length. */
  lemma {:induction false} WithinBound(xs: seq<real>, lo: real, hi: real)
    ensures Within(xs, lo, hi) <= |xs|
    ensures Within(xs, lo, hi) == |xs| <==> forall i :: 0 <= i < |xs| ==> lo <= xs[i] <= hi
    decreases |xs|
  {
    if xs != [] {
      var init := xs[..|xs| - 1];
      WithinBound(init, lo, hi);
      assert forall i :: 0 <= i < |init| ==> init[i] == xs[i];
    }
  }

  /** Bin by bin, 1 where `x` falls. */
  function Hits(x: real, edges: seq<real>): (h: seq<nat>)
    requires |edges| >= 1
    ensures |h| == |edges| - 1
  {
    seq(|edges| - 1, k requires 0 <= k < |edges| - 1 => if InBin(x, edges, k) then 1 else 0)
  }

  /** Over the half-open bins below `n`, `x` is counted once if it lies in `[edges[0], edges[n])` and never otherwise. */
  lemma {:induction false} HitsBelow(x: real, edges: seq<real>, n: nat)
    requires Sorted(edges) && n + 2 <= |edges|
    ensures Sum(Hits(x, edges)[..n]) == if edges[0] <= x < edges[n] then 1 else 0
    decreases n
  {
    if n > 0 {
      HitsBelow(x, edges, n - 1);
      assert Hits(x, edges)[..n][..n - 1] == Hits(x, edges)[..n - 1];
    }
  }

  /** With sorted edges, `x` is counted in exactly one bin if it lies in `[edges[0], edges[last]]`, else in none. */
  lemma HitsTotal(x: real, edges: seq<real>)
    requires Sorted(edges) && |edges| >= 2
    ensures Sum(Hits(x, edges)) == if edges[0] <= x <= edges[|edges| - 1] then 1 else 0
  {
    var m := |edges| - 1;
    HitsBelow(x, edges, m - 1);
    assert Hits(x, edges)[..m] == Hits(x, edges);
  }

  lemma {:induction false} SumOfPointwiseAdd(a: seq<nat>, b: seq<nat>, c: seq<nat>)
    requires |a| == |b| == |c|
    requires forall k :: 0 <= k < |c| ==> c[k] == a[k] + b[k]
    ensures Sum(c) == Sum(a) + Sum(b)
    decreases |c|
  {
    if c != [] {
      var n := |c| - 1;
      SumOfPointwiseAdd(a[..n], b[..n], c[..n]);
    }
  }

  lemma {:induction false} SumOfZeros(s: seq<nat>)
    requires forall k :: 0 <= k < |s| ==> s[k] == 0
    ensures Sum(s) == 0
    decreases |s|
  {
    if s != [] {
      SumOfZeros(s[..|s| - 1]);
    }
  }

  /** Appending a spike time adds its hits to the counts. */
  lemma CountsAppend(xs: seq<real>, x: real, edges: seq<real>)
    requires |edges| >= 1
    ensures forall k :: 0 <= k < |edges| - 1 ==>
      Counts(xs + [x], edges)[k] == Counts(xs, edges)[k] + Hits(x, edges)[k]
  {
    assert (xs + [x])[..|xs|] == xs;
  }

  /**
   With sorted edges, the counts add up to the number of spike times in
   `[edges[0], edges[last]]`; times outside are dropped.
   */
  lemma {:induction false} CountsTotal(xs: seq<real>, edges: seq<real>)
    requires Sorted(edges) && |edges| >= 2
    ensures Sum(Counts(xs, edges)) == Within(xs, edges[0], edges[|edges| - 1])
    decreases |xs|
  {
    if xs == [] {
      SumOfZeros(Counts(xs, edges));
    } else {
      var init, x := xs[..|xs| - 1], xs[|xs| - 1];
      assert xs == init + [x];
      CountsTotal(init, edges);
      CountsAppend(init, x, edges);
      SumOfPointwiseAdd(Counts(init, edges), Hits(x, edges), Counts(xs, edges));
      HitsTotal(x, edges);
    }
  }

  /**
   `sum(counts) <= len(spike_times)`, with equality exactly when every spike
   time lies in `[edges[0], edges[last]]`.
   */
  lemma CountsAtMostSpikes(xs: seq<real>, edges: seq<real>)
    requires Sorted(edges) && |edges| >= 2
    ensures Sum(Counts(xs, edges)) <= |xs|
    ensures Sum(Counts(xs, edges)) == |xs| <==>
      forall i :: 0 <= i < |xs| ==> edges[0] <= xs[i] <= edges[|edges| - 1]
  {
    CountsTotal(xs, edges);
    WithinBound(xs, edges[0], edges[|edges| - 1]);
  }

  /** `duration_ms = nSamples / sampleRate * 1000.0`. */
  function DurationMs(samples: nat, rate: real): real
    requires rate > 0.0
  {
    samples as real / rate * 1000.0
  }

  /** `bins = np.arange(0, duration_ms, bin_size)`. */
  function BinEdges(samples: nat, rate: real, binSize: real): (edges: seq<real>)
    requires rate > 0.0 && binSize > 0.0
    ensures samples > 0 ==> |edges| >= 1
    ensures Sorted(edges)
  {
    var edges := Arange(0.0, DurationMs(samples, rate), binSize);
    ArangeSorted(0.0, DurationMs(samples, rate), binSize);
    ArangeExact(0.0, DurationMs(samples, rate), binSize, 0);
    edges
  }

  /** The edges are exactly `k * bin_size` for every k >= 0 with `k * bin_size < duration_ms`. */
  lemma BinEdgesExact(samples: nat, rate: real, binSize: real, k: nat)
    requires rate > 0.0 && binSize > 0.0
    ensures k < |BinEdges(samples, rate, binSize)| <==> k as real * binSize < DurationMs(samples, rate)
    ensures k < |BinEdges(samples, rate, binSize)| ==> BinEdges(samples, rate, binSize)[k] == k as real * binSize
  {
    ArangeExact(0.0, DurationMs(samples, rate), binSize, k);
  }

  /** On these edges the centre of bin `k` is `(k + 0.5) * bin_size`. */
  lemma BinCentersAreMidpoints(samples: nat, rate: real, binSize: real, k: nat)
    requires rate > 0.0 && binSize > 0.0 && samples > 0
    requires k + 1 < |BinEdges(samples, rate, binSize)|
    ensures Centers(BinEdges(samples, rate, binSize))[k] == (k as real + 0.5) * binSize
  {
  }

  /**
   The edges stop below the duration, so spikes in the recording's last
   stretch are not counted: 9 samples at 1 kHz with 1 ms bins give edges
   0..8 (8 bins, not 9), and a spike at 8.5 ms is counted nowhere.
   */
  lemma LastStretchUncounted()
    ensures |BinEdges(9, 1000.0, 1.0)| == 9
    ensures Sum(Counts([8.5], BinEdges(9, 1000.0, 1.0))) == 0
  {
    var edges := BinEdges(9, 1000.0, 1.0);
    assert DurationMs(9, 1000.0) == 9.0;
    assert Ceil(9.0) == 9;
    assert edges[8] == 8.0;
    CountsTotal([8.5], edges);
    assert Within([8.5], 0.0, 8.0) == 0 by {
      assert [8.5][..0] == [];
    }
  }

  /** What `makeHist` returns for one trial. */
  datatype TrialHistogram = TrialHistogram(centers: seq<real>, counts: seq<nat>, edges: seq<real>)

  /**
   `makeHist`: `np.histogram` on the shared edges, plus the bin centres. The
   edges come back unchanged; there is one count and one centre per bin;
   count `k` is the number of times in bin `k`, centre `k` is the midpoint
   of the bin; and on sorted edges the counts add up to the number of times
   between the first and the last edge.
   */
  function MakeHist(times: seq<real>, edges: seq<real>): (h: TrialHistogram)
    requires |edges| >= 1
    ensures h.edges == edges
    ensures |h.counts| == |h.centers| == |edges| - 1
    ensures forall k :: 0 <= k < |h.counts| ==> h.counts[k] == CountInBin(times, edges, k)
    ensures forall k :: 0 <= k < |h.centers| ==> h.centers[k] == (edges[k] + edges[k + 1]) / 2.0
    ensures Sorted(edges) && |edges| >= 2 ==> Sum(h.counts) == Within(times, edges[0], edges[|edges| - 1])
  {
    var h := TrialHistogram(Centers(edges), Counts(times, edges), edges);
    if Sorted(edges) && |edges| >= 2 then (CountsTotal(times, edges); h) else h
  }

  const BIN_CENTERS := "binCenters"
  const COUNTS := "counts"
  const BIN_EDGES := "binEdges"
  const RATES := "rates"
  const BIN_SIZE := "binSize"

  /** `xsg['ephys']['chan0'].shape[0]`: the number of samples per trial. */
  function SampleCount(v: Value): nat
    requires v.Vec? || v.Mat?
  {
    if v.Vec? then |v.vec| else v.mat.height
  }

  /** What `makeSTH` needs: a non-empty `chan0`, a sample rate, spike times of the right shape if there are any. */
  predicate STHInput(xsg: Xsg) {
    && HasChannel(xsg, CHAN0)
    && (Channel(xsg, CHAN0).Vec? || Channel(xsg, CHAN0).Mat?)
    && SampleCount(Channel(xsg, CHAN0)) > 0
    && HasRate(xsg)
    && (SPIKE_TIMES in xsg ==>
          if IsMerged(xsg) then xsg[SPIKE_TIMES].VecList? else xsg[SPIKE_TIMES].Vec?)
  }

  /** The shared edges of `makeSTH`: duration always from `chan0`, rate from `sampleRate` (its first entry when merged). */
  function STHEdges(xsg: Xsg, binSize: real): (edges: seq<real>)
    requires STHInput(xsg) && binSize > 0.0
    ensures |edges| >= 1 && Sorted(edges)
  {
    BinEdges(SampleCount(Channel(xsg, CHAN0)), Rate(xsg), binSize)
  }

  /**
   The `spikeHist` record of a single trial: `makeHist`'s centres, counts
   and edges as 1-D arrays, the rates (counts per second), and the bin size.
   */
  function SingleRecord(times: seq<real>, edges: seq<real>, binSize: real): (r: map<string, Value>)
    requires |edges| >= 1 && binSize > 0.0
    ensures r.Keys == {BIN_CENTERS, COUNTS, BIN_EDGES, RATES, BIN_SIZE}
    ensures r[BIN_SIZE] == Num(binSize) && r[BIN_EDGES] == Vec(edges)
    ensures var h := MakeHist(times, edges);
      && r[COUNTS] == IntVec(h.counts) && r[BIN_CENTERS] == Vec(h.centers)
      && r[RATES] == Vec(Rates(h.counts, binSize))
  {
    var h := MakeHist(times, edges);
    map[BIN_CENTERS := Vec(h.centers), COUNTS := IntVec(h.counts), BIN_EDGES := Vec(h.edges),
        RATES := Vec(Rates(h.counts, binSize)), BIN_SIZE := Num(binSize)]
  }

  /**
   The `spikeHist` record of a merged container: per-trial results of
   `makeHist` stacked as the columns of (bin, trial) arrays, edges as an
   (edge, trial) array, and the bin size.
   */
  function MergedRecord(timesList: seq<seq<real>>, edges: seq<real>, binSize: real): (r: map<string, Value>)
    requires |edges| >= 1 && binSize > 0.0
    ensures r.Keys == {BIN_CENTERS, COUNTS, BIN_EDGES, RATES, BIN_SIZE}
    ensures r[BIN_SIZE] == Num(binSize)
    ensures && r[BIN_CENTERS].Mat? && r[COUNTS].IntMat? && r[BIN_EDGES].Mat? && r[RATES].Mat?
            && r[BIN_CENTERS].mat.height == r[COUNTS].rows == r[RATES].mat.height == |edges| - 1
            && r[BIN_EDGES].mat.height == |edges|
            && r[BIN_CENTERS].mat.Rectangular() && r[BIN_EDGES].mat.Rectangular() && r[RATES].mat.Rectangular()
            && |r[BIN_CENTERS].mat.cols| == |r[COUNTS].icols| == |r[BIN_EDGES].mat.cols| == |timesList|
            && |r[RATES].mat.cols| == |timesList|
    ensures forall j :: 0 <= j < |timesList| ==>
      var h := MakeHist(timesList[j], edges);
      && r[BIN_CENTERS].mat.cols[j] == h.centers
      && r[COUNTS].icols[j] == h.counts
      && r[BIN_EDGES].mat.cols[j] == h.edges
      && r[RATES].mat.cols[j] == Rates(h.counts, binSize)
  {
    var hs := seq(|timesList|, j requires 0 <= j < |timesList| => MakeHist(timesList[j], edges));
    var bins := |edges| - 1;
    map[BIN_CENTERS := Mat(Matrix(bins, seq(|hs|, j requires 0 <= j < |hs| => hs[j].centers))),
        COUNTS := IntMat(bins, seq(|hs|, j requires 0 <= j < |hs| => hs[j].counts)),
        BIN_EDGES := Mat(Matrix(|edges|, seq(|hs|, j requires 0 <= j < |hs| => hs[j].edges))),
        RATES := Mat(Matrix(bins, seq(|hs|, j requires 0 <= j < |hs| => Rates(hs[j].counts, binSize)))),
        BIN_SIZE := Num(binSize)]
  }

  /**
   `makeSTH`: a KeyError without spike times; otherwise a copy with
   `spikeHist` added and nothing else changed. Every trial is binned on the
   same edges; counts follow `np.histogram`, centres are edge midpoints,
   rates are counts times 1000 / bin size.
   */
  function MakeSTH(xsg: Xsg, binSize: real := 1.0): (r: Result<Xsg>)
    requires STHInput(xsg) && binSize > 0.0
    ensures r.Err? <==> SPIKE_TIMES !in xsg
    ensures r.Err? ==> r.failure == MissingField(SPIKE_TIMES)
    ensures r.Ok? ==>
      var edges := STHEdges(xsg, binSize);
      && AddsField(xsg, r.value, SPIKE_HIST)
      && r.value[SPIKE_HIST].Dict?
      && var hist := r.value[SPIKE_HIST].fields;
      && hist.Keys == {BIN_CENTERS, COUNTS, BIN_EDGES, RATES, BIN_SIZE}
      && hist[BIN_SIZE] == Num(binSize)
      && (!IsMerged(xsg) ==>
            var times := xsg[SPIKE_TIMES].vec;
            && hist[BIN_EDGES] == Vec(edges)
            && hist[COUNTS] == IntVec(Counts(times, edges))
            && hist[BIN_CENTERS] == Vec(Centers(edges))
            && hist[RATES] == Vec(Rates(Counts(times, edges), binSize)))
      && (IsMerged(xsg) ==>
            var timesList := xsg[SPIKE_TIMES].vecs;
            && hist[BIN_EDGES].Mat? && hist[COUNTS].IntMat? && hist[BIN_CENTERS].Mat? && hist[RATES].Mat?
            && |hist[BIN_EDGES].mat.cols| == |hist[COUNTS].icols| == |timesList|
            && |hist[BIN_CENTERS].mat.cols| == |hist[RATES].mat.cols| == |timesList|
            && hist[COUNTS].rows == |edges| - 1
            && hist[BIN_CENTERS].mat.height == hist[RATES].mat.height == |edges| - 1
            && hist[BIN_EDGES].mat.height == |edges|
            && forall j :: 0 <= j < |timesList| ==>
                 && hist[BIN_EDGES].mat.cols[j] == edges
                 && hist[COUNTS].icols[j] == Counts(timesList[j], edges)
                 && hist[BIN_CENTERS].mat.cols[j] == Centers(edges)
                 && hist[RATES].mat.cols[j] == Rates(Counts(timesList[j], edges), binSize))
  {
    if SPIKE_TIMES !in xsg then Err(MissingField(SPIKE_TIMES))
    else
      var edges := STHEdges(xsg, binSize);
      var record :=
        if IsMerged(xsg) then MergedRecord(xsg[SPIKE_TIMES].vecs, edges, binSize)
        else SingleRecord(xsg[SPIKE_TIMES].vec, edges, binSize);
      Ok(WithField(xsg, SPIKE_HIST, Dict(record)))
  }
}
