/**
 Spike detection (`detectSpikes` and its inner `detect`): threshold
 crossings between adjacent samples, reported in milliseconds.
 */
module SpikeDetection {
  import opened Recording

  /** Which crossing counts as a spike. Any other edge name is rejected by Python before a result exists. */
  datatype Edge = Rising | Falling

  /** One trial's threshold: a single level, or an explicit wave the size of the trace. */
  datatype Threshold = Level(level: real) | Wave(wave: seq<real>)

  /** The `thresh` argument: one threshold shared by all trials, or a Python list with one per trial. */
  datatype ThresholdSpec = Single(shared: Threshold) | PerTrial(each: seq<Threshold>)

  /** A wave threshold must be exactly as long as the trace it is compared with. */
  predicate FitsTrace(t: Threshold, n: nat) {
    t.Wave? ==> |t.wave| == n
  }

  /** The threshold as a wave of the trace's length: `np.ones_like(trace) * thresh` for a level. */
  function AsWave(t: Threshold, n: nat): (w: seq<real>)
    requires FitsTrace(t, n)
    ensures |w| == n
    ensures t.Level? ==> forall i :: 0 <= i < n ==> w[i] == t.level
    ensures t.Wave? ==> w == t.wave
  {
    match t
    case Level(v) => seq(n, _ => v)
    case Wave(w) => w
  }

  /** Sample pair (i, i+1) crosses the threshold in the direction `edge`. */
  predicate Crosses(trace: seq<real>, th: seq<real>, edge: Edge, i: int)
    requires |th| == |trace|
  {
    && 0 <= i < |trace| - 1
    && match edge
       case Rising => trace[i] < th[i] && trace[i + 1] > th[i + 1]
       case Falling => trace[i] > th[i] && trace[i + 1] < th[i + 1]
  }

  /**
   The crossing indices among the first `n` samples, in scan order (the
   indices `np.where` returns for the prefix of length `n`).
   */
  function CrossingsBelow(trace: seq<real>, th: seq<real>, edge: Edge, n: nat): (r: seq<nat>)
    requires |th| == |trace| && n <= |trace|
    ensures forall k :: 0 <= k < |r| ==> r[k] + 1 < n && Crosses(trace, th, edge, r[k])
    ensures forall i :: 0 <= i && i + 1 < n && Crosses(trace, th, edge, i) ==> i in r
    ensures forall j, k :: 0 <= j < k < |r| ==> r[j] < r[k]
    decreases n
  {
    if n < 2 then []
    else
      CrossingsBelow(trace, th, edge, n - 1)
        + (if Crosses(trace, th, edge, n - 2) then [n - 2] else [])
  }

  /** Every crossing index of the trace, ascending. */
  function Crossings(trace: seq<real>, th: seq<real>, edge: Edge): seq<nat>
    requires |th| == |trace|
  {
    CrossingsBelow(trace, th, edge, |trace|)
  }

  /** Sample index `i` in milliseconds: `i * 1000.0 / sample_rate`. */
  function TimeOf(i: nat, rate: real): real
    requires rate > 0.0
  {
    i as real * 1000.0 / rate
  }

  lemma TimeOfMonotone(i: nat, j: nat, rate: real)
    requires rate > 0.0 && i < j
    ensures TimeOf(i, rate) < TimeOf(j, rate)
  {
    assert i as real * 1000.0 < j as real * 1000.0;
  }

  /** Over all sample indices, the conversion to milliseconds preserves and reflects order. */
  lemma TimeOfOrder(rate: real)
    requires rate > 0.0
    ensures forall i: nat, j: nat :: i < j <==> TimeOf(i, rate) < TimeOf(j, rate)
  {
    forall i: nat, j: nat ensures i < j <==> TimeOf(i, rate) < TimeOf(j, rate) {
      if i < j { TimeOfMonotone(i, j, rate); }
      if j < i { TimeOfMonotone(j, i, rate); }
    }
  }

  /** The crossing indices in milliseconds, index by index. */
  function TimesOf(idx: seq<nat>, rate: real): (times: seq<real>)
    requires rate > 0.0
    ensures |times| == |idx| && forall k :: 0 <= k < |idx| ==> times[k] == TimeOf(idx[k], rate)
    ensures forall j, k :: 0 <= j < |idx| && 0 <= k < |idx| ==> (idx[j] < idx[k] <==> times[j] < times[k])
  {
    TimeOfOrder(rate);
    seq(|idx|, k requires 0 <= k < |idx| => TimeOf(idx[k], rate))
  }

  /**
   What `detect` promises of its result for a trace and its threshold wave:
   the times are strictly ascending, each is the time of a crossing, each
   crossing appears, and there are none exactly when nothing crosses.
   */
  ghost predicate SpikeTimesOf(trace: seq<real>, th: seq<real>, edge: Edge, rate: real, times: seq<real>)
    requires |th| == |trace| && rate > 0.0
  {
    && (forall j, k :: 0 <= j < k < |times| ==> times[j] < times[k])
    && (forall k :: 0 <= k < |times| ==>
          exists i: nat :: Crosses(trace, th, edge, i) && times[k] == TimeOf(i, rate))
    && (forall i: nat :: Crosses(trace, th, edge, i) ==> TimeOf(i, rate) in times)
    && (times == [] <==> forall i: nat :: !Crosses(trace, th, edge, i))
  }

  /** Converting the crossings of a trace to milliseconds keeps them ascending, sound and complete. */
  lemma CrossingTimes(trace: seq<real>, th: seq<real>, edge: Edge, rate: real, times: seq<real>)
    requires |th| == |trace| && rate > 0.0
    requires times == TimesOf(Crossings(trace, th, edge), rate)
    ensures SpikeTimesOf(trace, th, edge, rate, times)
  {
    var idx := Crossings(trace, th, edge);
    forall k | 0 <= k < |times|
      ensures exists i: nat :: Crosses(trace, th, edge, i) && times[k] == TimeOf(i, rate)
    {
      var i: nat := idx[k];
      assert Crosses(trace, th, edge, i) && times[k] == TimeOf(i, rate);
    }
    forall i: nat | Crosses(trace, th, edge, i) ensures TimeOf(i, rate) in times {
      assert i in idx;
      var k :| 0 <= k < |idx| && idx[k] == i;
      assert times[k] == TimeOf(i, rate);
    }
    forall i: nat ensures times == [] ==> !Crosses(trace, th, edge, i) {
      assert Crosses(trace, th, edge, i) ==> i in idx;
    }
    if times != [] {
      assert Crosses(trace, th, edge, idx[0]);
    }
  }

  /**
   `detect` for one trial: the times of all crossings of the trace and the
   (broadcast) threshold, as `SpikeTimesOf` describes them.
   */
  function Detect(trace: seq<real>, t: Threshold, edge: Edge, rate: real): (times: seq<real>)
    requires FitsTrace(t, |trace|) && rate > 0.0
    ensures SpikeTimesOf(trace, AsWave(t, |trace|), edge, rate, times)
  {
    var times := TimesOf(Crossings(trace, AsWave(t, |trace|), edge), rate);
    CrossingTimes(trace, AsWave(t, |trace|), edge, rate, times);
    times
  }

  /** The trace with every sample negated. */
  function Negated(s: seq<real>): (r: seq<real>)
    ensures |r| == |s| && forall i :: 0 <= i < |s| ==> r[i] == -s[i]
  {
    seq(|s|, i requires 0 <= i < |s| => -s[i])
  }

  function NegatedThreshold(t: Threshold): (r: Threshold)
    ensures forall n :: FitsTrace(r, n) == FitsTrace(t, n)
    ensures forall n :: FitsTrace(t, n) ==> AsWave(r, n) == Negated(AsWave(t, n))
  {
    match t
    case Level(v) => Level(-v)
    case Wave(w) => Wave(Negated(w))
  }

  /** A falling crossing of (trace, th) is a rising crossing of (-trace, -th), prefix by prefix. */
  lemma {:induction false} FallingIsRisingOfNegatedBelow(trace: seq<real>, th: seq<real>, n: nat)
    requires |th| == |trace| && n <= |trace|
    ensures CrossingsBelow(trace, th, Falling, n) == CrossingsBelow(Negated(trace), Negated(th), Rising, n)
    decreases n
  {
    if n >= 2 {
      FallingIsRisingOfNegatedBelow(trace, th, n - 1);
      assert Crosses(trace, th, Falling, n - 2) == Crosses(Negated(trace), Negated(th), Rising, n - 2);
    }
  }

  /** Falling-edge detection is rising-edge detection on the negated trace and threshold. */
  lemma FallingIsRisingOfNegated(trace: seq<real>, t: Threshold, rate: real)
    requires FitsTrace(t, |trace|) && rate > 0.0
    ensures FitsTrace(NegatedThreshold(t), |Negated(trace)|)
    ensures Detect(trace, t, Falling, rate) == Detect(Negated(trace), NegatedThreshold(t), Rising, rate)
  {
    var n := |trace|;
    assert AsWave(NegatedThreshold(t), n) == Negated(AsWave(t, n));
    FallingIsRisingOfNegatedBelow(trace, AsWave(t, n), n);
  }

  /** `thresh[j]` as the fan-out hands it to trial `j`: the repeated shared threshold, or the list's entry. */
  function TrialThreshold(spec: ThresholdSpec, j: nat): Threshold
    requires spec.PerTrial? ==> j < |spec.each|
  {
    match spec
    case Single(t) => t
    case PerTrial(ts) => ts[j]
  }

  /** `zip` stops at its shortest argument: a threshold list shorter than the trials drops the later trials. */
  function TrialCount(spec: ThresholdSpec, trials: nat): (n: nat)
    ensures n <= trials
    ensures spec.PerTrial? ==> n <= |spec.each|
    ensures spec.Single? ==> n == trials
    ensures n == trials || (spec.PerTrial? && n == |spec.each|)
  {
    match spec
    case Single(_) => trials
    case PerTrial(ts) => if |ts| < trials then |ts| else trials
  }

  /** Every threshold the fan-out uses fits its trial. */
  predicate ThresholdsFit(traces: seq<seq<real>>, spec: ThresholdSpec) {
    forall j: nat :: j < TrialCount(spec, |traces|) ==> FitsTrace(TrialThreshold(spec, j), |traces[j]|)
  }

  /** What the fan-out hands to the next trial after the current one. */
  function RestOf(spec: ThresholdSpec): ThresholdSpec
    requires spec.PerTrial? ==> |spec.each| > 0
  {
    match spec
    case Single(t) => Single(t)
    case PerTrial(ts) => PerTrial(ts[1..])
  }

  /** After the first trial, trial `j` of the rest is trial `j + 1` of the whole, and its threshold still fits. */
  lemma RestShifts(traces: seq<seq<real>>, spec: ThresholdSpec)
    requires traces != [] && (spec.PerTrial? ==> spec.each != [])
    requires ThresholdsFit(traces, spec)
    ensures TrialCount(RestOf(spec), |traces| - 1) + 1 == TrialCount(spec, |traces|)
    ensures forall j: nat :: j < TrialCount(RestOf(spec), |traces| - 1) ==>
      TrialThreshold(RestOf(spec), j) == TrialThreshold(spec, j + 1)
    ensures ThresholdsFit(traces[1..], RestOf(spec))
  {
    var rest := RestOf(spec);
    forall j: nat | j < TrialCount(rest, |traces| - 1)
      ensures TrialThreshold(rest, j) == TrialThreshold(spec, j + 1)
      ensures FitsTrace(TrialThreshold(rest, j), |traces[1..][j]|)
    {
      assert traces[1..][j] == traces[j + 1];
    }
  }

  /**
   `map(detect, zip(trials, thresh, ...))`: the trials are consumed in
   order, one result per zipped trial (`DetectBatchTrial` says which).
   */
  function DetectBatch(traces: seq<seq<real>>, spec: ThresholdSpec, edge: Edge, rate: real): (r: seq<seq<real>>)
    requires rate > 0.0 && ThresholdsFit(traces, spec)
    ensures |r| == TrialCount(spec, |traces|)
    decreases |traces|
  {
    if traces == [] || (spec.PerTrial? && spec.each == []) then []
    else
      RestShifts(traces, spec);
      [Detect(traces[0], TrialThreshold(spec, 0), edge, rate)] + DetectBatch(traces[1..], RestOf(spec), edge, rate)
  }

  /** Result `j` of the fan-out is trial `j` detected with its own threshold. */
  lemma {:induction false} DetectBatchTrial(traces: seq<seq<real>>, spec: ThresholdSpec, edge: Edge, rate: real, j: nat)
    requires rate > 0.0 && ThresholdsFit(traces, spec)
    requires j < TrialCount(spec, |traces|)
    ensures FitsTrace(TrialThreshold(spec, j), |traces[j]|)
    ensures DetectBatch(traces, spec, edge, rate)[j] == Detect(traces[j], TrialThreshold(spec, j), edge, rate)
    decreases j
  {
    if j > 0 {
      RestShifts(traces, spec);
      DetectBatchTrial(traces[1..], RestOf(spec), edge, rate, j - 1);
    }
  }

  /** Every result of the fan-out, trial by trial. */
  lemma DetectBatchTrials(traces: seq<seq<real>>, spec: ThresholdSpec, edge: Edge, rate: real)
    requires rate > 0.0 && ThresholdsFit(traces, spec)
    ensures forall j :: 0 <= j < |DetectBatch(traces, spec, edge, rate)| ==>
      DetectBatch(traces, spec, edge, rate)[j] == Detect(traces[j], TrialThreshold(spec, j), edge, rate)
  {
    forall j | 0 <= j < |DetectBatch(traces, spec, edge, rate)|
      ensures DetectBatch(traces, spec, edge, rate)[j] == Detect(traces[j], TrialThreshold(spec, j), edge, rate)
    {
      DetectBatchTrial(traces, spec, edge, rate, j);
    }
  }

  /** What `detectSpikes` needs of its container and arguments. */
  predicate DetectInput(xsg: Xsg, thresh: ThresholdSpec, channel: string) {
    && HasTraces(xsg, channel)
    && HasRate(xsg)
    && if IsMerged(xsg) then ThresholdsFit(Channel(xsg, channel).mat.cols, thresh)
       else thresh.Single? && FitsTrace(thresh.shared, |Channel(xsg, channel).vec|)
  }

  /**
   `detectSpikes`: a copy of the container with `spikeTimes` added and
   nothing else changed. A single trial gets one time array; a merged
   container gets a list with one array per trial, in trial order, detected
   at `sampleRate[0]`.
   */
  function DetectSpikes(xsg: Xsg, thresh: ThresholdSpec, edge: Edge := Falling, channel: string := CHAN0): (r: Xsg)
    requires DetectInput(xsg, thresh, channel)
    ensures AddsField(xsg, r, SPIKE_TIMES)
    ensures IsMerged(xsg) ==>
      var traces := Channel(xsg, channel).mat.cols;
      && r[SPIKE_TIMES].VecList?
      && |r[SPIKE_TIMES].vecs| == TrialCount(thresh, |traces|)
      && forall j :: 0 <= j < |r[SPIKE_TIMES].vecs| ==>
           r[SPIKE_TIMES].vecs[j] == Detect(traces[j], TrialThreshold(thresh, j), edge, Rate(xsg))
    ensures !IsMerged(xsg) ==>
      r[SPIKE_TIMES] == Vec(Detect(Channel(xsg, channel).vec, thresh.shared, edge, Rate(xsg)))
  {
    if IsMerged(xsg) then
      DetectBatchTrials(Channel(xsg, channel).mat.cols, thresh, edge, Rate(xsg));
      WithField(xsg, SPIKE_TIMES, VecList(DetectBatch(Channel(xsg, channel).mat.cols, thresh, edge, Rate(xsg))))
    else
      WithField(xsg, SPIKE_TIMES, Vec(Detect(Channel(xsg, channel).vec, thresh.shared, edge, Rate(xsg))))
  }

  const EXAMPLE_TRACE: seq<real> := [0.0, 0.0, 2.0, 2.0, 0.0, 0.0, 2.0, 2.0, 0.0]
  const EXAMPLE_LEVEL: seq<real> := [1.0, 1.0, 1.0, 1.0, 1.0, 1.0, 1.0, 1.0, 1.0]

  lemma ExampleScanToFive()
    ensures CrossingsBelow(EXAMPLE_TRACE, EXAMPLE_LEVEL, Rising, 5) == [1]
  {
    var trace, th := EXAMPLE_TRACE, EXAMPLE_LEVEL;
    assert !Crosses(trace, th, Rising, 0);
    assert CrossingsBelow(trace, th, Rising, 2) == [];
    assert Crosses(trace, th, Rising, 1);
    assert CrossingsBelow(trace, th, Rising, 3) == [1];
    assert !Crosses(trace, th, Rising, 2);
    assert CrossingsBelow(trace, th, Rising, 4) == [1];
    assert !Crosses(trace, th, Rising, 3);
  }

  lemma ExampleScanToSeven()
    ensures CrossingsBelow(EXAMPLE_TRACE, EXAMPLE_LEVEL, Rising, 7) == [1, 5]
  {
    var trace, th := EXAMPLE_TRACE, EXAMPLE_LEVEL;
    ExampleScanToFive();
    assert !Crosses(trace, th, Rising, 4);
    assert CrossingsBelow(trace, th, Rising, 6) == [1];
    assert Crosses(trace, th, Rising, 5);
    assert [1] + [5] == [1, 5];
  }

  lemma ExampleScan()
    ensures CrossingsBelow(EXAMPLE_TRACE, EXAMPLE_LEVEL, Rising, 9) == [1, 5]
  {
    var trace, th := EXAMPLE_TRACE, EXAMPLE_LEVEL;
    ExampleScanToSeven();
    assert !Crosses(trace, th, Rising, 6);
    assert CrossingsBelow(trace, th, Rising, 8) == [1, 5];
    assert !Crosses(trace, th, Rising, 7);
  }

  /** Trace [0,0,2,2,0,0,2,2,0], threshold 1, rising, 1 kHz: crossings at samples 1 and 5, i.e. 1 ms and 5 ms. */
  lemma RisingExample()
    ensures Detect(EXAMPLE_TRACE, Level(1.0), Rising, 1000.0) == [1.0, 5.0]
  {
    assert AsWave(Level(1.0), 9) == EXAMPLE_LEVEL;
    ExampleScan();
    var times := TimesOf([1, 5], 1000.0);
    assert times[0] == TimeOf(1, 1000.0) == 1.0;
    assert times[1] == TimeOf(5, 1000.0) == 5.0;
    assert times == [1.0, 5.0];
  }
}
