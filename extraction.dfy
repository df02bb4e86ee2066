/**
 Spike extraction (`extractSpikes` and its inner `extract`, unnormalised):
 one fixed-width window of the raw trace per spike time, stored as the
 columns of a (width, spikes) array.
 */
module SpikeExtraction {
  import opened Recording
  import SpikeDetection

  /** Spike times are turned back into samples assuming 10 samples per millisecond (10 kHz), whatever the recording's rate. */
  const SAMPLES_PER_MS: real := 10.0

  /** Python's `int(x)`: truncation toward zero. */
  function Trunc(x: real): (n: int)
    ensures x >= 0.0 ==> 0 <= n && n as real <= x < n as real + 1.0
    ensures x < 0.0 ==> n <= 0 && n as real - 1.0 < x <= n as real
  {
    if x >= 0.0 then x.Floor else -((-x).Floor)
  }

  /** `sample = int(spike*10)`. */
  function SampleOf(t: real): (n: int)
    ensures t >= 0.0 ==> 0 <= n && n as real <= t * SAMPLES_PER_MS < n as real + 1.0
    ensures t < 0.0 ==> n <= 0 && n as real - 1.0 < t * SAMPLES_PER_MS <= n as real
  {
    Trunc(t * SAMPLES_PER_MS)
  }

  /** Python's reading of a slice bound: negative bounds count from the end, then the bound is clamped to [0, len]. */
  function SliceBound(i: int, len: nat): (b: nat)
    ensures b <= len
    ensures 0 <= i <= len ==> b == i
    ensures i > len ==> b == len
    ensures i < 0 && len + i >= 0 ==> b == len + i
    ensures len + i < 0 ==> b == 0
  {
    if i < 0 then (if len + i < 0 then 0 else len + i)
    else if i > len then len
    else i
  }

  /** `data[lo:hi]` with Python's slicing rules: it never fails, it may come out shorter or empty. */
  function Slice(data: seq<real>, lo: int, hi: int): (r: seq<real>)
    ensures |r| <= |data|
    ensures 0 <= lo <= hi <= |data| ==> r == data[lo..hi]
    ensures forall x :: x in r ==> x in data
  {
    var a, b := SliceBound(lo, |data|), SliceBound(hi, |data|);
    if a < b then data[a..b] else []
  }

  /**
   What `column[:] = values` stores into a column of `height` cells: the
   values when the lengths agree, one value repeated when there is exactly
   one (numpy broadcasting), and nothing otherwise (numpy raises).
   */
  function StoreColumn(values: seq<real>, height: nat): (r: Option<seq<real>>)
    ensures r.Some? ==> |r.value| == height
    ensures r.Some? <==> |values| == height || |values| == 1
    ensures |values| == height ==> r == Some(values)
    ensures |values| == 1 ==> r.Some? && forall k :: 0 <= k < height ==> r.value[k] == values[0]
  {
    if |values| == height then Some(values)
    else if |values| == 1 then Some(seq(height, _ => values[0]))
    else None
  }

  /** The column stored for one spike: `data[sample-half_width : sample+half_width]`, with `half_width = width / 2`. */
  function Window(data: seq<real>, t: real, width: nat): (r: Option<seq<real>>)
    ensures r.Some? ==> |r.value| == width
    ensures r.Some? ==> forall x :: x in r.value ==> x in data
  {
    var s, half := SampleOf(t), width / 2;
    StoreColumn(Slice(data, s - half, s + half), width)
  }

  /** With an even width and a window inside the trace, the column is exactly the samples around the spike. */
  lemma WindowInBounds(data: seq<real>, t: real, width: nat)
    requires width % 2 == 0
    requires 0 <= SampleOf(t) - width / 2 && SampleOf(t) + width / 2 <= |data|
    ensures Window(data, t, width) == Some(data[SampleOf(t) - width / 2 .. SampleOf(t) + width / 2])
  {
  }

  /** With an odd width a window inside the trace is one sample short of its column, so numpy raises. */
  lemma WindowOddWidthFails(data: seq<real>, t: real, width: nat)
    requires width % 2 == 1
    requires 0 <= SampleOf(t) - width / 2 && SampleOf(t) + width / 2 <= |data|
    ensures Window(data, t, width) == None
  {
    var s, half := SampleOf(t), width / 2;
    assert |Slice(data, s - half, s + half)| == width - 1;
  }

  /**
   Near the end of the trace the slice can shrink to one sample, which numpy
   broadcasts: a 4-wide window at sample 11 of a 10-sample trace is the last
   sample four times.
   */
  lemma WindowPastEndRepeatsLastSample(data: seq<real>)
    requires |data| == 10
    ensures Window(data, 1.1, 4) == Some([data[9], data[9], data[9], data[9]])
  {
    assert SampleOf(1.1) == 11;
    assert Slice(data, 9, 13) == [data[9]];
    assert StoreColumn([data[9]], 4) == Some(seq(4, _ => data[9]));
    assert seq(4, _ => data[9]) == [data[9], data[9], data[9], data[9]];
  }

  /**
   Near the start of the trace the lower bound goes negative and counts
   from the end: a 4-wide window at sample 1 of a 3-sample trace slices
   `data[-1:3]`, the last sample, which is broadcast down the column.
   */
  lemma WindowNearStartWraps(data: seq<real>)
    requires |data| == 3
    ensures Window(data, 0.1, 4) == Some([data[2], data[2], data[2], data[2]])
  {
    assert SampleOf(0.1) == 1;
    assert Slice(data, -1, 3) == [data[2]];
    assert seq(4, _ => data[2]) == [data[2], data[2], data[2], data[2]];
  }

  /** At the assumed 10 kHz, the sample recovered from a detected time is the crossing index itself. */
  lemma SampleOfDetectedTimeAt10kHz(i: nat)
    ensures SampleOf(SpikeDetection.TimeOf(i, 10000.0)) == i
  {
    assert SpikeDetection.TimeOf(i, 10000.0) * SAMPLES_PER_MS == i as real;
  }

  /** At 20 kHz the same conversion lands at half the crossing index: the window is centred elsewhere. */
  lemma SampleOfDetectedTimeAt20kHz(i: nat)
    ensures SampleOf(SpikeDetection.TimeOf(i, 20000.0)) == i / 2
  {
    var x := SpikeDetection.TimeOf(i, 20000.0) * SAMPLES_PER_MS;
    assert x == i as real / 2.0;
    var q := i / 2;
    assert i == 2 * q || i == 2 * q + 1;
    assert q as real <= x < q as real + 1.0;
  }

  /** Every spike's window can be stored. */
  predicate AllWindowsFit(data: seq<real>, times: seq<real>, width: nat) {
    forall c :: 0 <= c < |times| ==> Window(data, times[c], width).Some?
  }

  /**
   The array `extract` returns: `width` rows and one column per spike time,
   column `c` holding the window of spike `c`; no array when numpy raises
   on some column.
   */
  function Extracted(data: seq<real>, times: seq<real>, width: nat): (r: Option<Matrix>)
    ensures r.Some? <==> AllWindowsFit(data, times, width)
    ensures r.Some? ==> r.value.height == width && |r.value.cols| == |times| && r.value.Rectangular()
    ensures r.Some? ==> forall c :: 0 <= c < |times| ==> Some(r.value.cols[c]) == Window(data, times[c], width)
  {
    if AllWindowsFit(data, times, width) then
      Some(Matrix(width, seq(|times|, c requires 0 <= c < |times| => Window(data, times[c], width).value)))
    else
      None
  }

  /** No spikes give an empty (width, 0) array, never an error. */
  lemma ExtractedNoSpikes(data: seq<real>, width: nat)
    ensures Extracted(data, [], width) == Some(Matrix(width, []))
  {
  }

  /** For even widths and in-bounds spikes, column `c` is `data[s-w/2 .. s+w/2)` with `s = trunc(10 * times[c])`. */
  lemma ExtractedInBounds(data: seq<real>, times: seq<real>, width: nat)
    requires width % 2 == 0
    requires forall c :: 0 <= c < |times| ==>
      0 <= SampleOf(times[c]) - width / 2 && SampleOf(times[c]) + width / 2 <= |data|
    ensures Extracted(data, times, width).Some?
    ensures forall c :: 0 <= c < |times| ==>
      Extracted(data, times, width).value.cols[c]
        == data[SampleOf(times[c]) - width / 2 .. SampleOf(times[c]) + width / 2]
  {
    forall c | 0 <= c < |times| ensures Window(data, times[c], width).Some? {
      WindowInBounds(data, times[c], width);
    }
    forall c | 0 <= c < |times|
      ensures Extracted(data, times, width).value.cols[c]
        == data[SampleOf(times[c]) - width / 2 .. SampleOf(times[c]) + width / 2]
    {
      WindowInBounds(data, times[c], width);
    }
  }

  /** `waves[:, col] = values` for values of the column's height: column `col` is overwritten, the others are kept. */
  method StoreInColumn(waves: array2<real>, col: nat, values: seq<real>)
    requires col < waves.Length1 && |values| == waves.Length0
    modifies waves
    ensures forall r :: 0 <= r < waves.Length0 ==> waves[r, col] == values[r]
    ensures forall r, c :: 0 <= r < waves.Length0 && 0 <= c < waves.Length1 && c != col ==>
      waves[r, c] == old(waves[r, c])
  {
    for r := 0 to waves.Length0
      invariant forall r' :: 0 <= r' < r ==> waves[r', col] == values[r']
      invariant forall r', c :: 0 <= r' < waves.Length0 && 0 <= c < waves.Length1 && c != col ==>
        waves[r', c] == old(waves[r', c])
    {
      waves[r, col] := values[r];
    }
  }

  /**
   `extract`: preallocate a (width, spikes) array of zeros and fill it one
   column per spike, in spike order. `ok` is false when numpy would raise on
   some column; otherwise the array is the one `Extracted` describes.
   */
  method Extract(data: seq<real>, times: seq<real>, width: nat) returns (ok: bool, waves: array2<real>)
    ensures fresh(waves)
    ensures waves.Length0 == width && waves.Length1 == |times|
    ensures ok <==> Extracted(data, times, width).Some?
    ensures ok ==> forall r, c :: 0 <= r < width && 0 <= c < |times| ==>
      waves[r, c] == Extracted(data, times, width).value.cols[c][r]
  {
    waves := new real[width, |times|]((r, c) => 0.0);
    ok := true;
    ghost var filled: seq<seq<real>> := [];
    for i := 0 to |times|
      invariant |filled| == i
      invariant forall c :: 0 <= c < i ==> Window(data, times[c], width) == Some(filled[c])
      invariant forall r, c :: 0 <= r < width && 0 <= c < i ==> waves[r, c] == filled[c][r]
    {
      var column := Window(data, times[i], width);
      if column.None? {
        assert !AllWindowsFit(data, times, width);
        ok := false;
        return;
      }
      var values := column.value;
      StoreInColumn(waves, i, values);
      filled := filled + [values];
    }
    assert AllWindowsFit(data, times, width);
    ghost var m := Extracted(data, times, width).value;
    assert forall c :: 0 <= c < |times| ==> m.cols[c] == filled[c];
  }

  /**
   The merged case, `map(extract, zip(trials, spikeTimes))`: trials in
   order, each with its own spike times, as many as the shorter list; no
   result when any trial fails.
   */
  function ExtractBatch(traces: seq<seq<real>>, timesList: seq<seq<real>>, width: nat): (r: Option<seq<Matrix>>)
    ensures var n := if |traces| < |timesList| then |traces| else |timesList|;
      && (r.Some? <==> forall j :: 0 <= j < n ==> Extracted(traces[j], timesList[j], width).Some?)
      && (r.Some? ==> |r.value| == n)
      && (r.Some? ==> forall j :: 0 <= j < n ==> r.value[j] == Extracted(traces[j], timesList[j], width).value)
    decreases |traces|
  {
    if traces == [] || timesList == [] then Some([])
    else
      match Extracted(traces[0], timesList[0], width)
      case None => None
      case Some(m) =>
        match ExtractBatch(traces[1..], timesList[1..], width)
        case None => None
        case Some(ms) => Some([m] + ms)
  }

  /** What `extractSpikes` needs: the channel's traces, and spike times of the matching shape if there are any. */
  predicate ExtractInput(xsg: Xsg, channel: string) {
    && HasTraces(xsg, channel)
    && (SPIKE_TIMES in xsg ==>
          if IsMerged(xsg) then xsg[SPIKE_TIMES].VecList? else xsg[SPIKE_TIMES].Vec?)
  }

  /**
   `extractSpikes` (energy normalisation off): a KeyError without spike
   times, a numpy error when some window cannot be stored, and otherwise a
   copy with `extractedSpikes` added and nothing else changed.
   */
  function ExtractSpikes(xsg: Xsg, width: nat := 100, channel: string := CHAN0): (r: Result<Xsg>)
    requires ExtractInput(xsg, channel)
    ensures SPIKE_TIMES !in xsg ==> r == Err(MissingField(SPIKE_TIMES))
    ensures r.Err? ==> r.failure == MissingField(SPIKE_TIMES) || r.failure == ShapeMismatch
    ensures r.Ok? ==> AddsField(xsg, r.value, EXTRACTED_SPIKES)
    ensures SPIKE_TIMES in xsg && !IsMerged(xsg) ==>
      var data, times := Channel(xsg, channel).vec, xsg[SPIKE_TIMES].vec;
      && (r.Ok? <==> AllWindowsFit(data, times, width))
      && (r.Ok? ==> r.value[EXTRACTED_SPIKES] == Mat(Extracted(data, times, width).value))
    ensures SPIKE_TIMES in xsg && IsMerged(xsg) ==>
      var traces, timesList := Channel(xsg, channel).mat.cols, xsg[SPIKE_TIMES].vecs;
      var n := if |traces| < |timesList| then |traces| else |timesList|;
      && (r.Ok? <==> forall j :: 0 <= j < n ==> AllWindowsFit(traces[j], timesList[j], width))
      && (r.Ok? ==>
            && r.value[EXTRACTED_SPIKES].MatList?
            && |r.value[EXTRACTED_SPIKES].mats| == n
            && forall j :: 0 <= j < n ==>
                 r.value[EXTRACTED_SPIKES].mats[j] == Extracted(traces[j], timesList[j], width).value)
  {
    if SPIKE_TIMES !in xsg then Err(MissingField(SPIKE_TIMES))
    else if IsMerged(xsg) then
      match ExtractBatch(Channel(xsg, channel).mat.cols, xsg[SPIKE_TIMES].vecs, width)
      case None => Err(ShapeMismatch)
      case Some(ms) => Ok(WithField(xsg, EXTRACTED_SPIKES, MatList(ms)))
    else
      match Extracted(Channel(xsg, channel).vec, xsg[SPIKE_TIMES].vec, width)
      case None => Err(ShapeMismatch)
      case Some(m) => Ok(WithField(xsg, EXTRACTED_SPIKES, Mat(m)))
  }
}
