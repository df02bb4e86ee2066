/**
 The recording container ("XSG" dictionary) that every stage of the spike
 pipeline reads and returns. A stage never changes its input: it returns a
 copy with one derived field added, which for an immutable map is simply a
 new map value.
 */
module Recording {

  /** A 2-D numpy array of reals, held column by column; every column has `height` rows. */
  datatype Matrix = Matrix(height: nat, cols: seq<seq<real>>)
  {
    predicate Rectangular() {
      forall j :: 0 <= j < |cols| ==> |cols[j]| == height
    }
  }

  /** The values a field of the container can hold. */
  datatype Value =
    | Num(num: real)                          // a scalar (sample rate, bin size, sigma)
    | Vec(vec: seq<real>)                     // a 1-D float array
    | IntVec(ints: seq<int>)                  // a 1-D integer array (histogram counts)
    | Mat(mat: Matrix)                        // a 2-D float array
    | IntMat(rows: nat, icols: seq<seq<int>>) // a 2-D integer array, column by column
    | VecList(vecs: seq<seq<real>>)           // a Python list of 1-D arrays (one per trial)
    | MatList(mats: seq<Matrix>)              // a Python list of 2-D arrays (one per trial)
    | Dict(fields: map<string, Value>)        // a nested dictionary
    | Text(text: string)                      // other metadata

  type Xsg = map<string, Value>

  /** Why a stage raises instead of returning a container. */
  datatype Failure =
    | MissingField(key: string)  // a KeyError on a field an earlier stage should have added
    | ShapeMismatch              // numpy refuses to store a window in its column
    | SigmaBelowBinSize          // the assertion of makeSpikeDensity

  datatype Result<T> = Ok(value: T) | Err(failure: Failure)

  datatype Option<T> = None | Some(value: T)

  const MERGED := "merged"
  const EPHYS := "ephys"
  const SAMPLE_RATE := "sampleRate"
  const CHAN0 := "chan0"
  const SPIKE_TIMES := "spikeTimes"
  const EXTRACTED_SPIKES := "extractedSpikes"
  const SPIKE_HIST := "spikeHist"
  const SPIKE_DENSITY := "spikeDensity"

  /** A merged (batch) container is recognised by the presence of its marker key. */
  predicate IsMerged(xsg: Xsg) {
    MERGED in xsg
  }

  /** `after` holds every field of `before` unchanged, plus the field `key`. */
  predicate AddsField(before: Xsg, after: Xsg, key: string) {
    && after.Keys == before.Keys + {key}
    && forall k :: k in before && k != key ==> after[k] == before[k]
  }

  /** The copy of `xsg` with `key` set to `v`: what deepcopy followed by one assignment yields. */
  function WithField(xsg: Xsg, key: string, v: Value): (r: Xsg)
    ensures AddsField(xsg, r, key)
    ensures key in r && r[key] == v
  {
    xsg[key := v]
  }

  /** Adding three fields one after another keeps every field that none of the stages wrote. */
  lemma AddsThreeFields(a: Xsg, b: Xsg, c: Xsg, d: Xsg, k1: string, k2: string, k3: string)
    requires AddsField(a, b, k1) && AddsField(b, c, k2) && AddsField(c, d, k3)
    ensures d.Keys == a.Keys + {k1, k2, k3}
    ensures forall k :: k in a && k != k1 && k != k2 && k != k3 ==> d[k] == a[k]
  {
  }

  predicate HasChannel(xsg: Xsg, channel: string) {
    EPHYS in xsg && xsg[EPHYS].Dict? && channel in xsg[EPHYS].fields
  }

  /** `xsg['ephys'][channel]`. */
  function Channel(xsg: Xsg, channel: string): Value
    requires HasChannel(xsg, channel)
  {
    xsg[EPHYS].fields[channel]
  }

  /**
   The sample rate a stage uses: `xsg['sampleRate'][0]` for a merged
   container, `xsg['sampleRate']` otherwise. It must be positive.
   */
  predicate HasRate(xsg: Xsg) {
    && SAMPLE_RATE in xsg
    && if IsMerged(xsg) then
         xsg[SAMPLE_RATE].Vec? && |xsg[SAMPLE_RATE].vec| > 0 && xsg[SAMPLE_RATE].vec[0] > 0.0
       else
         xsg[SAMPLE_RATE].Num? && xsg[SAMPLE_RATE].num > 0.0
  }

  function Rate(xsg: Xsg): (r: real)
    requires HasRate(xsg)
    ensures r > 0.0
    ensures IsMerged(xsg) ==> r == xsg[SAMPLE_RATE].vec[0]
    ensures !IsMerged(xsg) ==> r == xsg[SAMPLE_RATE].num
  {
    if IsMerged(xsg) then xsg[SAMPLE_RATE].vec[0] else xsg[SAMPLE_RATE].num
  }

  /**
   The per-trial traces of a channel: the whole trace for a single trial,
   or the columns of the (samples, trials) array of a merged container.
   */
  predicate HasTraces(xsg: Xsg, channel: string) {
    && HasChannel(xsg, channel)
    && if IsMerged(xsg) then Channel(xsg, channel).Mat? && Channel(xsg, channel).mat.Rectangular()
       else Channel(xsg, channel).Vec?
  }
}
