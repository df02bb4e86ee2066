# Spike pipeline of the extracellular routines, in Dafny

This project models the spike pipeline of `ephys/extraCellularRoutines.py`. It covers the four stages that take a
recording container (an "XSG" dictionary) and return a copy with one derived field added:

- `detectSpikes` finds threshold crossings and stores their times in milliseconds.
- `extractSpikes` cuts a fixed-width window of the trace around each spike time, without energy normalisation.
- `makeSTH` bins the spike times into a histogram of counts, bin centres, bin edges and rates.
- `makeSpikeDensity` smooths the histogram's rates with a Gaussian kernel.

How the model is organised:

- The container is an immutable map from field names to values (`Recording.Xsg`).
- Python's `copy.deepcopy` followed by one assignment becomes a new map value.
- Every stage is proved to keep every input field unchanged and add exactly its own field (`Recording.AddsField`).
- A single-trial container holds 1-D arrays.
- A merged container (marked by the key `merged`) holds a (samples, trials) array per channel, and lists or column-stacked arrays of per-trial results.
- Python failures become an explicit `Err` result:
  - `MissingField(key)`: a KeyError on `spikeTimes` or `spikeHist`;
  - `ShapeMismatch`: numpy refusing to store a window in its column;
  - `SigmaBelowBinSize`: the assertion of `makeSpikeDensity`.

Modules, one file each:

| file | module | models |
|---|---|---|
| `recording.dfy` | `Recording` | the container, its values, failures, the "adds one field" relation |
| `detection.dfy` | `SpikeDetection` | `detectSpikes` and `detect` |
| `extraction.dfy` | `SpikeExtraction` | `extractSpikes` and `extract` (an imperative method over a 2-D array) |
| `histogram.dfy` | `SpikeHistogram` | `makeSTH`, `makeHist`, `np.arange` and `np.histogram` |
| `density.dfy` | `SpikeDensity` | `makeSpikeDensity` |
| `pipeline.dfy` | `Pipeline` | the stages chained |

Points where the model follows the code, not the prose around it:

- The bin edges come from `np.arange(0, duration, bin_size)`, which stops strictly below the duration. So 9 samples at 1 kHz with 1 ms bins give 9 edges and 8 bins, not 9 bins. A spike in the last stretch is counted nowhere (`SpikeHistogram.LastStretchUncounted`).
- `extract` converts times to samples as `int(spike*10)`, whatever the sample rate. The window is therefore centred on the crossing only at 10 kHz (`SpikeExtraction.SampleOfDetectedTimeAt10kHz` and `SampleOfDetectedTimeAt20kHz`).
- The window slice follows Python and numpy exactly:
  - negative slice bounds count from the end, then bounds are clamped;
  - a slice of length 1 is broadcast down the whole column;
  - any other length mismatch raises. An odd `width` therefore always raises for an in-bounds spike.
- In batch mode, `zip` stops at its shortest argument. A per-trial threshold list shorter than the trials silently drops the later trials (`SpikeDetection.TrialCount`). The same holds for trials against spike-time lists in `extractSpikes`.
- The `assert` statements at lines 54 and 194 of the source assert a two-element tuple, which is always true. The failures they were meant to report still happen later:
  - an unknown edge name leaves `i` unbound at line 74;
  - missing spike times raise a KeyError at line 213 or 221.

  The model keeps those outcomes: `Edge` has only the two accepted names, and `MakeSTH` returns `MissingField`.
- The default arguments of the source are the defaults of the Dafny functions: `edge='falling'` and `channel='chan0'` (line 24), `width=100` (line 89), `bin_size=1` (line 175) and `sigma=100` (line 230).
- The comment at line 272 says `convolve1d` trims the edges. The routine is a parameter here (see below), so its boundary mode does not enter the model.

## Model

| member | source | states |
|---|---|---|
| `SpikeDetection.AsWave` | ephys/extraCellularRoutines.py:65-68 | a level threshold becomes a wave of the trace's length, equal to the level everywhere; an explicit wave is used unchanged |
| `SpikeDetection.CrossingsBelow` | ephys/extraCellularRoutines.py:70-73 | the crossing indices of a prefix are exactly the sample pairs that cross in the chosen direction (sound and complete), strictly ascending, each with a following sample inside the prefix |
| `SpikeDetection.CrossingTimes` | ephys/extraCellularRoutines.py:70-74 | converting the crossing indices to `i*1000/rate` keeps them strictly ascending; every time is the time of a crossing, every crossing's time appears, and the result is empty exactly when nothing crosses |
| `SpikeDetection.Detect` | ephys/extraCellularRoutines.py:58-74 | `detect` for one trial: its times satisfy `SpikeTimesOf` (ascending, sound, complete, empty iff no crossing) against the broadcast threshold |
| `SpikeDetection.TimeOfMonotone` | ephys/extraCellularRoutines.py:74 | a later sample index gives a strictly later time for any positive rate |
| `SpikeDetection.TimeOfOrder` | ephys/extraCellularRoutines.py:74 | over all sample indices, the conversion to milliseconds preserves and reflects order |
| `SpikeDetection.TimesOf` | ephys/extraCellularRoutines.py:74 | one time per crossing index, index `i` at `i*1000/rate`, with the order of the indices preserved and reflected |
| `SpikeDetection.FallingIsRisingOfNegatedBelow` | ephys/extraCellularRoutines.py:70-73 | prefix by prefix, the falling crossings of a trace are the rising crossings of the negated trace and negated threshold |
| `SpikeDetection.FallingIsRisingOfNegated` | ephys/extraCellularRoutines.py:67-74 | falling-edge detection equals rising-edge detection on the negated trace with the negated threshold |
| `SpikeDetection.TrialCount` | ephys/extraCellularRoutines.py:78-83 | the number of trials the `zip` fan-out processes: every trial with a shared threshold; with a threshold list, the shorter of the two lengths |
| `SpikeDetection.RestShifts` | ephys/extraCellularRoutines.py:78-83 | after the first trial, trial `j` of the remaining fan-out uses the threshold of trial `j+1`, and the remaining thresholds still fit their trials |
| `SpikeDetection.DetectBatch` | ephys/extraCellularRoutines.py:76-83 | the fan-out yields one result per zipped trial (`TrialCount` of them) |
| `SpikeDetection.DetectBatchTrial` | ephys/extraCellularRoutines.py:76-83 | result `j` of the fan-out is trial `j` detected with its own threshold (the repeated shared one, or entry `j` of the list) at `sampleRate[0]`, and that threshold fits the trial |
| `SpikeDetection.DetectBatchTrials` | ephys/extraCellularRoutines.py:76-83 | every result of the fan-out is its trial detected with its own threshold, in trial order |
| `SpikeDetection.DetectSpikes` | ephys/extraCellularRoutines.py:24-87 | the copy holds every input field unchanged plus `spikeTimes`; a single trial gets `detect` of its trace; a merged container gets the per-trial list of `DetectBatch` |
| `SpikeDetection.ExampleScanToFive` | ephys/extraCellularRoutines.py:70-71 | on the trace `[0,0,2,2,0,0,2,2,0]` with threshold 1, the rising crossings among the first five samples are `[1]` |
| `SpikeDetection.ExampleScanToSeven` | ephys/extraCellularRoutines.py:70-71 | on the same trace, the rising crossings among the first seven samples are `[1, 5]` |
| `SpikeDetection.ExampleScan` | ephys/extraCellularRoutines.py:70-71 | on the whole trace, the rising crossings are `[1, 5]` |
| `SpikeDetection.RisingExample` | ephys/extraCellularRoutines.py:58-74 | the same trace at 1 kHz gives rising spike times `[1.0, 5.0]` ms |
| `SpikeExtraction.Trunc` | ephys/extraCellularRoutines.py:119 | `int(x)` truncates toward zero: the floor for non-negative `x`, the ceiling for negative `x` |
| `SpikeExtraction.SampleOf` | ephys/extraCellularRoutines.py:119 | the sample of a time is `10*t` truncated toward zero: within one sample below it for non-negative times, within one above it for negative times |
| `SpikeExtraction.SliceBound` | ephys/extraCellularRoutines.py:121-123 | a slice bound is kept when in range, clamped to `len` above it, counted from the end when negative, and clamped to 0 when still negative |
| `SpikeExtraction.Slice` | ephys/extraCellularRoutines.py:121-123 | a Python slice never fails, is never longer than the data, holds only samples of the data, and equals the ordinary subsequence when its bounds are in range |
| `SpikeExtraction.StoreColumn` | ephys/extraCellularRoutines.py:117-123 | a column assignment succeeds exactly when the values match the column height or are a single value; matching values are stored as they are, a single value is repeated down the whole column |
| `SpikeExtraction.Window` | ephys/extraCellularRoutines.py:119-123 | the column stored for one spike has exactly `width` cells, every one a sample of the trace |
| `SpikeExtraction.WindowInBounds` | ephys/extraCellularRoutines.py:112-123 | for an even width and an in-bounds spike, the column is the `width` samples centred on `int(10*t)` |
| `SpikeExtraction.WindowOddWidthFails` | ephys/extraCellularRoutines.py:112-123 | for an odd width, an in-bounds window is one sample short and the assignment raises |
| `SpikeExtraction.WindowPastEndRepeatsLastSample` | ephys/extraCellularRoutines.py:119-123 | a 4-wide window at sample 11 of a 10-sample trace is the last sample repeated four times |
| `SpikeExtraction.WindowNearStartWraps` | ephys/extraCellularRoutines.py:119-123 | a 4-wide window at sample 1 of a 3-sample trace slices `data[-1:3]`, the last sample, which fills the column |
| `SpikeExtraction.SampleOfDetectedTimeAt10kHz` | ephys/extraCellularRoutines.py:119 | at 10 kHz the sample recovered from a detected time is the crossing index |
| `SpikeExtraction.SampleOfDetectedTimeAt20kHz` | ephys/extraCellularRoutines.py:119 | at 20 kHz the sample recovered from a detected time is half the crossing index |
| `SpikeExtraction.Extracted` | ephys/extraCellularRoutines.py:115-124 | an array exists exactly when every spike's window can be stored; it has `width` rows and one column per spike, and column `c` is spike `c`'s window |
| `SpikeExtraction.ExtractedNoSpikes` | ephys/extraCellularRoutines.py:117 | no spike times give an empty `(width, 0)` array, never an error |
| `SpikeExtraction.ExtractedInBounds` | ephys/extraCellularRoutines.py:112-123 | for an even width with every spike in bounds, extraction succeeds and column `c` is `data[s-w/2 .. s+w/2)` for `s = int(10*times[c])` |
| `SpikeExtraction.StoreInColumn` | ephys/extraCellularRoutines.py:123 | `waves[:, col] = values` overwrites exactly column `col` and leaves every other cell unchanged |
| `SpikeExtraction.Extract` | ephys/extraCellularRoutines.py:115-124 | a newly allocated `(width, spikes)` array is filled column by column; it succeeds exactly when `Extracted` does, and then every cell equals `Extracted`'s |
| `SpikeExtraction.ExtractBatch` | ephys/extraCellularRoutines.py:126-127 | as many results as the shorter of trials and spike-time lists; it succeeds exactly when every zipped trial's extraction does, and result `j` is trial `j`'s array |
| `SpikeExtraction.ExtractSpikes` | ephys/extraCellularRoutines.py:89-131 | KeyError without `spikeTimes`; otherwise it succeeds exactly when every window fits, and the copy adds `extractedSpikes` (one array, or one per zipped trial) with every other field unchanged |
| `SpikeHistogram.Ceil` | ephys/extraCellularRoutines.py:203 | the least integer not below `x` (the element count of `np.arange`) |
| `SpikeHistogram.Arange` | ephys/extraCellularRoutines.py:203 | element `k` of `np.arange(start, stop, step)` is `start + k*step` |
| `SpikeHistogram.ArangeExact` | ephys/extraCellularRoutines.py:203 | `np.arange` has an element at index `k` exactly when `start + k*step < stop` |
| `SpikeHistogram.ArangeSorted` | ephys/extraCellularRoutines.py:203 | the values of `np.arange` with a positive step are sorted |
| `SpikeHistogram.Counts` | ephys/extraCellularRoutines.py:208 | one count per bin, one bin fewer than edges; count `k` is the number of times in bin `k` (half-open, the last bin closed) |
| `SpikeHistogram.Centers` | ephys/extraCellularRoutines.py:209 | one centre per bin, lying between the bin's edges |
| `SpikeHistogram.Rates` | ephys/extraCellularRoutines.py:218-225 | one rate per count |
| `SpikeHistogram.RatesGiveCounts` | ephys/extraCellularRoutines.py:218-225 | `rates[k] * bin_size / 1000 == counts[k]`: rates are counts per second |
| `SpikeHistogram.HitsBelow` | ephys/extraCellularRoutines.py:208 | over the first `n` half-open bins, a time is counted once if it lies in `[edges[0], edges[n])` and otherwise never |
| `SpikeHistogram.HitsTotal` | ephys/extraCellularRoutines.py:208 | with sorted edges, a time is counted in exactly one bin if it lies in `[first edge, last edge]`, otherwise in none |
| `SpikeHistogram.CountsAppend` | ephys/extraCellularRoutines.py:208 | appending one spike time adds its hits to each bin's count |
| `SpikeHistogram.CountsTotal` | ephys/extraCellularRoutines.py:208 | with sorted edges, the counts add up to the number of spike times within `[first edge, last edge]` |
| `SpikeHistogram.CountsAtMostSpikes` | ephys/extraCellularRoutines.py:208 | the counts add up to at most the number of spike times, with equality exactly when every time lies within the edges |
| `SpikeHistogram.BinEdges` | ephys/extraCellularRoutines.py:199-203 | the shared edges are sorted, and non-empty for a non-empty recording |
| `SpikeHistogram.BinEdgesExact` | ephys/extraCellularRoutines.py:203 | the edges are exactly `k*bin_size` for every `k` with `k*bin_size` below the duration `samples/rate*1000` |
| `SpikeHistogram.BinCentersAreMidpoints` | ephys/extraCellularRoutines.py:203-209 | on these edges the centre of bin `k` is `(k + 0.5)*bin_size` |
| `SpikeHistogram.LastStretchUncounted` | ephys/extraCellularRoutines.py:203-208 | 9 samples at 1 kHz with 1 ms bins give 9 edges (8 bins), and a spike at 8.5 ms is counted in no bin |
| `SpikeHistogram.MakeHist` | ephys/extraCellularRoutines.py:206-210 | `makeHist` returns the edges unchanged, one count and one centre per bin; count `k` is the number of times in bin `k`, centre `k` the midpoint of the bin, and on sorted edges the counts add up to the number of times between the first and the last edge |
| `SpikeHistogram.SingleRecord` | ephys/extraCellularRoutines.py:220-227 | the single-trial record holds exactly the five keys: `makeHist`'s centres, counts and edges as 1-D arrays, the rates of those counts, and the bin size |
| `SpikeHistogram.MergedRecord` | ephys/extraCellularRoutines.py:212-218 | the merged record holds exactly the five keys: rectangular (bin, trial) arrays of height `bins` for centres and rates, a counts array of the same height, an (edge, trial) array of height `edges`, one column per trial taken from that trial's `makeHist`, and the bin size |
| `SpikeHistogram.STHEdges` | ephys/extraCellularRoutines.py:198-203 | the edges used for every trial are sorted and non-empty; the duration always comes from `chan0` |
| `SpikeHistogram.MakeSTH` | ephys/extraCellularRoutines.py:175-228 | KeyError exactly when `spikeTimes` is absent; otherwise the copy adds only `spikeHist`, holding exactly the five keys. Single trial: the edges, counts, centres and rates of the spike times. Merged: (bin, trial) arrays of height `bins` for centres, counts and rates and an (edge, trial) array of height `edges`, one column per trial, each with the shared edges and that trial's counts, centres and rates. `binSize` is stored as given, 1 ms by default |
| `SpikeDensity.KernelSupportExact` | ephys/extraCellularRoutines.py:263 | the kernel is sampled at exactly `-3σ + k*bin_size` for every `k` with that point below `3σ` |
| `SpikeDensity.KernelSupportAtLeastSix` | ephys/extraCellularRoutines.py:259-263 | when `σ >= bin_size`, the kernel has at least six points |
| `SpikeDensity.KernelSupport` | ephys/extraCellularRoutines.py:263 | the kernel's support points are `-3σ + k*bin_size`, all within `[-3σ, 3σ)` |
| `SpikeDensity.Kernel` | ephys/extraCellularRoutines.py:263-265 | one kernel value per support point, equal to the density at that point times the bin size |
| `SpikeDensity.SmoothAlongBins` | ephys/extraCellularRoutines.py:273 | smoothing along axis 0: a 1-D series is smoothed as a whole, a (bin, trial) array column by column, keeping its height and its number of columns |
| `SpikeDensity.SmoothingKeepsShape` | ephys/extraCellularRoutines.py:273 | with a length-keeping smoother, smoothing along the bin axis keeps a series a series of the same length and a (bin, trial) array an array of the same shape |
| `SpikeDensity.MakeSpikeDensity` | ephys/extraCellularRoutines.py:230-275 | KeyError without `spikeHist`; assertion failure exactly when `σ < bin_size`; otherwise the copy adds only `spikeDensity`, with exactly four keys: the histogram's bin centres, the kernel (at least six points), `σ` as given, and the rates smoothed along the bin axis |
| `Recording.WithField` | ephys/extraCellularRoutines.py:55 | the deep copy with one field assigned keeps every other field and holds the new value |
| `Recording.Rate` | ephys/extraCellularRoutines.py:199-201 | the sample rate used is positive: `sampleRate[0]` for a merged container, `sampleRate` otherwise |
| `Pipeline.HistogramAfterDetection` | ephys/extraCellularRoutines.py:194-203 | after `detectSpikes`, `makeSTH` finds its spike times and succeeds |
| `Pipeline.DensityAfterHistogram` | ephys/extraCellularRoutines.py:259 | after `makeSTH`, `makeSpikeDensity` succeeds exactly when `σ >= bin_size` |
| `Pipeline.DensityRatesKeepShape` | ephys/extraCellularRoutines.py:273 | with a length-keeping smoother, the density's rates have the shape of the histogram's rates: one per bin, per trial |
| `Pipeline.PipelineOnlyAddsFields` | ephys/extraCellularRoutines.py:261-275 | detection, histogram and density in a row succeed for `0 < bin_size <= σ` and keep every input field unchanged, adding exactly `spikeTimes`, `spikeHist` and `spikeDensity` |
| `Pipeline.DefaultsSucceed` | ephys/extraCellularRoutines.py:24-275 | with every argument at its default (falling edge on `chan0`, 1 ms bins, σ = 100 ms) detection, histogram and density succeed one after another |

## Left out

- `plotRaster` and all plotting: output to a figure, nothing to compute.
- Energy normalisation in `extract` (line 121): it needs a floating-point square root and division by a possibly zero energy. Only the unnormalised branch is modelled.
- The `filter_trace` argument: its branch does nothing. A list-valued `filter_trace` would also shorten the `zip` in batch mode; the model treats it as a scalar.
- The Gaussian density `norm.pdf` and `scipy.ndimage.convolve1d` are foreign code. They are parameters of `SpikeDensity.MakeSpikeDensity`: the kernel is stated point by point in terms of the given density, and the smoothed rates in terms of the given routine. Neither the values nor the boundary mode is modelled.
- Floating point: arithmetic is on exact reals. Rounding in `np.arange`'s element count, in `i*1000.0/sample_rate`, in `int(spike*10)` and in the bin comparisons of `np.histogram` is not modelled.
- Integer widths: sample counts and indices are unbounded naturals.
- `SpikeDetection.DetectSpikes`: a positive sample rate, a rectangular channel array and threshold waves of the trace's length are preconditions. What Python does with a non-positive rate or a wave of another length is not modelled.
- `SpikeDetection.DetectSpikes`: a threshold list on a single-trial container is excluded by its precondition. In Python, numpy would broadcast the list against the trace, so a list of the trace's length would act as a wave.
- Edge names other than `rising` and `falling` are not representable. In Python they end in an unbound-variable error.
- `SpikeHistogram.MakeSTH`: `chan0`, `ephys` and `sampleRate` are preconditions, as is a positive `bin_size`. These are fields the loader always supplies, so the KeyErrors on them are not modelled. Only the derived fields produced by earlier stages (`spikeTimes`, `spikeHist`) have modelled error paths.
- `SpikeHistogram.MakeSTH`: an empty recording (no samples, hence no edges) is excluded by its precondition. What `np.histogram` does with an empty edge list is not modelled.
- The transpose of an empty list (`np.array([]).T`) for a merged container with zero trials is represented as a zero-column array rather than numpy's 1-D empty array.
- `SpikeExtraction.ExtractSpikes` and `SpikeHistogram.MakeSTH` expect spike times of the shape `detectSpikes` produces (one array, or a list of arrays when merged). Other shapes are excluded by their preconditions.
- Python 2 `map` building a list is modelled as a sequence. Python 3's lazy iterator is not modelled.
- Python run with `-O` strips `assert` statements, which would let `sigma < bin_size` through. Not modelled.
