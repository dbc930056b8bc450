# Energy-based silence trimming, modelled in Dafny

This project models the live preprocessing chain of `pre_proccess.py`, the
speech-preprocessing step of a speaker-identification pipeline. A decoded,
single-channel signal goes through four stages, composed in
`process_audio_better`:

1. **Pre-emphasis** (`pre_emphasis_filter`): `lfilter([1, -alpha], 1, x)` with
   alpha = 0.97. It is modelled as a general FIR filter with zero initial state
   (`Filters.FirFilter`). A lemma shows that the two-tap instance is the
   recurrence `y[0] = x[0]`, `y[n] = x[n] - alpha * x[n-1]`.
2. **DC removal** (`remove_dc`): every sample minus the mean.
3. **Windowed energy** (`energy_rate`):
   - Frame starts are Python's `range(0, N - L, L - overlap)`, modelled by
     `Energy.PyRange`.
   - One raw energy is appended per start: `sum((x[i+j] * w[j])^2) / L`. This
     loop is the method `Energy.FrameEnergies`.
   - The raw energies are min-max normalised. The curve is all zeros when the
     maximum equals the minimum.
   - Frame start times are `start / sample_rate`.
4. **Silence removal** (`remove_silence`): samples and energy values are paired
   by position, as `zip` does, so the pairs stop at the shorter sequence. A
   sample is kept when its paired energy is strictly above 0.001. This loop is
   the method `Silence.RemoveSilence`.

Samples are Dafny `real`s. The Hamming taper is a parameter: any sequence of
reals of the window length. The pipeline takes `(rate, audio)`, the pair the
wave-file reader would return. Errors the Python code raises become
`Wrappers.Result` values, of type `Pipeline.PipelineError`. An empty signal
(N = 0) already fails in `pre_emphasis_filter`: `lfilter` with a one-element
denominator convolves, and the convolution refuses an empty operand. The model
returns `Failure(EmptySignal)`. When the signal is non-empty but no frame fits
(0 < N <= L), the empty energy array reaches the test
`np.max(energy) != np.min(energy)`. Its left operand, the `np.max` reduction,
raises first. The model returns `Failure(EnergyError(EmptyReduction))`.

The model follows the code, including three points where it behaves in ways a
reader might not expect:

- **Frame count.** The code yields ceil((N - L) / step) frames, not
  floor((N - L) / step) as one might assume. The stop bound of `range` is exclusive and is N - L,
  so the last start is the largest multiple of the step strictly below N - L.
  For example, N = L + 1 already gives one frame, and a start at exactly N - L
  (a window ending on the last sample) is never used.
- **DC removal of an empty signal.** It is not an error: numpy's
  mean of an empty array is NaN with only a warning, and subtracting it from an
  empty array gives an empty array. `Filters.RemoveDc` therefore returns `[]`.
  Inside `process_audio_better` an empty signal never gets this far, because
  pre-emphasis has already raised.
- **Positional pairing.** The energy curve has one value per frame. The
  silence remover pairs it with samples by position and is kept as written. As
  a result, only the first ceil((N - L) / step) conditioned samples can ever
  reach the output (`Pipeline.PreprocessKeepsOnlyPairedPrefix`). A signal of
  one frame normalises to an all-zero curve, so it is trimmed to nothing
  (`Pipeline.SingleFrameKeepsNothing`).

Files: `wrappers.dfy` (result type), `seq_math.dfy` (sum, mean, min, max),
`filters.dfy`, `energy.dfy`, `silence.dfy`, `pipeline.dfy`.

## Model

| member | source | states |
|---|---|---|
| `Filters.FirFilter` | pre_proccess.py:66 | `lfilter(b, 1, x)` with zero initial state gives one output per input sample |
| `Filters.PreEmphasis` | pre_proccess.py:65-66 | pre-emphasis preserves the signal's length |
| `Filters.PreEmphasisRecurrence` | pre_proccess.py:65-66 | the FIR filter with taps [1, -alpha] has y[0] = x[0] and y[n] = x[n] - alpha * x[n-1] for every n >= 1, with the same length as x |
| `Filters.RemoveDc` | pre_proccess.py:70-71 | DC removal preserves length, including the empty signal |
| `Filters.RemoveDcSumsToZero` | pre_proccess.py:70-71 | the DC-removed signal sums to exactly zero, and its mean is zero when it is non-empty |
| `Filters.RemoveDcIdempotent` | pre_proccess.py:70-71 | removing the DC offset twice gives the same signal as removing it once |
| `Filters.RemoveDcIgnoresBias` | pre_proccess.py:70-71 | adding any constant bias to the input does not change the DC-removed output |
| `SeqMath.MinOf` | pre_proccess.py:86 | `np.min` of a non-empty curve is one of its values and no value is smaller |
| `SeqMath.MaxOf` | pre_proccess.py:86 | `np.max` of a non-empty curve is one of its values and no value is larger |
| `Energy.PyRange` | pre_proccess.py:78 | `range(start, stop, step)`: empty iff stop <= start, first element start, each next element one step further, every element in [start, stop) |
| `Energy.PyRangeShape` | pre_proccess.py:78 | `range(start, stop, step)` has ceil((stop - start) / step) elements (none iff stop <= start), element k is start + k*step, and all lie in [start, stop) |
| `Energy.PyRangeComplete` | pre_proccess.py:78 | every start + k*step below stop is element k of the range: no frame start is skipped |
| `Energy.FrameStarts` | pre_proccess.py:76-80 | frame k starts at k*step, and the slice `signal[i:i+win_length]` lies inside the signal with at least one sample to spare |
| `Energy.FrameCount` | pre_proccess.py:76-78 | there are ceil((N - L) / step) frames, none exactly when N <= L, and every multiple of the step below N - L starts a frame |
| `Energy.FrameCountAtBoundaries` | pre_proccess.py:78 | N = L gives 0 frames, N = L + 1 and N = L + step give 1, and N = L + step + 1 gives 2 |
| `Energy.Windowed` | pre_proccess.py:80 | the tapered slice `signal[i:i+win_length] * hamming(win_length)` has exactly the window's length |
| `Energy.FrameEnergy` | pre_proccess.py:80-81 | the raw energy of a tapered frame is never negative |
| `Energy.FrameEnergyOfSilence` | pre_proccess.py:80-81 | a frame of zero samples has zero raw energy, whatever the taper |
| `Energy.RawEnergyCurve` | pre_proccess.py:77-83 | the raw energy array has ceil((N - L) / step) entries, is empty iff N <= L, and every entry is non-negative |
| `Energy.FrameEnergies` | pre_proccess.py:77-83 | the loop appends exactly one raw energy per frame start, in order: ceil((N - L) / step) non-negative values, the k-th being the energy of the frame at the k-th start |
| `Energy.Normalise` | pre_proccess.py:86-87 | min-max normalisation returns one value per raw energy |
| `Energy.NormaliseInUnitInterval` | pre_proccess.py:86-87 | every normalised energy lies in [0, 1] |
| `Energy.NormaliseReachesBounds` | pre_proccess.py:86-87 | when max differs from min, some normalised value is 0 and some is 1 |
| `Energy.NormaliseFlat` | pre_proccess.py:86-87 | the normalised curve is all zeros if and only if all raw energies are equal |
| `Energy.NormaliseMonotone` | pre_proccess.py:86-87 | normalisation preserves the order of raw energies, and preserves strict order |
| `Energy.EnergyCurve` | pre_proccess.py:83-87 | the normalised curve fails with the empty-reduction error iff N <= L, and otherwise has one value per raw energy |
| `Energy.EnergyCurveShape` | pre_proccess.py:78-87 | the curve fails (empty min/max reduction) iff N <= L; otherwise it has ceil((N - L) / step) values, all in [0, 1] |
| `Energy.FrameTimes` | pre_proccess.py:89 | `np.array(frames) / float(sample_rate)` gives one timestamp per frame start |
| `Energy.EnergyRate` | pre_proccess.py:75-89 | fails with the empty-reduction error iff N <= L; otherwise returns the normalised curve of the raw frame energies, and as many timestamps as energies, the k-th being (k*step)/sample_rate |
| `Silence.ZipLength` | pre_proccess.py:56 | `zip` forms as many pairs as the shorter of the two sequences |
| `Silence.KeptIndices` | pre_proccess.py:56-60 | the kept positions are strictly increasing and below the pair count, and a position is kept iff its energy is strictly above the threshold |
| `Silence.Voiced` | pre_proccess.py:55-62 | silence removal never returns more samples than there are samples or energy values |
| `Silence.RemoveSilence` | pre_proccess.py:53-62 | the loop returns, in order, exactly `audio[k]` for the k below min(len(audio), len(energy)) with `energy[k] > threshold`, and no more than that many samples |
| `Silence.VoicedIgnoresUnpairedSamples` | pre_proccess.py:56 | samples past the end of the energy curve, and energies past the end of the signal, never affect the result |
| `Silence.QuietCurveKeepsNothing` | pre_proccess.py:58 | a curve nowhere strictly above the threshold keeps no sample; an energy equal to the threshold is excluded, and an all-zero curve with a non-negative threshold yields an empty result |
| `Silence.LoudCurveKeepsPrefix` | pre_proccess.py:56-60 | a curve strictly above the threshold everywhere keeps exactly the paired prefix of the signal |
| `Pipeline.Conditioned` | pre_proccess.py:44-45 | pre-emphasis followed by DC removal preserves length |
| `Pipeline.Preprocess` | pre_proccess.py:44-48 | the composition of the four stages fails with the empty-signal error exactly when the signal is empty, otherwise only with the empty-reduction error of `energy_rate`, and on success returns no more samples than it was given |
| `Pipeline.ProcessAudioBetter` | pre_proccess.py:42-50 | the four stages in order, with window 1024, overlap 512 and threshold 0.001 by default; fails iff the signal is no longer than one window |
| `Pipeline.FramesFewerThanSamples` | pre_proccess.py:78 | there are at most N - L frames |
| `Pipeline.PreprocessFailsOnlyWhenShort` | pre_proccess.py:42-50 | the pipeline raises exactly when the signal is no longer than one window, and it is `energy_rate`'s empty reduction that raises exactly when 0 < N <= L |
| `Pipeline.PreprocessKeepsOnlyPairedPrefix` | pre_proccess.py:46-48 | for N > L the pipeline succeeds, and its output equals silence removal applied to the first ceil((N - L) / step) conditioned samples alone; that is at most that many samples, fewer than the input, each drawn from that prefix |
| `Pipeline.FlatEnergyKeepsNothing` | pre_proccess.py:46-48 | if every frame has the same raw energy, the whole recording is trimmed away |
| `Pipeline.SingleFrameKeepsNothing` | pre_proccess.py:76-87 | a signal of L + 1 to L + step samples has one frame, so it is trimmed to nothing |
| `Pipeline.SilentRecordingKeepsNothing` | pre_proccess.py:42-50 | an all-zero recording longer than one window is trimmed to an empty signal |

## Left out

- `process_audio_folder` (directory walk, per-file exception logging) is not part of this model: it is file-system and error-reporting glue.
- `wavfile.read` and the two `print` calls in `process_audio_better` are left out. The model takes the decoded `(rate, audio)` as inputs.
- `Energy.EnergyRate` and `Pipeline.ProcessAudioBetter` require `rate > 0`. This is a restriction of the model, not a check the source makes. With a rate of 0, numpy's division at line 89 only warns and yields inf/nan timestamps, which reals cannot represent; `process_audio_better` discards those timestamps anyway.
- The module-level run over a hard-coded folder (lines 92-94) is left out. So is the triple-quoted block from line 97, which is a string literal and not live code.
- The Hamming coefficients (a cosine formula) are a parameter, and IEEE floating-point rounding is not modelled. All arithmetic is exact over the reals.
- `lfilter` is modelled only with feedback coefficients `[1]`, which is the only form the source uses.
- `Filters.PreEmphasis` returns `[]` for an empty signal, where `lfilter` raises. The pipeline checks for the empty signal before filtering and reports it as `EmptySignal`, so the filter's own error is modelled only there.
- Multi-channel audio, and the integer sample type of the decoded file, are not modelled. Samples are single-channel reals.
- Window parameters are required to satisfy win_length > 0 and overlap < win_length, so the step is positive. A zero step makes `range` raise, and a negative step gives frame starts that are not windows of the signal; neither case is modelled.
- `Silence.RemoveSilence` accepts the window length and overlap and ignores them, as the source does.
