/** `process_audio_better`: pre-emphasis, DC removal, energy estimation and
    silence removal, in that order, on a signal already decoded from a file. */
module Pipeline {
  import opened Wrappers
  import opened SeqMath
  import opened Filters
  import opened Energy
  import opened Silence

  /** Default window length and overlap, in samples. */
  const WinLength: nat := 1024
  const Overlap: int := 512

  /** Why `process_audio_better` raises: `lfilter` refuses an empty signal
      (its convolution needs a non-empty operand), and an empty energy curve
      makes `energy_rate` raise. */
  datatype PipelineError = EmptySignal | EnergyError(cause: Error)

  /** The signal after pre-emphasis and DC removal: what energy is measured on
      and what the trimmed output is drawn from. */
  function Conditioned(audio: seq<real>): (c: seq<real>)
    ensures |c| == |audio|
  {
    RemoveDc(PreEmphasis(audio, Alpha))
  }

  /** What the pipeline returns for a decoded signal: the conditioned signal
      with its silent samples removed, or the error that stopped it. */
  function Preprocess(audio: seq<real>, taper: seq<real>, winLength: nat, overlap: int)
    : (r: Result<seq<real>, PipelineError>)
    requires 0 < winLength && overlap < winLength && |taper| == winLength
    ensures (r.Failure? && r.error == EmptySignal) <==> |audio| == 0
    ensures r.Failure? ==> r.error == EmptySignal || r.error == EnergyError(EmptyReduction)
    ensures r.Success? ==> |r.value| <= |audio|
  {
    if |audio| == 0 then Failure(EmptySignal)
    else
      var centred := Conditioned(audio);
      match EnergyCurve(centred, winLength, winLength - overlap, taper)
      case Failure(e) => Failure(EnergyError(e))
      case Success(curve) => Success(Voiced(centred, curve, EnergyThreshold))
  }

  /** `process_audio_better` after the file has been read: `rate` and `audio`
      are what the wave-file reader returned, `taper` the Hamming window of
      length `winLength`. */
  method ProcessAudioBetter(rate: nat, audio: seq<real>, taper: seq<real>,
                            winLength: nat := WinLength, overlap: int := Overlap)
    returns (r: Result<seq<real>, PipelineError>)
    requires rate > 0 && 0 < winLength && overlap < winLength && |taper| == winLength
    ensures r.Failure? <==> |audio| <= winLength
    ensures r == Preprocess(audio, taper, winLength, overlap)
  {
    if |audio| == 0 {
      return Failure(EmptySignal);
    }
    var emphasised := PreEmphasis(audio, Alpha);
    var centred := RemoveDc(emphasised);
    var energyAndTimes := EnergyRate(centred, winLength, overlap, rate, taper);
    if energyAndTimes.Failure? {
      return Failure(EnergyError(energyAndTimes.error));
    }
    var energy := energyAndTimes.value.0;
    var trimmed := RemoveSilence(centred, energy, winLength, overlap);
    return Success(trimmed);
  }

  /** There are fewer frames than samples beyond one window. */
  lemma FramesFewerThanSamples(n: nat, winLength: nat, step: nat)
    requires step > 0
    ensures |FrameStarts(n, winLength, step)| <= if n > winLength then n - winLength else 0
  {
    var starts := FrameStarts(n, winLength, step);
    FrameCount(n, winLength, step);
    var c := |starts|;
    if c > 0 {
      assert starts[c - 1] == (c - 1) * step;
      MulAtLeast(step, c - 1);
    }
  }

  /** The pipeline fails exactly when the signal is no longer than one window:
      an empty signal in the filter, any other such signal in `energy_rate`. */
  lemma PreprocessFailsOnlyWhenShort(audio: seq<real>, taper: seq<real>, winLength: nat, overlap: int)
    requires 0 < winLength && overlap < winLength && |taper| == winLength
    ensures Preprocess(audio, taper, winLength, overlap).Failure? <==> |audio| <= winLength
    ensures Preprocess(audio, taper, winLength, overlap) == Failure(EnergyError(EmptyReduction))
            <==> 0 < |audio| <= winLength
  {
    EnergyCurveShape(Conditioned(audio), winLength, winLength - overlap, taper);
  }

  /** Positional pairing: the output is silence removal applied to the first
      ceil((N - L) / step) conditioned samples alone, so it is strictly
      shorter than the input however loud the signal is. */
  lemma PreprocessKeepsOnlyPairedPrefix(audio: seq<real>, taper: seq<real>, winLength: nat, overlap: int)
    requires 0 < winLength && overlap < winLength && |taper| == winLength
    requires |audio| > winLength
    ensures Preprocess(audio, taper, winLength, overlap).Success?
    ensures var out := Preprocess(audio, taper, winLength, overlap).value;
            var paired := CeilDiv(|audio| - winLength, winLength - overlap);
            var curve := EnergyCurve(Conditioned(audio), winLength, winLength - overlap, taper).value;
            |out| <= paired < |audio| &&
            out == Voiced(Conditioned(audio)[..paired], curve, EnergyThreshold) &&
            forall j :: 0 <= j < |out| ==> out[j] in Conditioned(audio)[..paired]
  {
    var step := winLength - overlap;
    var centred := Conditioned(audio);
    var paired := CeilDiv(|audio| - winLength, step);
    FramesFewerThanSamples(|audio|, winLength, step);
    FrameCount(|audio|, winLength, step);
    assert paired < |audio|;
    var curve := EnergyCurve(centred, winLength, step, taper).value;
    assert |curve| == paired;
    assert ZipLength(centred, curve) == paired;
    var ks := KeptIndices(curve, EnergyThreshold, paired);
    var out := Select(centred, ks);
    assert Preprocess(audio, taper, winLength, overlap).value == out;
    VoicedIgnoresUnpairedSamples(centred, curve, EnergyThreshold);
    forall j | 0 <= j < |out|
      ensures out[j] in centred[..paired]
    {
      assert centred[..paired][ks[j]] == out[j];
    }
  }

  /** When every frame has the same raw energy (one frame only, or a constant
      signal), the curve normalises to zeros and nothing is kept. */
  lemma FlatEnergyKeepsNothing(audio: seq<real>, taper: seq<real>, winLength: nat, overlap: int)
    requires 0 < winLength && overlap < winLength && |taper| == winLength
    requires |audio| > winLength
    requires var raw := RawEnergyCurve(Conditioned(audio), winLength, winLength - overlap, taper);
             forall i, j :: 0 <= i < |raw| && 0 <= j < |raw| ==> raw[i] == raw[j]
    ensures Preprocess(audio, taper, winLength, overlap) == Success([])
  {
    var step := winLength - overlap;
    var centred := Conditioned(audio);
    var raw := RawEnergyCurve(centred, winLength, step, taper);
    FrameCount(|audio|, winLength, step);
    NormaliseFlat(raw);
    QuietCurveKeepsNothing(centred, Normalise(raw), EnergyThreshold);
  }

  /** A signal of more than one window but at most one window plus one step
      has a single frame, so the whole recording is trimmed away. */
  lemma SingleFrameKeepsNothing(audio: seq<real>, taper: seq<real>, winLength: nat, overlap: int)
    requires 0 < winLength && overlap < winLength && |taper| == winLength
    requires winLength < |audio| <= winLength + (winLength - overlap)
    ensures Preprocess(audio, taper, winLength, overlap) == Success([])
  {
    var step := winLength - overlap;
    PyRangeShape(0, |audio| - winLength, step);
    assert PyRange(step, |audio| - winLength, step) == [];
    FlatEnergyKeepsNothing(audio, taper, winLength, overlap);
  }

  /** An all-zero recording longer than one window is trimmed to nothing. */
  lemma SilentRecordingKeepsNothing(audio: seq<real>, taper: seq<real>, winLength: nat, overlap: int)
    requires 0 < winLength && overlap < winLength && |taper| == winLength
    requires |audio| > winLength
    requires forall k :: 0 <= k < |audio| ==> audio[k] == 0.0
    ensures Preprocess(audio, taper, winLength, overlap) == Success([])
  {
    var step := winLength - overlap;
    var emphasised := PreEmphasis(audio, Alpha);
    PreEmphasisRecurrence(audio, Alpha);
    forall k | 0 <= k < |emphasised| ensures emphasised[k] == 0.0 {
      if k > 0 {
        assert emphasised[k] == audio[k] - Alpha * audio[k - 1] == 0.0 - Alpha * 0.0;
      }
    }
    SumOfZeros(emphasised);
    var centred := RemoveDc(emphasised);
    assert centred == Offset(emphasised, 0.0);
    assert forall k :: 0 <= k < |centred| ==> centred[k] == 0.0;
    var raw := RawEnergyCurve(centred, winLength, step, taper);
    var starts := FrameStarts(|centred|, winLength, step);
    forall k | 0 <= k < |raw| ensures raw[k] == 0.0 {
      FrameEnergyOfSilence(centred, starts[k], taper);
    }
    FlatEnergyKeepsNothing(audio, taper, winLength, overlap);
  }
}
