/** `remove_silence`: pairs samples with energy values by position, as `zip`
    does, and keeps each sample whose paired energy is above the threshold. */
module Silence {

  /** `ENERGY_THRESHOLD`, the default cut-off on normalised energy. */
  const EnergyThreshold: real := 0.001

  /** Number of (sample, energy) pairs `zip` forms: the shorter length. */
  function ZipLength(audio: seq<real>, energy: seq<real>): (m: nat)
    ensures m <= |audio| && m <= |energy|
    ensures m == |audio| || m == |energy|
  {
    if |audio| <= |energy| then |audio| else |energy|
  }

  /** Positions below `m` whose energy is strictly above the threshold, in
      increasing order. */
  function KeptIndices(energy: seq<real>, threshold: real, m: nat): (ks: seq<nat>)
    requires m <= |energy|
    ensures |ks| <= m
    ensures forall j :: 0 <= j < |ks| ==> ks[j] < m && energy[ks[j]] > threshold
    ensures forall k :: 0 <= k < m && energy[k] > threshold ==> k in ks
    ensures forall i, j :: 0 <= i < j < |ks| ==> ks[i] < ks[j]
  {
    if m == 0 then []
    else KeptIndices(energy, threshold, m - 1) + (if energy[m - 1] > threshold then [m - 1] else [])
  }

  /** The samples at the given positions, in that order. */
  function Select(audio: seq<real>, ks: seq<nat>): (r: seq<real>)
    requires forall j :: 0 <= j < |ks| ==> ks[j] < |audio|
    ensures |r| == |ks|
  {
    seq(|ks|, j requires 0 <= j < |ks| => audio[ks[j]])
  }

  /** The samples that survive silence removal: those paired, by position,
      with an energy strictly above the threshold. Never more than the number
      of pairs. */
  function Voiced(audio: seq<real>, energy: seq<real>, threshold: real): (r: seq<real>)
    ensures |r| <= |audio| && |r| <= |energy|
  {
    Select(audio, KeptIndices(energy, threshold, ZipLength(audio, energy)))
  }

  /** The loop of `remove_silence` over `zip(audio_data, energy)`. The window
      length and overlap are accepted and not used, as `remove_silence` does. */
  method RemoveSilence(audioData: seq<real>, energy: seq<real>, winLength: nat, overlap: int,
                       threshold: real := EnergyThreshold)
    returns (nonSilent: seq<real>)
    ensures |nonSilent| <= ZipLength(audioData, energy)
    ensures nonSilent == Voiced(audioData, energy, threshold)
  {
    var pairs := ZipLength(audioData, energy);
    nonSilent := [];
    for k := 0 to pairs
      invariant nonSilent == Select(audioData, KeptIndices(energy, threshold, k))
    {
      var sample, energyValue := audioData[k], energy[k];
      ghost var before := KeptIndices(energy, threshold, k);
      if energyValue > threshold {
        SelectAppend(audioData, before, k);
        nonSilent := nonSilent + [sample];
      }
    }
  }

  lemma SelectAppend(audio: seq<real>, ks: seq<nat>, k: nat)
    requires forall j :: 0 <= j < |ks| ==> ks[j] < |audio|
    requires k < |audio|
    ensures Select(audio, ks + [k]) == Select(audio, ks) + [audio[k]]
  {
  }

  /** Samples beyond the end of the energy curve never reach the output:
      only the paired prefix of the signal is looked at. */
  lemma VoicedIgnoresUnpairedSamples(audio: seq<real>, energy: seq<real>, threshold: real)
    ensures Voiced(audio, energy, threshold)
         == Voiced(audio[..ZipLength(audio, energy)], energy, threshold)
    ensures Voiced(audio, energy, threshold)
         == Voiced(audio, energy[..ZipLength(audio, energy)], threshold)
  {
    var m := ZipLength(audio, energy);
    assert ZipLength(audio[..m], energy) == m;
    assert ZipLength(audio, energy[..m]) == m;
    KeptIndicesPrefix(energy, energy[..m], threshold, m);
  }

  /** Which positions are kept below `m` depends only on the first `m` energies. */
  lemma {:induction false} KeptIndicesPrefix(e1: seq<real>, e2: seq<real>, threshold: real, m: nat)
    requires m <= |e1| && m <= |e2| && e1[..m] == e2[..m]
    ensures KeptIndices(e1, threshold, m) == KeptIndices(e2, threshold, m)
  {
    if m > 0 {
      assert e1[m - 1] == e1[..m][m - 1] == e2[..m][m - 1] == e2[m - 1];
      assert e1[..m - 1] == e1[..m][..m - 1] == e2[..m][..m - 1] == e2[..m - 1];
      KeptIndicesPrefix(e1, e2, threshold, m - 1);
    }
  }

  /** A curve that nowhere exceeds the threshold keeps nothing: in particular
      an all-zero curve with a non-negative threshold, and a value equal to
      the threshold is not kept. */
  lemma QuietCurveKeepsNothing(audio: seq<real>, energy: seq<real>, threshold: real)
    requires forall k :: 0 <= k < |energy| ==> energy[k] <= threshold
    ensures Voiced(audio, energy, threshold) == []
  {
    NoneKept(energy, threshold, ZipLength(audio, energy));
  }

  lemma {:induction false} NoneKept(energy: seq<real>, threshold: real, m: nat)
    requires m <= |energy|
    requires forall k :: 0 <= k < |energy| ==> energy[k] <= threshold
    ensures KeptIndices(energy, threshold, m) == []
  {
    if m > 0 {
      NoneKept(energy, threshold, m - 1);
    }
  }

  /** A curve above the threshold everywhere keeps the whole paired prefix. */
  lemma LoudCurveKeepsPrefix(audio: seq<real>, energy: seq<real>, threshold: real)
    requires forall k :: 0 <= k < |energy| ==> energy[k] > threshold
    ensures Voiced(audio, energy, threshold) == audio[..ZipLength(audio, energy)]
  {
    var m := ZipLength(audio, energy);
    AllKept(energy, threshold, m);
  }

  lemma {:induction false} AllKept(energy: seq<real>, threshold: real, m: nat)
    requires m <= |energy|
    requires forall k :: 0 <= k < |energy| ==> energy[k] > threshold
    ensures |KeptIndices(energy, threshold, m)| == m
    ensures forall j :: 0 <= j < m ==> KeptIndices(energy, threshold, m)[j] == j
  {
    if m > 0 {
      AllKept(energy, threshold, m - 1);
    }
  }
}
