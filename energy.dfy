/** `energy_rate`: short-time energy of a signal over tapered, overlapping
    frames, min-max normalised, together with each frame's start time. */
module Energy {
  import opened Wrappers
  import opened SeqMath

  /** Reducing an empty energy array with `np.max` (evaluated before `np.min`)
      raises; this is that error. */
  datatype Error = EmptyReduction

  /** Python's `range(start, stop, step)` for a positive step. */
  function PyRange(start: int, stop: int, step: nat): (r: seq<int>)
    requires step > 0
    ensures |r| == 0 <==> stop <= start
    ensures forall k :: 0 <= k < |r| ==> start <= r[k] < stop
    ensures |r| > 0 ==> r[0] == start
    ensures forall k :: 1 <= k < |r| ==> r[k] == r[k - 1] + step
    decreases if start < stop then stop - start else 0
  {
    if start >= stop then []
    else
      var rest := PyRange(start + step, stop, step);
      assert forall k :: 1 <= k < |rest| + 1 ==> ([start] + rest)[k] == rest[k - 1];
      [start] + rest
  }

  /** ceil(d / step) for a positive step, with no frames when d <= 0. */
  function CeilDiv(d: int, step: nat): nat
    requires step > 0
  {
    if d > 0 then (d + step - 1) / step else 0
  }

  lemma DivStep(q: nat, step: nat)
    requires step > 0
    ensures (q + step) / step == q / step + 1
    ensures q < step ==> q / step == 0
  {
    var d, m := q / step, q % step;
    assert q + step == (d + 1) * step + m;
    DivUnique(q + step, step, d + 1, m);
    if q < step {
      DivUnique(q, step, 0, q);
    }
  }

  lemma DivUnique(a: int, step: nat, d: int, m: int)
    requires step > 0 && a == d * step + m && 0 <= m < step
    ensures a / step == d
  {
    var d', m' := a / step, a % step;
    assert a == d' * step + m';
    assert (d - d') * step == m' - m by {
      assert d * step - d' * step == (d - d') * step;
    }
    if d > d' {
      MulAtLeast(d - d', step);
    } else if d < d' {
      MulAtLeast(d' - d, step);
    }
  }

  lemma MulAtLeast(c: int, step: nat)
    requires c >= 1
    ensures c * step >= step
  {
    assert c * step == (c - 1) * step + step;
    assert (c - 1) * step >= 0;
  }

  /** The range holds start, start + step, ... strictly below stop, and has
      ceil((stop - start) / step) elements. */
  lemma {:induction false} PyRangeShape(start: int, stop: int, step: nat)
    requires step > 0
    ensures |PyRange(start, stop, step)| == CeilDiv(stop - start, step)
    ensures |PyRange(start, stop, step)| == 0 <==> stop <= start
    ensures forall k :: 0 <= k < |PyRange(start, stop, step)| ==>
              PyRange(start, stop, step)[k] == start + k * step
    ensures forall k :: 0 <= k < |PyRange(start, stop, step)| ==>
              start <= PyRange(start, stop, step)[k] < stop
    decreases if start < stop then stop - start else 0
  {
    if start < stop {
      var rest := PyRange(start + step, stop, step);
      PyRangeShape(start + step, stop, step);
      DivStep(stop - start - 1, step);
      assert PyRange(start, stop, step) == [start] + rest;
      forall k | 1 <= k < |rest| + 1
        ensures PyRange(start, stop, step)[k] == start + k * step
      {
        assert rest[k - 1] == start + step + (k - 1) * step;
      }
    }
  }

  /** No multiple of the step below stop is skipped. */
  lemma {:induction false} PyRangeComplete(start: int, stop: int, step: nat, k: nat)
    requires step > 0 && start + k * step < stop
    ensures k < |PyRange(start, stop, step)|
    ensures PyRange(start, stop, step)[k] == start + k * step
    decreases k
  {
    PyRangeShape(start, stop, step);
    if k > 0 {
      assert start + step + (k - 1) * step == start + k * step;
      PyRangeComplete(start + step, stop, step, k - 1);
    }
  }

  /** The frame starts `range(0, n - winLength, step)`: multiples of the step,
      each leaving a whole window (and one sample more) inside the signal. */
  function FrameStarts(n: nat, winLength: nat, step: nat): (starts: seq<int>)
    requires step > 0
    ensures forall k :: 0 <= k < |starts| ==> starts[k] == k * step
    ensures forall k :: 0 <= k < |starts| ==> 0 <= starts[k] && starts[k] + winLength < n
  {
    PyRangeShape(0, n - winLength, step);
    PyRange(0, n - winLength, step)
  }

  /** There are ceil((n - winLength) / step) frames, none when n <= winLength,
      and every multiple of the step below n - winLength starts one. */
  lemma FrameCount(n: nat, winLength: nat, step: nat)
    requires step > 0
    ensures |FrameStarts(n, winLength, step)| == CeilDiv(n - winLength, step)
    ensures |FrameStarts(n, winLength, step)| == 0 <==> n <= winLength
    ensures forall j :: 0 <= j < n - winLength && j % step == 0 ==> j in FrameStarts(n, winLength, step)
  {
    PyRangeShape(0, n - winLength, step);
    forall j | 0 <= j < n - winLength && j % step == 0
      ensures j in FrameStarts(n, winLength, step)
    {
      var k := j / step;
      assert j == k * step;
      PyRangeComplete(0, n - winLength, step, k);
    }
  }

  /** The boundary cases: a signal exactly one window long has no frame; one
      to `step` samples more give exactly one; one more after that gives two. */
  lemma FrameCountAtBoundaries(winLength: nat, step: nat)
    requires step > 0
    ensures |FrameStarts(winLength, winLength, step)| == 0
    ensures |FrameStarts(winLength + 1, winLength, step)| == 1
    ensures |FrameStarts(winLength + step, winLength, step)| == 1
    ensures |FrameStarts(winLength + step + 1, winLength, step)| == 2
  {
    assert PyRange(step, 1, step) == [];
    assert PyRange(step, step, step) == [];
    assert PyRange(step + step, step + 1, step) == [];
    assert PyRange(step, step + 1, step) == [step];
  }

  /** The frame of the signal starting at `i`, multiplied sample by sample by the taper. */
  function Windowed(x: seq<real>, i: int, taper: seq<real>): (f: seq<real>)
    requires 0 <= i && i + |taper| <= |x|
    ensures |f| == |taper|
  {
    seq(|taper|, j requires 0 <= j < |taper| => x[i + j] * taper[j])
  }

  /** Raw energy of one frame: the sum of the squared tapered samples over the
      window length. It is never negative. */
  function FrameEnergy(x: seq<real>, i: int, taper: seq<real>): (e: real)
    requires 0 <= i && i + |taper| <= |x| && |taper| > 0
    ensures e >= 0.0
  {
    var f := Windowed(x, i, taper);
    SquaredNonNegative(f);
    SumNonNegative(Squared(f));
    Sum(Squared(f)) / (|taper| as real)
  }

  /** A frame of silence has zero energy, whatever the taper. */
  lemma FrameEnergyOfSilence(x: seq<real>, i: int, taper: seq<real>)
    requires 0 <= i && i + |taper| <= |x| && |taper| > 0
    requires forall j :: i <= j < i + |taper| ==> x[j] == 0.0
    ensures FrameEnergy(x, i, taper) == 0.0
  {
    var f := Windowed(x, i, taper);
    assert forall j :: 0 <= j < |f| ==> Squared(f)[j] == 0.0 by {
      forall j | 0 <= j < |f| ensures Squared(f)[j] == 0.0 {
        assert x[i + j] == 0.0;
      }
    }
    SumOfZeros(Squared(f));
  }

  /** One raw energy per frame start, in frame order. */
  function RawEnergyCurve(x: seq<real>, winLength: nat, step: nat, taper: seq<real>): (raw: seq<real>)
    requires step > 0 && |taper| == winLength > 0
    ensures |raw| == CeilDiv(|x| - winLength, step)
    ensures |raw| == 0 <==> |x| <= winLength
    ensures forall k :: 0 <= k < |raw| ==> raw[k] >= 0.0
  {
    var starts := FrameStarts(|x|, winLength, step);
    FrameCount(|x|, winLength, step);
    seq(|starts|, k requires 0 <= k < |starts| => FrameEnergy(x, starts[k], taper))
  }

  /** The loop of `energy_rate` that appends one raw energy per frame start. */
  method FrameEnergies(signal: seq<real>, winLength: nat, overlap: int, taper: seq<real>)
    returns (energy: seq<real>)
    requires 0 < winLength && overlap < winLength && |taper| == winLength
    ensures |energy| == CeilDiv(|signal| - winLength, winLength - overlap)
    ensures forall k :: 0 <= k < |energy| ==> energy[k] >= 0.0
    ensures energy == RawEnergyCurve(signal, winLength, winLength - overlap, taper)
  {
    var step := winLength - overlap;
    var frames := FrameStarts(|signal|, winLength, step);
    FrameCount(|signal|, winLength, step);
    energy := [];
    for k := 0 to |frames|
      invariant |energy| == k
      invariant forall j :: 0 <= j < k ==> energy[j] == FrameEnergy(signal, frames[j], taper)
    {
      var i := frames[k];
      energy := energy + [FrameEnergy(signal, i, taper)];
    }
  }

  /** Where `v` falls between `lo` and `hi`, as a fraction of the span. */
  function Rescale(v: real, lo: real, hi: real): real
    requires hi != lo
  {
    (v - lo) / (hi - lo)
  }

  /** Min-max normalisation of a non-empty curve onto [0, 1]; an all-zero
      curve when the maximum equals the minimum. */
  function Normalise(e: seq<real>): (r: seq<real>)
    requires |e| > 0
    ensures |r| == |e|
  {
    var lo, hi := MinOf(e), MaxOf(e);
    if hi != lo then seq(|e|, k requires 0 <= k < |e| => Rescale(e[k], lo, hi))
    else seq(|e|, k requires 0 <= k < |e| => 0.0)
  }

  lemma RescaleInUnitInterval(v: real, lo: real, hi: real)
    requires lo <= v <= hi && lo < hi
    ensures 0.0 <= Rescale(v, lo, hi) <= 1.0
  {
    UnitRatio(v - lo, hi - lo);
  }

  lemma RescaleEnds(lo: real, hi: real)
    requires lo != hi
    ensures Rescale(lo, lo, hi) == 0.0 && Rescale(hi, lo, hi) == 1.0
  {
    RatioEnds(hi - lo);
  }

  lemma RescaleMonotone(a: real, b: real, lo: real, hi: real)
    requires lo < hi && a <= b
    ensures Rescale(a, lo, hi) <= Rescale(b, lo, hi)
    ensures a < b ==> Rescale(a, lo, hi) < Rescale(b, lo, hi)
  {
    RatioMono(a - lo, b - lo, hi - lo);
  }

  lemma UnitRatio(a: real, d: real)
    requires 0.0 <= a <= d && d > 0.0
    ensures 0.0 <= a / d <= 1.0
  {
  }

  lemma RatioEnds(d: real)
    requires d != 0.0
    ensures 0.0 / d == 0.0 && d / d == 1.0
  {
  }

  lemma RatioMono(a: real, b: real, d: real)
    requires d > 0.0 && a <= b
    ensures a / d <= b / d
    ensures a < b ==> a / d < b / d
  {
  }

  /** Every normalised value lies in [0, 1]. */
  lemma NormaliseInUnitInterval(e: seq<real>)
    requires |e| > 0
    ensures forall k :: 0 <= k < |e| ==> 0.0 <= Normalise(e)[k] <= 1.0
  {
    var lo, hi := MinOf(e), MaxOf(e);
    if hi != lo {
      forall k | 0 <= k < |e| ensures 0.0 <= Normalise(e)[k] <= 1.0 {
        RescaleInUnitInterval(e[k], lo, hi);
      }
    }
  }

  /** Unless the curve is flat, the normalised curve reaches both 0 and 1. */
  lemma NormaliseReachesBounds(e: seq<real>)
    requires |e| > 0 && MaxOf(e) != MinOf(e)
    ensures exists k :: 0 <= k < |e| && Normalise(e)[k] == 0.0
    ensures exists k :: 0 <= k < |e| && Normalise(e)[k] == 1.0
  {
    var lo, hi := MinOf(e), MaxOf(e);
    var i :| 0 <= i < |e| && e[i] == lo;
    var j :| 0 <= j < |e| && e[j] == hi;
    RescaleEnds(lo, hi);
    assert Normalise(e)[i] == 0.0;
    assert Normalise(e)[j] == 1.0;
  }

  /** The normalised curve is all zeros exactly when every raw energy is equal. */
  lemma NormaliseFlat(e: seq<real>)
    requires |e| > 0
    ensures (forall i, j :: 0 <= i < |e| && 0 <= j < |e| ==> e[i] == e[j])
        <==> (forall k :: 0 <= k < |e| ==> Normalise(e)[k] == 0.0)
  {
    var lo, hi := MinOf(e), MaxOf(e);
    var i :| 0 <= i < |e| && e[i] == lo;
    var j :| 0 <= j < |e| && e[j] == hi;
    if hi != lo {
      NormaliseReachesBounds(e);
      assert e[i] != e[j];
    }
  }

  /** Normalisation keeps the order of the raw energies, strictly where they differ. */
  lemma NormaliseMonotone(e: seq<real>, i: nat, j: nat)
    requires i < |e| && j < |e|
    ensures e[i] <= e[j] ==> Normalise(e)[i] <= Normalise(e)[j]
    ensures e[i] < e[j] ==> Normalise(e)[i] < Normalise(e)[j]
  {
    var lo, hi := MinOf(e), MaxOf(e);
    if hi != lo {
      assert lo < hi;
      if e[i] <= e[j] {
        RescaleMonotone(e[i], e[j], lo, hi);
      }
    }
  }

  /** Frame start times in seconds: `frames / sample_rate`. */
  function FrameTimes(starts: seq<int>, sampleRate: nat): (t: seq<real>)
    requires sampleRate > 0
    ensures |t| == |starts|
  {
    seq(|starts|, k requires 0 <= k < |starts| => starts[k] as real / sampleRate as real)
  }

  /** The normalised energy curve `energy_rate` returns, or the error of
      reducing an empty curve when no frame fits. */
  function EnergyCurve(x: seq<real>, winLength: nat, step: nat, taper: seq<real>)
    : (r: Result<seq<real>, Error>)
    requires step > 0 && |taper| == winLength > 0
    ensures r.Failure? <==> |x| <= winLength
    ensures r.Failure? ==> r.error == EmptyReduction
    ensures r.Success? ==> |r.value| == |RawEnergyCurve(x, winLength, step, taper)|
  {
    var raw := RawEnergyCurve(x, winLength, step, taper);
    if |raw| == 0 then Failure(EmptyReduction) else Success(Normalise(raw))
  }

  /** The curve exists exactly when the signal is longer than one window; it
      then has one value per frame, each in [0, 1]. */
  lemma EnergyCurveShape(x: seq<real>, winLength: nat, step: nat, taper: seq<real>)
    requires step > 0 && |taper| == winLength > 0
    ensures EnergyCurve(x, winLength, step, taper).Failure? <==> |x| <= winLength
    ensures EnergyCurve(x, winLength, step, taper).Success? ==>
              |EnergyCurve(x, winLength, step, taper).value| == CeilDiv(|x| - winLength, step)
    ensures EnergyCurve(x, winLength, step, taper).Success? ==>
              forall k :: 0 <= k < |EnergyCurve(x, winLength, step, taper).value| ==>
                0.0 <= EnergyCurve(x, winLength, step, taper).value[k] <= 1.0
  {
    FrameCount(|x|, winLength, step);
    var raw := RawEnergyCurve(x, winLength, step, taper);
    if |raw| > 0 {
      NormaliseInUnitInterval(raw);
    }
  }

  /** `energy_rate`: the normalised energy curve and the frame start times. */
  method EnergyRate(signal: seq<real>, winLength: nat, overlap: int, sampleRate: nat, taper: seq<real>)
    returns (r: Result<(seq<real>, seq<real>), Error>)
    requires 0 < winLength && overlap < winLength && |taper| == winLength && sampleRate > 0
    ensures r.Failure? <==> |signal| <= winLength
    ensures r.Failure? ==> r.error == EmptyReduction
    ensures r.Success? ==> EnergyCurve(signal, winLength, winLength - overlap, taper) == Success(r.value.0)
    ensures r.Success? ==> |r.value.1| == |r.value.0|
    ensures r.Success? ==> forall k :: 0 <= k < |r.value.1| ==>
              r.value.1[k] == (k * (winLength - overlap)) as real / sampleRate as real
  {
    var step := winLength - overlap;
    var energy := FrameEnergies(signal, winLength, overlap, taper);
    FrameCount(|signal|, winLength, step);
    if |energy| == 0 {
      return Failure(EmptyReduction);
    }
    var normalised := Normalise(energy);
    var frames := FrameStarts(|signal|, winLength, step);
    r := Success((normalised, FrameTimes(frames, sampleRate)));
  }
}
