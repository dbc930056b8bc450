/** The two sample-wise filters that run before energy estimation:
    pre-emphasis (a first-order FIR high-pass) and DC-offset removal. */
module Filters {
  import opened SeqMath

  /** Pre-emphasis coefficient used by the pipeline. */
  const Alpha: real := 0.97

  /** Output sample `n` of a direct-form FIR filter with feed-forward taps `b`,
      a single feedback coefficient 1 and zero initial state: the sum of
      `b[k] * x[n - k]` over the taps `k` from `k` upwards that reach back no
      further than the first sample. */
  function TapSum(b: seq<real>, x: seq<real>, n: nat, k: nat): real
    requires n < |x|
    decreases |b| - k
  {
    if k >= |b| || k > n then 0.0 else b[k] * x[n - k] + TapSum(b, x, n, k + 1)
  }

  /** `lfilter(b, 1, x)`: the FIR filter with taps `b` applied to `x`. */
  function FirFilter(b: seq<real>, x: seq<real>): (y: seq<real>)
    ensures |y| == |x|
  {
    seq(|x|, n requires 0 <= n < |x| => TapSum(b, x, n, 0))
  }

  /** `pre_emphasis_filter`: the FIR filter with taps [1, -alpha]. */
  function PreEmphasis(x: seq<real>, alpha: real): (y: seq<real>)
    ensures |y| == |x|
  {
    FirFilter([1.0, -alpha], x)
  }

  /** The two-tap filter is the recurrence y[0] = x[0], y[n] = x[n] - alpha * x[n-1]. */
  lemma PreEmphasisRecurrence(x: seq<real>, alpha: real)
    ensures |PreEmphasis(x, alpha)| == |x|
    ensures |x| > 0 ==> PreEmphasis(x, alpha)[0] == x[0]
    ensures forall n :: 1 <= n < |x| ==> PreEmphasis(x, alpha)[n] == x[n] - alpha * x[n - 1]
  {
    var b := [1.0, -alpha];
    var y := PreEmphasis(x, alpha);
    if |x| > 0 {
      assert TapSum(b, x, 0, 1) == 0.0;
      assert y[0] == TapSum(b, x, 0, 0) == x[0];
    }
    forall n | 1 <= n < |x|
      ensures y[n] == x[n] - alpha * x[n - 1]
    {
      assert TapSum(b, x, n, 2) == 0.0;
      assert TapSum(b, x, n, 1) == -alpha * x[n - 1];
      assert y[n] == TapSum(b, x, n, 0) == x[n] + TapSum(b, x, n, 1);
    }
  }

  /** `remove_dc`: every sample minus the signal's mean. An empty signal stays
      empty (its mean is undefined, but there is nothing to subtract it from). */
  function RemoveDc(x: seq<real>): (y: seq<real>)
    ensures |y| == |x|
  {
    if |x| == 0 then [] else Offset(x, Mean(x))
  }

  /** The DC-removed signal sums to zero. */
  lemma RemoveDcSumsToZero(x: seq<real>)
    ensures Sum(RemoveDc(x)) == 0.0
    ensures |x| > 0 ==> Mean(RemoveDc(x)) == 0.0
  {
    if |x| > 0 {
      var n := |x| as real;
      SumOffset(x, Mean(x));
      assert n * (Sum(x) / n) == Sum(x);
    }
  }

  /** Removing the DC offset a second time changes nothing. */
  lemma RemoveDcIdempotent(x: seq<real>)
    ensures RemoveDc(RemoveDc(x)) == RemoveDc(x)
  {
    var y := RemoveDc(x);
    if |x| > 0 {
      RemoveDcSumsToZero(x);
      assert Offset(y, 0.0) == y;
    }
  }

  /** Whatever constant bias the input carries, DC removal yields the same signal. */
  lemma RemoveDcIgnoresBias(x: seq<real>, c: real)
    ensures RemoveDc(Offset(x, c)) == RemoveDc(x)
  {
    if |x| > 0 {
      var n := |x| as real;
      SumOffset(x, c);
      assert Mean(Offset(x, c)) == Mean(x) - c by {
        assert (Sum(x) - n * c) / n == Sum(x) / n - c;
      }
    }
  }
}
