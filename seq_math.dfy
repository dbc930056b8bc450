/** Whole-array reductions over real-valued signals: the numpy `sum`, `mean`,
    `min` and `max` that the preprocessing stages apply. */
module SeqMath {

  /** Sum of all samples (numpy `sum`); 0 for an empty signal. */
  function Sum(s: seq<real>): real
  {
    if |s| == 0 then 0.0 else s[0] + Sum(s[1..])
  }

  /** Arithmetic mean (numpy `mean`) of a non-empty signal. */
  function Mean(s: seq<real>): real
    requires |s| > 0
  {
    Sum(s) / (|s| as real)
  }

  /** The signal with the constant `c` subtracted from every sample. */
  function Offset(s: seq<real>, c: real): (r: seq<real>)
    ensures |r| == |s|
  {
    seq(|s|, i requires 0 <= i < |s| => s[i] - c)
  }

  /** Every sample squared. */
  function Squared(s: seq<real>): (r: seq<real>)
    ensures |r| == |s|
  {
    seq(|s|, i requires 0 <= i < |s| => s[i] * s[i])
  }

  /** Smallest sample (numpy `min`); the reduction has no value on an empty signal. */
  function MinOf(s: seq<real>): (m: real)
    requires |s| > 0
    ensures exists k :: 0 <= k < |s| && s[k] == m
    ensures forall k :: 0 <= k < |s| ==> m <= s[k]
  {
    if |s| == 1 then s[0]
    else
      var rest := MinOf(s[1..]);
      assert forall k :: 1 <= k < |s| ==> s[k] == s[1..][k - 1];
      if s[0] <= rest then s[0] else rest
  }

  /** Largest sample (numpy `max`); the reduction has no value on an empty signal. */
  function MaxOf(s: seq<real>): (m: real)
    requires |s| > 0
    ensures exists k :: 0 <= k < |s| && s[k] == m
    ensures forall k :: 0 <= k < |s| ==> s[k] <= m
  {
    if |s| == 1 then s[0]
    else
      var rest := MaxOf(s[1..]);
      assert forall k :: 1 <= k < |s| ==> s[k] == s[1..][k - 1];
      if s[0] >= rest then s[0] else rest
  }

  /** Subtracting a constant from every sample lowers the sum by |s| times it. */
  lemma {:induction false} SumOffset(s: seq<real>, c: real)
    ensures Sum(Offset(s, c)) == Sum(s) - (|s| as real) * c
  {
    if |s| > 0 {
      assert Offset(s, c)[1..] == Offset(s[1..], c);
      SumOffset(s[1..], c);
    }
  }

  /** A sum of non-negative samples is non-negative. */
  lemma {:induction false} SumNonNegative(s: seq<real>)
    requires forall k :: 0 <= k < |s| ==> s[k] >= 0.0
    ensures Sum(s) >= 0.0
  {
    if |s| > 0 {
      SumNonNegative(s[1..]);
    }
  }

  /** A sum of zero samples is zero. */
  lemma {:induction false} SumOfZeros(s: seq<real>)
    requires forall k :: 0 <= k < |s| ==> s[k] == 0.0
    ensures Sum(s) == 0.0
  {
    if |s| > 0 {
      SumOfZeros(s[1..]);
    }
  }

  lemma SquareNonNegative(x: real)
    ensures x * x >= 0.0
  {
    if x < 0.0 {
      assert x * x == (-x) * (-x);
    }
  }

  /** Squared samples are never negative. */
  lemma SquaredNonNegative(s: seq<real>)
    ensures forall k :: 0 <= k < |s| ==> Squared(s)[k] >= 0.0
  {
    forall k | 0 <= k < |s|
      ensures Squared(s)[k] >= 0.0
    {
      SquareNonNegative(s[k]);
    }
  }
}
