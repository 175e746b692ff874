/** The numpy reductions the engines rely on, over real numbers: sum, mean,
    population variance and first-occurrence argmax. */
module Stats {

  /** `np.sum`, accumulated from the front. */
  function Sum(s: seq<real>): real {
    if |s| == 0 then 0.0 else Sum(s[..|s| - 1]) + s[|s| - 1]
  }

  /** `np.mean` / `np.nanmean` on a NaN-free, non-empty sample. */
  function Mean(s: seq<real>): real
    requires |s| > 0
  {
    Sum(s) / (|s| as real)
  }

  /** Element-wise difference of two equally long series. */
  function Minus(a: seq<real>, b: seq<real>): (d: seq<real>)
    requires |a| == |b|
    ensures |d| == |a|
    ensures forall k :: 0 <= k < |a| ==> d[k] == a[k] - b[k]
  {
    seq(|a|, k requires 0 <= k < |a| => a[k] - b[k])
  }

  /** `np.var`: the population variance (mean squared deviation). */
  function Variance(s: seq<real>): real
    requires |s| > 0
  {
    var m := Mean(s);
    Mean(seq(|s|, k requires 0 <= k < |s| => (s[k] - m) * (s[k] - m)))
  }

  /** `np.argmax`: the first index holding the largest value. */
  function ArgMax(s: seq<real>): (r: nat)
    requires |s| > 0
    ensures r < |s|
    ensures forall k :: 0 <= k < |s| ==> s[k] <= s[r]
    ensures forall k :: 0 <= k < r ==> s[k] < s[r]
  {
    if |s| == 1 then 0
    else
      var m := ArgMax(s[..|s| - 1]);
      if s[|s| - 1] > s[m] then |s| - 1 else m
  }

  /** A sum of n terms each at most `hi` is at most n*hi. */
  lemma {:induction false} SumAtMost(s: seq<real>, hi: real)
    requires forall k :: 0 <= k < |s| ==> s[k] <= hi
    ensures Sum(s) <= (|s| as real) * hi
  {
    if |s| > 0 {
      SumAtMost(s[..|s| - 1], hi);
    }
  }

  /** A sum of n terms each at least `lo` is at least n*lo. */
  lemma {:induction false} SumAtLeast(s: seq<real>, lo: real)
    requires forall k :: 0 <= k < |s| ==> lo <= s[k]
    ensures (|s| as real) * lo <= Sum(s)
  {
    if |s| > 0 {
      SumAtLeast(s[..|s| - 1], lo);
    }
  }

  /** Mean times sample size gives back the sum. */
  lemma MeanTimesSize(s: seq<real>)
    requires |s| > 0
    ensures Mean(s) * (|s| as real) == Sum(s)
  {
  }

  /** The mean never exceeds an upper bound of the sample, in particular
      its maximum. */
  lemma MeanAtMost(s: seq<real>, hi: real)
    requires |s| > 0
    requires forall k :: 0 <= k < |s| ==> s[k] <= hi
    ensures Mean(s) <= hi
  {
    SumAtMost(s, hi);
    MeanTimesSize(s);
  }

  /** The mean is at least a lower bound of the sample. */
  lemma MeanAtLeast(s: seq<real>, lo: real)
    requires |s| > 0
    requires forall k :: 0 <= k < |s| ==> lo <= s[k]
    ensures lo <= Mean(s)
  {
    SumAtLeast(s, lo);
    MeanTimesSize(s);
  }

  /** The population variance is never negative, so its square root (the
      standard deviation the source stores) is defined. */
  lemma VarianceNonNegative(s: seq<real>)
    requires |s| > 0
    ensures 0.0 <= Variance(s)
  {
    var m := Mean(s);
    var sq := seq(|s|, k requires 0 <= k < |s| => (s[k] - m) * (s[k] - m));
    MeanAtLeast(sq, 0.0);
  }
}
