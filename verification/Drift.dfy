/** The most pronounced level shift of a series, by the peak of its cumulative deviation from the mean. */
module Drift {
  import opened Options

  datatype Changepoint = Changepoint(index: nat, delta: real, cusum: real)

  function Sum(s: seq<real>): real
  {
    if s == [] then 0.0 else Sum(s[..|s| - 1]) + s[|s| - 1]
  }

  function Mean(s: seq<real>): real
    requires s != []
  {
    Sum(s) / |s| as real
  }

  function Abs(x: real): real
  {
    if x < 0.0 then -x else x
  }

  /** The cumulative deviation from the mean after `k` samples. */
  function Deviation(s: seq<real>, k: nat): real
    requires s != [] && k <= |s|
  {
    Sum(s[..k]) - k as real * Mean(s)
  }

  /** How far the level moves at a split: the mean after it less the mean before it. */
  function Shift(s: seq<real>, k: nat): real
    requires 0 < k < |s|
  {
    Mean(s[k..]) - Mean(s[..k])
  }

  /** The shift at a split, weighted by the sizes of both sides. */
  function Contrast(s: seq<real>, k: nat): real
    requires 0 < k < |s|
  {
    Abs(Shift(s, k)) * (k * (|s| - k)) as real
  }

  predicate Constant(s: seq<real>)
  {
    forall i, j | 0 <= i < j < |s| :: s[i] == s[j]
  }

  lemma {:induction false} SumSplits(s: seq<real>, t: seq<real>)
    ensures Sum(s + t) == Sum(s) + Sum(t)
  {
    if t == [] {
      assert s + t == s;
    } else {
      var n := |t| - 1;
      assert (s + t)[..|s| + n] == s + t[..n];
      SumSplits(s, t[..n]);
    }
  }

  lemma DeviationStep(s: seq<real>, k: nat)
    requires k < |s|
    ensures Deviation(s, k + 1) == Deviation(s, k) + (s[k] - Mean(s))
  {
    assert s[..k + 1][..k] == s[..k];
    assert (k + 1) as real * Mean(s) == k as real * Mean(s) + Mean(s);
  }

  lemma DeviationEnds(s: seq<real>)
    requires s != []
    ensures Deviation(s, 0) == 0.0 && Deviation(s, |s|) == 0.0
  {
    assert s[..0] == [] && s[..|s|] == s;
  }

  lemma MeanTimes(s: seq<real>)
    requires s != []
    ensures Mean(s) * |s| as real == Sum(s)
  {
  }

  lemma ShiftArithmetic(k: real, m: real, n: real, before: real, after: real, mean: real)
    requires n == k + m
    ensures (after - before) * (k * m) == -(n * (before * k - k * mean)) + k * (before * k + after * m - mean * n)
  {
    assert (after - before) * (k * m) == k * (after * m) - m * (before * k);
    assert n * (before * k) == k * (before * k) + m * (before * k);
    assert n * (k * mean) == k * (mean * n);
  }

  /** The deviation at a split is the shift there, weighted: both measure the same break. */
  lemma DeviationIsShift(s: seq<real>, k: nat)
    requires 0 < k < |s|
    ensures Shift(s, k) * (k * (|s| - k)) as real == -(|s| as real * Deviation(s, k))
    ensures Contrast(s, k) == |s| as real * Abs(Deviation(s, k))
  {
    hide Sum, Mean;
    var n := |s|;
    MeanTimes(s);
    MeanTimes(s[..k]);
    MeanTimes(s[k..]);
    SumSplits(s[..k], s[k..]);
    assert s == s[..k] + s[k..];
    ShiftArithmetic(k as real, (n - k) as real, n as real, Mean(s[..k]), Mean(s[k..]), Mean(s));
    assert (k * (n - k)) as real == k as real * (n - k) as real;
    Scaled(Shift(s, k), (k * (n - k)) as real, Deviation(s, k), n as real);
  }

  lemma Scaled(x: real, w: real, y: real, v: real)
    requires w >= 0.0 && v >= 0.0 && x * w == -(v * y)
    ensures Abs(x) * w == v * Abs(y)
  {
    SignsMove(x, w);
    SignsMove(y, v);
    if x >= 0.0 && y >= 0.0 {
      assert x * w >= 0.0 && v * y >= 0.0;
    } else if x < 0.0 && y < 0.0 {
      assert (-x) * w >= 0.0 && v * (-y) >= 0.0;
    }
  }

  lemma SignsMove(x: real, w: real)
    ensures (-x) * w == -(x * w) && w * (-x) == -(w * x)
  {
  }

  /** A constant series is the only one that never leaves its mean. */
  lemma FlatIsConstant(s: seq<real>)
    requires s != []
    ensures (forall k | 0 <= k <= |s| :: Deviation(s, k) == 0.0) <==> Constant(s)
  {
    hide Mean, Deviation;
    if forall k | 0 <= k <= |s| :: Deviation(s, k) == 0.0 {
      forall i | 0 <= i < |s|
        ensures s[i] == Mean(s)
      {
        DeviationStep(s, i);
      }
    }
    if Constant(s) {
      ConstantMean(s);
      forall k | 0 <= k <= |s|
        ensures Deviation(s, k) == 0.0
      {
        ConstantDeviation(s, k);
      }
    }
  }

  lemma {:induction false} ConstantSum(s: seq<real>, k: nat)
    requires Constant(s) && s != [] && k <= |s|
    ensures Sum(s[..k]) == k as real * s[0]
  {
    if k == 0 {
    } else {
      ConstantSum(s, k - 1);
      assert s[..k][..k - 1] == s[..k - 1];
    }
  }

  lemma ConstantMean(s: seq<real>)
    requires Constant(s) && s != []
    ensures Mean(s) == s[0]
  {
    ConstantSum(s, |s|);
    assert s[..|s|] == s;
  }

  lemma ConstantDeviation(s: seq<real>, k: nat)
    requires Constant(s) && s != [] && k <= |s|
    ensures Deviation(s, k) == 0.0
  {
    ConstantMean(s);
    ConstantSum(s, k);
  }

  /** The split is interior, weighs the heaviest of all splits, and is the first to. */
  ghost predicate IsBreak(s: seq<real>, c: Changepoint)
  {
    && 0 < c.index < |s|
    && c.delta == Shift(s, c.index)
    && c.cusum > 0.0
    && Contrast(s, c.index) == |s| as real * c.cusum
    && (forall j | 0 < j < |s| :: Contrast(s, j) <= Contrast(s, c.index))
    && (forall j | 0 < j < c.index :: Contrast(s, j) < Contrast(s, c.index))
  }

  method SumOf(s: seq<real>) returns (sum: real)
    ensures sum == Sum(s)
  {
    sum := 0.0;
    for i := 0 to |s|
      invariant sum == Sum(s[..i])
    {
      assert s[..i + 1][..i] == s[..i];
      sum := sum + s[i];
    }
    assert s[..|s|] == s;
  }

  /** None exactly for a series too short to break or constant; otherwise the first heaviest split. */
  method FindChangepoint(s: seq<real>) returns (r: Option<Changepoint>)
    ensures r.None? <==> |s| < 2 || Constant(s)
    ensures r.Some? ==> IsBreak(s, r.value)
  {
    hide Mean, Deviation, Constant, Contrast, Shift;
    var n := |s|;
    if n < 2 {
      return None;
    }
    var sum := SumOf(s);
    var mean := sum / n as real;
    MeanIs(s);
    DeviationEnds(s);
    FlatIsConstant(s);
    var cusum, peakAbs, peakAt := 0.0, 0.0, 0;
    for i := 0 to n
      invariant cusum == Deviation(s, i)
      invariant peakAbs >= 0.0 && peakAt <= n - 1
      invariant peakAbs > 0.0 ==> peakAt < i && Abs(Deviation(s, peakAt + 1)) == peakAbs
      invariant forall j | 0 <= j <= i :: Abs(Deviation(s, j)) <= peakAbs
      invariant peakAbs > 0.0 ==> forall j | 0 <= j <= peakAt :: Abs(Deviation(s, j)) < peakAbs
    {
      DeviationStep(s, i);
      cusum := cusum + (s[i] - mean);
      if Abs(cusum) > peakAbs {
        peakAbs := Abs(cusum);
        peakAt := i;
      }
    }
    if peakAbs == 0.0 {
      return None;
    }
    assert Abs(Deviation(s, peakAt + 1)) > 0.0;
    var index := if peakAt + 1 < 1 then 1 else if peakAt + 1 > n - 1 then n - 1 else peakAt + 1;
    assert index == peakAt + 1;
    var before := SumOf(s[..index]);
    var after := SumOf(s[index..]);
    var delta := after / (n - index) as real - before / index as real;
    ShiftIs(s, index);
    HeaviestSplit(s, index, peakAbs);
    return Some(Changepoint(index, delta, peakAbs));
  }

  lemma MeanIs(s: seq<real>)
    requires s != []
    ensures Mean(s) == Sum(s) / |s| as real
  {
  }

  lemma ShiftIs(s: seq<real>, k: nat)
    requires 0 < k < |s|
    ensures Shift(s, k) == Sum(s[k..]) / (|s| - k) as real - Sum(s[..k]) / k as real
  {
  }

  lemma HeaviestSplit(s: seq<real>, index: nat, peak: real)
    requires 0 < index < |s| && peak > 0.0 && Abs(Deviation(s, index)) == peak
    requires forall j | 0 <= j <= |s| :: Abs(Deviation(s, j)) <= peak
    requires forall j | 0 <= j < index :: Abs(Deviation(s, j)) < peak
    ensures IsBreak(s, Changepoint(index, Shift(s, index), peak))
  {
    hide Deviation, Contrast, Shift;
    DeviationIsShift(s, index);
    forall j | 0 < j < |s|
      ensures Contrast(s, j) <= Contrast(s, index) && (j < index ==> Contrast(s, j) < Contrast(s, index))
    {
      DeviationIsShift(s, j);
      Heavier(|s| as real, Abs(Deviation(s, j)), peak);
    }
  }

  lemma Heavier(n: real, x: real, y: real)
    requires n > 0.0 && x <= y
    ensures n * x <= n * y && (x < y ==> n * x < n * y)
  {
  }
}
