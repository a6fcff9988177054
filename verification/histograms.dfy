/** Histograms over the intensity domain `0..bins-1` and their running
    (cumulative) sums. */
module Histograms {
  import opened SeqMath
  import opened Outcomes

  /** The histogram of `s`, built one sample at a time as the source's
      `histogram[value] += 1` loops do. */
  function Histogram(s: seq<int>, bins: nat): (h: seq<int>)
    requires InRange(s, 0, bins - 1)
    ensures |h| == bins
  {
    if |s| == 0 then Zeros(bins)
    else
      var h := Histogram(s[..|s| - 1], bins);
      var v := s[|s| - 1];
      h[v := h[v] + 1]
  }

  /** Histogram construction that faults on a sample outside the bins, as
      indexing a Java array of `bins` counters does. */
  function CheckedHistogram(s: seq<int>, bins: nat): (r: Result<seq<int>>)
    ensures r.Ok? <==> InRange(s, 0, bins - 1)
    ensures r.Err? ==> r.fault == IndexOutOfBounds
    ensures r.Ok? ==> |r.value| == bins && Sum(r.value) == |s|
    ensures r.Ok? ==> forall v :: 0 <= v < bins ==> r.value[v] == Count(s, v)
  {
    if InRange(s, 0, bins - 1) then
      HistogramMass(s, bins);
      HistogramCounts(s, bins);
      Ok(Histogram(s, bins))
    else Err(IndexOutOfBounds)
  }

  /** Bin `v` holds the number of samples equal to `v`. */
  lemma {:induction false} HistogramCounts(s: seq<int>, bins: nat)
    requires InRange(s, 0, bins - 1)
    ensures forall v :: 0 <= v < bins ==> Histogram(s, bins)[v] == Count(s, v)
    decreases |s|
  {
    if |s| > 0 {
      HistogramCounts(s[..|s| - 1], bins);
    }
  }

  /** The first `k` bins together hold the samples below `k`. */
  lemma {:induction false} HistogramPrefix(s: seq<int>, bins: nat, k: nat)
    requires InRange(s, 0, bins - 1)
    requires k <= bins
    ensures Sum(Histogram(s, bins)[..k]) == CountBelow(s, k)
    decreases |s|
  {
    if |s| == 0 {
      assert Zeros(bins)[..k] == Zeros(k);
      SumZeros(k);
    } else {
      var h := Histogram(s[..|s| - 1], bins);
      var v := s[|s| - 1];
      HistogramPrefix(s[..|s| - 1], bins, k);
      if v < k {
        assert h[v := h[v] + 1][..k] == h[..k][v := h[..k][v] + 1];
        SumUpdate(h[..k], v, 1);
      } else {
        assert h[v := h[v] + 1][..k] == h[..k];
      }
    }
  }

  /** Every sample lands in exactly one bin: the bins sum to the sample count. */
  lemma HistogramMass(s: seq<int>, bins: nat)
    requires InRange(s, 0, bins - 1)
    ensures Sum(Histogram(s, bins)) == |s|
  {
    HistogramPrefix(s, bins, bins);
    assert Histogram(s, bins)[..bins] == Histogram(s, bins);
    CountBelowAll(s, bins);
  }

  /** The running histogram: entry `i` is the sum of bins `0..i`. */
  function Cumulative(h: seq<int>): (cum: seq<int>)
    ensures |cum| == |h|
  {
    seq(|h|, i requires 0 <= i < |h| => Sum(h[..i + 1]))
  }

  /** The source's in-place running sum, `h[i] += h[i-1]` for `i` from 1. */
  method RunningSum(h: seq<int>) returns (a: seq<int>)
    ensures a == Cumulative(h)
    ensures |h| > 0 ==> a[|h| - 1] == Sum(h)
  {
    a := h;
    if |a| == 0 {
      return;
    }
    assert h[..1] == [h[0]];
    var i := 1;
    while i < |a|
      invariant 1 <= i <= |a| == |h|
      invariant forall j :: 0 <= j < i ==> a[j] == Sum(h[..j + 1])
      invariant forall j :: i <= j < |a| ==> a[j] == h[j]
    {
      assert h[..i + 1][..i] == h[..i];
      a := a[i := a[i] + a[i - 1]];
      i := i + 1;
    }
    assert h[..|h|] == h;
  }

  /** `cum` is `h` with its first `i` entries turned into running sums: the
      state of the source's in-place running-sum loops before index `i`. */
  predicate RunningUpTo(h: seq<int>, cum: seq<int>, i: int) {
    && |cum| == |h|
    && (forall j :: 0 <= j < i && j < |h| ==> cum[j] == Sum(h[..j + 1]))
    && (forall j :: i <= j < |h| && 0 <= j ==> cum[j] == h[j])
  }

  /** One step of the in-place running sum: index 0 is already its own sum,
      any later index adds the entry before it. */
  lemma RunningStep(h: seq<int>, cum: seq<int>, i: nat)
    requires RunningUpTo(h, cum, i) && i < |h|
    ensures i == 0 ==> RunningUpTo(h, cum, 1)
    ensures i > 0 ==> RunningUpTo(h, cum[i := cum[i] + cum[i - 1]], i + 1)
  {
    if i == 0 {
      assert h[..1] == [h[0]];
    } else {
      assert h[..i + 1][..i] == h[..i];
    }
  }

  /** A running histogram whose every entry is done is the cumulative one. */
  lemma RunningDone(h: seq<int>, cum: seq<int>)
    requires RunningUpTo(h, cum, |h|)
    ensures cum == Cumulative(h)
  {
  }

  /** Over non-negative bins the running histogram is non-decreasing and
      stays between 0 and the total mass. */
  lemma CumulativeMonotone(h: seq<int>, i: int, j: int)
    requires NonNegative(h)
    requires 0 <= i <= j < |h|
    ensures 0 <= Cumulative(h)[i] <= Cumulative(h)[j] <= Sum(h)
  {
    PrefixSumMonotone(h, i + 1, j + 1);
    PrefixSumMonotone(h, j + 1, |h|);
    assert h[..|h|] == h;
  }

  /** Over non-negative entries a longer prefix has the larger sum. */
  lemma PrefixSumMonotone(h: seq<int>, a: nat, b: nat)
    requires NonNegative(h) && a <= b <= |h|
    ensures 0 <= Sum(h[..a]) <= Sum(h[..b])
  {
    var p, q := h[..a], h[a..b];
    assert h[..b] == p + q;
    SumAppend(p, q);
    NonNegativeSum(p);
    NonNegativeSum(q);
  }

  /** The last running entry is the whole mass. */
  lemma CumulativeLast(h: seq<int>)
    requires |h| > 0
    ensures Cumulative(h)[|h| - 1] == Sum(h)
  {
    assert h[..|h|] == h;
  }

  /** Entry `v` of the running histogram of `s` counts the samples `<= v`. */
  lemma CumulativeCountsAtMost(s: seq<int>, bins: nat, v: int)
    requires InRange(s, 0, bins - 1)
    requires 0 <= v < bins
    ensures Cumulative(Histogram(s, bins))[v] == CountBelow(s, v + 1)
  {
    HistogramPrefix(s, bins, v + 1);
  }
}
