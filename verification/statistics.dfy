/** Step 2: per-tile statistics (histogram, minimum, maximum, integer
    average), gathered in one pass over the tile's samples. */
module Statistics {
  import opened SeqMath
  import opened Histograms
  import JavaArith

  /** What the source keeps per tile: `histogramsPerBlock`, `minPerBlock`,
      `maxPerBlock` and `avgPerBlock`. */
  datatype TileStats = TileStats(hist: seq<int>, lo: int, hi: int, avg: int)

  /** The counting part of the one-pass scan after the first `i` samples:
      the histogram and the sum of the prefix. */
  predicate CountedUpTo(s: seq<int>, bins: nat, i: int, h: seq<int>, total: int)
    requires InRange(s, 0, bins - 1) && 0 <= i <= |s|
  {
    h == Histogram(s[..i], bins) && total == Sum(s[..i])
  }

  /** The extremes of the first `i` samples, or the sentinels
      `Integer.MAX_VALUE` and `Integer.MIN_VALUE` before any sample. */
  predicate BoundedUpTo(s: seq<int>, i: int, lo: int, hi: int)
    requires 0 <= i <= |s|
  {
    && (i == 0 ==> lo == JavaArith.IntMax && hi == JavaArith.IntMin)
    && (i > 0 ==> lo == Min(s[..i]) && hi == Max(s[..i]))
  }

  /** Counting one more sample. */
  lemma CountStep(s: seq<int>, bins: nat, i: nat, h: seq<int>, total: int, h': seq<int>, total': int)
    requires InRange(s, 0, bins - 1)
    requires 0 <= i < |s| && CountedUpTo(s, bins, i, h, total)
    requires 0 <= s[i] < |h| && h' == h[s[i] := h[s[i]] + 1] && total' == total + s[i]
    ensures CountedUpTo(s, bins, i + 1, h', total')
  {
    assert s[..i + 1][..i] == s[..i];
  }

  /** Comparing one more sample with the extremes so far. */
  lemma BoundStep(s: seq<int>, i: nat, lo: int, hi: int, lo': int, hi': int)
    requires 0 <= i < |s| && BoundedUpTo(s, i, lo, hi)
    requires 0 <= s[i] <= JavaArith.IntMax
    requires lo' == (if s[i] < lo then s[i] else lo) && hi' == (if s[i] > hi then s[i] else hi)
    ensures BoundedUpTo(s, i + 1, lo', hi')
  {
    if i > 0 {
      ExtremesStep(s, i);
    } else {
      assert s[..1] == [s[0]];
    }
  }

  /** The integer average of a non-empty sample lies between its extremes. */
  lemma AverageBetween(s: seq<int>)
    requires |s| > 0
    ensures Min(s) <= Sum(s) / |s| <= Max(s)
  {
    SumBounds(s, Min(s), Max(s));
    JavaArith.DivBetween(Sum(s), |s|, Min(s), Max(s));
  }

  /** The one-pass scan of the source's step 2: counters start at zero, the
      minimum at `Integer.MAX_VALUE`, the maximum at `Integer.MIN_VALUE`, and
      the sum is divided by the pixel count at the end (Java division). */
  method ScanTile(s: seq<int>, bins: nat) returns (st: TileStats)
    requires |s| > 0
    requires InRange(s, 0, bins - 1) && bins <= JavaArith.IntMax
    ensures st.hist == Histogram(s, bins)
    ensures st.lo == Min(s) && st.hi == Max(s)
    ensures st.avg == Sum(s) / |s|
    ensures st.lo <= st.avg <= st.hi
  {
    var h := Zeros(bins);
    var lo, hi, total := JavaArith.IntMax, JavaArith.IntMin, 0;
    var i := 0;
    while i < |s|
      invariant 0 <= i <= |s|
      invariant CountedUpTo(s, bins, i, h, total)
      invariant BoundedUpTo(s, i, lo, hi)
    {
      ghost var h0, lo0, hi0, total0 := h, lo, hi, total;
      var v := s[i];
      h := h[v := h[v] + 1];
      if v < lo {
        lo := v;
      }
      if v > hi {
        hi := v;
      }
      total := total + v;
      CountStep(s, bins, i, h0, total0, h, total);
      BoundStep(s, i, lo0, hi0, lo, hi);
      i := i + 1;
    }
    assert s[..|s|] == s;
    AverageBetween(s);
    st := TileStats(h, lo, hi, JavaArith.Div(total, |s|));
  }

  /** A sample at the top of the domain is the maximum. */
  lemma StatsTop(s: seq<int>, bins: nat, k: int)
    requires |s| > 0 && InRange(s, 0, bins - 1)
    requires 0 <= k < |s| && s[k] == bins - 1
    ensures Stats(s, bins).hi == bins - 1
  {
  }

  /** The functional reading of `ScanTile`, used by the pipeline. */
  function Stats(s: seq<int>, bins: nat): (st: TileStats)
    requires |s| > 0
    requires InRange(s, 0, bins - 1)
    ensures st.lo <= st.avg <= st.hi
    ensures forall i :: 0 <= i < |s| ==> st.lo <= s[i] <= st.hi
    ensures (exists i :: 0 <= i < |s| && s[i] == st.lo) && (exists i :: 0 <= i < |s| && s[i] == st.hi)
    ensures 0 <= st.lo && st.hi < bins
    ensures |st.hist| == bins && Sum(st.hist) == |s| && NonNegative(st.hist)
  {
    AverageBetween(s);
    HistogramMass(s, bins);
    HistogramCounts(s, bins);
    TileStats(Histogram(s, bins), Min(s), Max(s), Sum(s) / |s|)
  }
}
