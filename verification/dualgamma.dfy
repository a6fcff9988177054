/** The integer parts of the dual-gamma-corrected variant: the global
    75%-mass intensity `Lalpha`, the per-tile pdf-weighted running histogram
    that picks the gamma exponent, and the choice between the two
    enhancement terms `T1` and `Gamma`. */
module DualGamma {
  import opened SeqMath
  import opened Histograms
  import opened Outcomes
  import opened Tiling
  import JavaArith

  // ---------------------------------------------------------------------
  // Global statistics: the brightest sample and the 75% intensity.
  // ---------------------------------------------------------------------

  /** `Lmax`: the largest sample of the whole image. */
  function ImageMax(img: seq<seq<int>>, size: nat): (lmax: int)
    requires size > 0 && IsImage(img, size)
    ensures forall c, r :: 0 <= c < size && 0 <= r < size ==> img[c][r] <= lmax
    ensures exists c, r :: 0 <= c < size && 0 <= r < size && img[c][r] == lmax
  {
    FlattenLength(img, size);
    ImageMaxFacts(img, size);
    Max(Flatten(img))
  }

  lemma ImageMaxFacts(img: seq<seq<int>>, size: nat)
    requires size > 0 && IsImage(img, size)
    ensures |Flatten(img)| == size * size > 0
    ensures forall c, r :: 0 <= c < size && 0 <= r < size ==> img[c][r] <= Max(Flatten(img))
    ensures exists c, r :: 0 <= c < size && 0 <= r < size && img[c][r] == Max(Flatten(img))
  {
    var s := Flatten(img);
    FlattenLength(img, size);
    assert size * size > 0;
    forall c, r | 0 <= c < size && 0 <= r < size
      ensures img[c][r] <= Max(s)
    {
      FlattenIndex(img, size, c, r);
    }
    var k :| 0 <= k < |s| && s[k] == Max(s);
    FlattenFrom(img, k);
  }

  /** `cdfTarget = (int) (total * 0.75)`: three quarters of the mass,
      rounded down. */
  function CdfTarget(total: nat): (t: nat)
    ensures 4 * t <= 3 * total < 4 * t + 4
  {
    var x := total as real * 0.75;
    assert x == (3 * total) as real / 4 as real;
    JavaArith.TruncQuotient(3 * total, 4);
    JavaArith.Euclid(3 * total, 4);
    JavaArith.Trunc(x)
  }

  /** Index `k` of the running histogram `cum` is the earliest one closest to
      `target`: no index is closer, and every earlier one is farther. */
  predicate EarliestClosest(cum: seq<int>, target: int, k: int) {
    && 0 <= k < |cum|
    && (forall j :: 0 <= j < |cum| ==> JavaArith.Abs(cum[k] - target) <= JavaArith.Abs(cum[j] - target))
    && (forall j :: 0 <= j < k ==> JavaArith.Abs(cum[j] - target) > JavaArith.Abs(cum[k] - target))
  }

  /** Some running entry lies closer to `target` than `Integer.MAX_VALUE`,
      the distance the search starts from. */
  predicate Reachable(cum: seq<int>, target: int) {
    exists j :: 0 <= j < |cum| && JavaArith.Abs(cum[j] - target) < JavaArith.IntMax
  }

  /** The search state after the first `i` running entries: `best` is the
      smallest distance seen (or `Integer.MAX_VALUE`) and `lalpha` the first
      index attaining it. */
  predicate SearchedUpTo(cum: seq<int>, target: int, i: int, best: int, lalpha: int)
    requires 0 <= i <= |cum|
  {
    && 0 <= lalpha
    && best <= JavaArith.IntMax
    && (best == JavaArith.IntMax ==> lalpha == 0)
    && (best < JavaArith.IntMax ==> lalpha < i && best == JavaArith.Abs(cum[lalpha] - target))
    && (forall j :: 0 <= j < i ==> best <= JavaArith.Abs(cum[j] - target))
    && (forall j :: 0 <= j < lalpha && j < i ==> JavaArith.Abs(cum[j] - target) > best)
  }

  /** Examining entry `i` of `next`, which agrees with `cum` before `i`: it
      becomes the best index when strictly closer to `target` than `best`. */
  lemma SearchStep(cum: seq<int>, next: seq<int>, target: int, i: nat,
                   best: int, lalpha: int, best': int, lalpha': int)
    requires i < |cum| == |next| && SearchedUpTo(cum, target, i, best, lalpha)
    requires forall j :: 0 <= j < i ==> next[j] == cum[j]
    requires JavaArith.Abs(next[i] - target) < best ==> best' == JavaArith.Abs(next[i] - target) && lalpha' == i
    requires JavaArith.Abs(next[i] - target) >= best ==> best' == best && lalpha' == lalpha
    ensures SearchedUpTo(next, target, i + 1, best', lalpha')
  {
  }

  /** After the whole pass the best index is the earliest closest one, or 0
      when no entry is closer than `Integer.MAX_VALUE`. */
  lemma SearchDone(cum: seq<int>, target: int, best: int, lalpha: int)
    requires SearchedUpTo(cum, target, |cum|, best, lalpha)
    ensures Reachable(cum, target) ==> EarliestClosest(cum, target, lalpha)
    ensures !Reachable(cum, target) ==> lalpha == 0
  {
    if Reachable(cum, target) {
      var j :| 0 <= j < |cum| && JavaArith.Abs(cum[j] - target) < JavaArith.IntMax;
      assert best < JavaArith.IntMax;
    }
  }

  /** The source's single pass over the global histogram: it turns the
      histogram into its running sum in place and keeps the first index whose
      distance to `target` is strictly below the best so far (which starts
      at `Integer.MAX_VALUE`). */
  method FindLalpha(h: seq<int>, target: int) returns (cum: seq<int>, lalpha: nat)
    ensures cum == Cumulative(h)
    ensures Reachable(cum, target) ==> EarliestClosest(cum, target, lalpha)
    ensures !Reachable(cum, target) ==> lalpha == 0
  {
    cum := h;
    var best := JavaArith.IntMax;
    lalpha := 0;
    var i := 0;
    while i < |cum|
      invariant 0 <= i <= |cum| == |h|
      invariant RunningUpTo(h, cum, i)
      invariant SearchedUpTo(cum, target, i, best, lalpha)
    {
      ghost var cum0, best0, lalpha0 := cum, best, lalpha;
      RunningStep(h, cum, i);
      if i > 0 {
        cum := cum[i := cum[i] + cum[i - 1]];
      }
      var diff := JavaArith.Abs(cum[i] - target);
      if diff < best {
        best := diff;
        lalpha := i;
      }
      SearchStep(cum0, cum, target, i, best0, lalpha0, best, lalpha);
      i := i + 1;
    }
    RunningDone(h, cum);
    SearchDone(cum, target, best, lalpha);
  }

  /** For a histogram whose mass fits in an `int` and a target within the
      mass, the search always finds its earliest closest index. */
  lemma LalphaFound(h: seq<int>, target: int)
    requires |h| > 0 && NonNegative(h) && Sum(h) < JavaArith.IntMax
    requires 0 <= target <= Sum(h)
    ensures Reachable(Cumulative(h), target)
  {
    CumulativeLast(h);
    assert JavaArith.Abs(Cumulative(h)[|h| - 1] - target) < JavaArith.IntMax;
  }

  // ---------------------------------------------------------------------
  // The pdf-weighted running histogram of one tile.
  // ---------------------------------------------------------------------

  /** The state of the source's step-4 loop before index `i`: the first `i`
      bins are copied into `storedHisto`, `pdfMin`/`pdfMax` are their
      extremes, and they are turned into running sums. */
  predicate StoredUpTo(h: seq<int>, stored: seq<int>, cum: seq<int>, pdfMin: int, pdfMax: int, i: int) {
    && 1 <= i <= |h| == |stored|
    && (forall j :: 0 <= j < i ==> stored[j] == h[j])
    && pdfMin == Min(h[..i]) && pdfMax == Max(h[..i])
    && RunningUpTo(h, cum, i)
  }

  /** One iteration: bin `i` is stored, compared with the extremes so far
      and added to the running sum. */
  lemma StoreStep(h: seq<int>, stored: seq<int>, cum: seq<int>, pdfMin: int, pdfMax: int, i: nat,
                  stored': seq<int>, cum': seq<int>, pdfMin': int, pdfMax': int)
    requires StoredUpTo(h, stored, cum, pdfMin, pdfMax, i) && i < |h|
    requires stored' == stored[i := h[i]] && cum' == cum[i := cum[i] + cum[i - 1]]
    requires pdfMin' == (if h[i] < pdfMin then h[i] else pdfMin)
    requires pdfMax' == (if h[i] > pdfMax then h[i] else pdfMax)
    ensures StoredUpTo(h, stored', cum', pdfMin', pdfMax', i + 1)
  {
    ExtremesStep(h, i);
    RunningStep(h, cum, i);
  }

  /** The loop that copies the redistributed histogram into `storedHisto`,
      tracks its smallest and largest bin (`pdfMin`, `pdfMax`) and turns the
      tile histogram into its running sum. */
  method StoreAndAccumulate(h: seq<int>) returns (stored: seq<int>, cum: seq<int>, pdfMin: int, pdfMax: int)
    requires |h| > 0
    ensures stored == h && cum == Cumulative(h)
    ensures pdfMin == Min(h) && pdfMax == Max(h)
  {
    stored := Zeros(|h|)[0 := h[0]];
    cum := h;
    pdfMin, pdfMax := stored[0], stored[0];
    StoreStart(h);
    var i := 1;
    while i < |h|
      invariant StoredUpTo(h, stored, cum, pdfMin, pdfMax, i)
    {
      ghost var stored0, cum0, pdfMin0, pdfMax0 := stored, cum, pdfMin, pdfMax;
      var v := h[i];
      stored := stored[i := v];
      if v < pdfMin {
        pdfMin := v;
      }
      if v > pdfMax {
        pdfMax := v;
      }
      cum := cum[i := cum[i] + cum[i - 1]];
      StoreStep(h, stored0, cum0, pdfMin0, pdfMax0, i, stored, cum, pdfMin, pdfMax);
      i := i + 1;
    }
    StoreDone(h, stored, cum, pdfMin, pdfMax);
  }

  /** Bin 0 alone: stored, its own extremes and its own running sum. */
  lemma StoreStart(h: seq<int>)
    requires |h| > 0
    ensures StoredUpTo(h, Zeros(|h|)[0 := h[0]], h, h[0], h[0], 1)
  {
    RunningStep(h, h, 0);
    assert h[..1] == [h[0]];
  }

  /** Once every bin is done, the copy is the histogram, the extremes are
      its extremes and the running sums are the cumulative histogram. */
  lemma StoreDone(h: seq<int>, stored: seq<int>, cum: seq<int>, pdfMin: int, pdfMax: int)
    requires StoredUpTo(h, stored, cum, pdfMin, pdfMax, |h|)
    ensures stored == h && cum == Cumulative(h)
    ensures pdfMin == Min(h) && pdfMax == Max(h)
  {
    RunningDone(h, cum);
    assert h[..|h|] == h;
  }

  /** One weight: `pdfMax * ((v - pdfMin) / (pdfMax - pdfMin))` with Java's
      integer division. */
  function WeightOf(v: int, pdfMin: int, pdfMax: int): int
    requires pdfMin != pdfMax
  {
    pdfMax * JavaArith.Div(v - pdfMin, pdfMax - pdfMin)
  }

  /** For a bin between the extremes the integer division is 1 only at the
      maximum, so a weight is `pdfMax` for a maximal bin and 0 otherwise. */
  lemma WeightIsIndicator(v: int, pdfMin: int, pdfMax: int)
    requires pdfMin <= v <= pdfMax && pdfMin < pdfMax
    ensures WeightOf(v, pdfMin, pdfMax) == if v == pdfMax then pdfMax else 0
  {
    var a, n := v - pdfMin, pdfMax - pdfMin;
    if v == pdfMax {
      JavaArith.DivModUnique(a, n, 1, 0);
    } else {
      JavaArith.DivModUnique(a, n, 0, a);
    }
  }

  /** The weights of every bin of a histogram with distinct extremes. */
  function Weights(h: seq<int>): (w: seq<int>)
    requires |h| > 0 && Min(h) < Max(h)
    ensures |w| == |h|
  {
    seq(|h|, b requires 0 <= b < |h| => WeightOf(h[b], Min(h), Max(h)))
  }

  /** The first `n` weights add up to `pdfMax` times the number of maximal
      bins among the first `n`. */
  lemma {:induction false} WeightedPrefix(h: seq<int>, n: nat)
    requires |h| > 0 && Min(h) < Max(h) && n <= |h|
    ensures Sum(Weights(h)[..n]) == Max(h) * Count(h[..n], Max(h))
    decreases n
  {
    if n > 0 {
      var w, m := Weights(h), Max(h);
      WeightedPrefix(h, n - 1);
      WeightIsIndicator(h[n - 1], Min(h), m);
      assert w[..n][..n - 1] == w[..n - 1];
      assert h[..n][..n - 1] == h[..n - 1];
      var k := Count(h[..n - 1], m);
      assert Sum(w[..n]) == m * k + w[n - 1];
      if h[n - 1] == m {
        assert Count(h[..n], m) == k + 1;
        JavaArith.MulSuccessor(m, k);
      } else {
        assert Count(h[..n], m) == k;
      }
    }
  }

  /** The source's `cumulativeHistoWeighted`: the running sum of the weights.
      Entry `b` is `pdfMax` times the number of maximal bins up to `b`; the
      weights divide by `pdfMax - pdfMin`, so a flat histogram faults. */
  function WeightedCumulative(h: seq<int>): (r: Result<seq<int>>)
    requires |h| > 0
    ensures r.Err? <==> Min(h) == Max(h)
    ensures r.Err? ==> r.fault == DivisionByZero
    ensures r.Ok? ==> |r.value| == |h|
    ensures r.Ok? ==> forall b :: 0 <= b < |h| ==> r.value[b] == Max(h) * Count(h[..b + 1], Max(h))
  {
    if Min(h) == Max(h) then Err(DivisionByZero)
    else
      WeightedCumulativeEntries(h);
      Ok(Cumulative(Weights(h)))
  }

  lemma WeightedCumulativeEntries(h: seq<int>)
    requires |h| > 0 && Min(h) < Max(h)
    ensures forall b :: 0 <= b < |h| ==> Cumulative(Weights(h))[b] == Max(h) * Count(h[..b + 1], Max(h))
  {
    var w, m := Weights(h), Max(h);
    forall b | 0 <= b < |h|
      ensures Cumulative(w)[b] == m * Count(h[..b + 1], m)
    {
      assert Cumulative(w)[b] == Sum(w[..b + 1]);
      WeightedPrefix(h, b + 1);
    }
  }

  /** No bin after `b` reaches the histogram's maximum: `b` is at or past the
      last maximal bin. */
  predicate PastLastMaximum(h: seq<int>, b: int)
    requires |h| > 0 && 0 <= b
  {
    forall j :: b < j < |h| ==> h[j] != Max(h)
  }

  /** There is at least one maximal bin, so the weighted total `pdfSum` is
      `pdfMax` times a positive count. */
  lemma MaximumCounted(h: seq<int>)
    requires |h| > 0
    ensures Count(h, Max(h)) >= 1
  {
    CountPrefix(h, 0, Max(h));
    assert h[..0] == [];
  }

  /** The prefix up to `b` holds every maximal bin exactly when `b` is at or
      past the last one. */
  lemma LastMaximumCounted(h: seq<int>, b: int)
    requires |h| > 0 && 0 <= b < |h|
    ensures 0 <= Count(h[..b + 1], Max(h)) <= Count(h, Max(h)) && Count(h, Max(h)) >= 1
    ensures PastLastMaximum(h, b) <==> Count(h[..b + 1], Max(h)) == Count(h, Max(h))
  {
    MaximumCounted(h);
    CountPrefix(h, b + 1, Max(h));
  }

  /** The ratio `cumulativeHistoWeighted[b] / pdfSum` is 1 from the last
      maximal bin on and 0 before it, whenever `pdfSum` is not zero; for
      non-negative counts `pdfSum` is positive. */
  lemma WeightRatio(h: seq<int>, b: int)
    requires |h| > 0 && Min(h) < Max(h) && Max(h) != 0
    requires 0 <= b < |h|
    ensures var cw := WeightedCumulative(h).value;
      && cw[|h| - 1] != 0
      && (NonNegative(h) ==> cw[|h| - 1] > 0)
      && JavaArith.Div(cw[b], cw[|h| - 1]) == if PastLastMaximum(h, b) then 1 else 0
  {
    var m := Max(h);
    var cw := WeightedCumulative(h).value;
    var k, total := Count(h[..b + 1], m), Count(h, m);
    LastMaximumCounted(h, b);
    assert cw[b] == m * k;
    assert cw[|h| - 1] == m * total by {
      assert h[..|h|] == h;
    }
    if NonNegative(h) {
      assert m > 0 by {
        assert h[0] >= Min(h);
      }
    }
    CountRatio(m, k, total);
  }

  /** `(m * k) / (m * total)` for `0 <= k <= total`, `total >= 1` and a
      non-zero `m` of either sign is 1 when all `total` are counted and 0
      otherwise. */
  lemma CountRatio(m: int, k: int, total: int)
    requires m != 0 && 0 <= k <= total && total >= 1
    ensures m * total != 0 && (m > 0 ==> m * total > 0)
    ensures JavaArith.Div(m * k, m * total) == if k == total then 1 else 0
  {
    if m > 0 {
      PositiveCountRatio(m, k, total);
    } else {
      PositiveCountRatio(-m, k, total);
      assert (-m) * k == -(m * k) && (-m) * total == -(m * total);
      JavaArith.DivNegateBoth(m * k, m * total);
    }
  }

  lemma PositiveCountRatio(m: int, k: int, total: int)
    requires m > 0 && 0 <= k <= total && total >= 1
    ensures m * total > 0
    ensures JavaArith.Div(m * k, m * total) == if k == total then 1 else 0
  {
    JavaArith.MulNonNegative(m, k);
    JavaArith.MulNonNegative(m, total - 1);
    JavaArith.MulSuccessor(m, total - 1);
    var x, n := m * k, m * total;
    if k == total {
      JavaArith.DivModUnique(x, n, 1, 0);
    } else {
      JavaArith.MulNonNegative(m, total - k - 1);
      JavaArith.MulSuccessor(m, total - k - 1);
      assert n - x == m * (total - k);
      JavaArith.DivModUnique(x, n, 0, x);
    }
  }

  // ---------------------------------------------------------------------
  // The table entry: T1 or Gamma.
  // ---------------------------------------------------------------------

  /** The exponent of the gamma term, `(1.0 + ratio) / 2.0`. */
  function GammaExponent(ratio: int): real {
    (1.0 + ratio as real) / 2.0
  }

  /** The source's test `range > D * MAX / 100.0`, made in `double`. */
  predicate Wide(range: int, d: int, maxValue: nat) {
    range as real > (d * maxValue) as real / 100.0
  }

  /** In integers the test reads `100 * range > D * MAX`. */
  lemma WideExact(range: int, d: int, maxValue: nat)
    ensures Wide(range, d, maxValue) <==> 100 * range > d * maxValue
  {
  }

  /** The entry for one intensity: `T1` is capped at `maxValue`; a tile whose
      dynamic range exceeds `D` percent of `maxValue` takes `max(T1, Gamma)`,
      any other tile takes `Gamma`. The comparison is made in `double`. */
  function Select(t1Raw: int, gamma: int, range: int, d: int, maxValue: nat): (entry: int)
    ensures 100 * range > d * maxValue ==>
      entry == (if t1Raw > maxValue then maxValue else t1Raw) || entry == gamma
    ensures 100 * range > d * maxValue ==>
      entry >= gamma && entry >= (if t1Raw > maxValue then maxValue else t1Raw)
    ensures 100 * range <= d * maxValue ==> entry == gamma
  {
    var t1 := if t1Raw > maxValue then maxValue else t1Raw;
    WideExact(range, d, maxValue);
    if Wide(range, d, maxValue) then
      if t1 >= gamma then t1 else gamma
    else gamma
  }

  /** Whatever `T1` is, an entry stays in `[0, maxValue]` when `Gamma` does. */
  lemma SelectInRange(t1Raw: int, gamma: int, range: int, d: int, maxValue: nat)
    requires 0 <= gamma <= maxValue
    ensures 0 <= Select(t1Raw, gamma, range, d, maxValue) <= maxValue
  {
  }

  /** Every `Gamma` term the source evaluates lies in `[0, maxValue]`: an
      intensity in `0..maxValue` at one of the two exponents the integer
      ratio allows, `1/2` and `1`. */
  ghost predicate GammaBounded(gammaOf: (int, real) -> int, maxValue: nat) {
    forall v: int, e: real :: 0 <= v <= maxValue && (e == 0.5 || e == 1.0) ==> 0 <= gammaOf(v, e) <= maxValue
  }

  /** The exponent of the gamma term is `1/2` or `1`. */
  lemma ExponentUsed(h: seq<int>, v: int)
    requires |h| > 0 && Min(h) < Max(h) && Max(h) != 0 && 0 <= v < |h|
    ensures var cw := WeightedCumulative(h).value;
      cw[|h| - 1] != 0
      && GammaExponent(JavaArith.Div(cw[v], cw[|h| - 1])) == if PastLastMaximum(h, v) then 1.0 else 0.5
  {
    WeightRatio(h, v);
  }

  /** The per-tile map of the dual-gamma variant over the redistributed
      histogram `h`. `t1[v]` is the already-cast `T1` term of intensity `v`
      and `gammaOf(v, e)` the already-cast `Gamma` term with exponent `e`;
      both come from floating-point formulas outside the model. The weights
      divide by `pdfMax - pdfMin` and the ratio by `pdfSum`, so a flat
      histogram or a zero weighted total faults. */
  function DgcTable(h: seq<int>, range: int, d: int, maxValue: nat, t1: seq<int>, gammaOf: (int, real) -> int): (r: Result<seq<int>>)
    requires |h| > 0 && |t1| == |h|
    ensures r.Err? <==> Min(h) == Max(h) || Max(h) == 0
    ensures r.Err? ==> r.fault == DivisionByZero
    ensures r.Ok? ==> |r.value| == |h|
    ensures r.Ok? && |h| == maxValue + 1 && GammaBounded(gammaOf, maxValue) ==> InRange(r.value, 0, maxValue)
  {
    match WeightedCumulative(h)
    case Err(f) => Err(f)
    case Ok(cw) =>
      var pdfSum := cw[|h| - 1];
      PdfSumZero(h);
      if pdfSum == 0 then Err(DivisionByZero)
      else
        var entries := seq(|h|, v requires 0 <= v < |h| =>
          Select(t1[v], gammaOf(v, GammaExponent(JavaArith.Div(cw[v], pdfSum))), range, d, maxValue));
        assert |h| == maxValue + 1 && GammaBounded(gammaOf, maxValue) ==> InRange(entries, 0, maxValue) by {
          if |h| == maxValue + 1 && GammaBounded(gammaOf, maxValue) {
            forall v | 0 <= v < |h|
              ensures 0 <= entries[v] <= maxValue
            {
              EntryInRange(h, range, d, maxValue, t1, gammaOf, v);
            }
          }
        }
        Ok(entries)
  }

  /** The weighted total `pdfSum` is zero exactly when the maximal count is. */
  lemma PdfSumZero(h: seq<int>)
    requires |h| > 0 && Min(h) < Max(h)
    ensures WeightedCumulative(h).value[|h| - 1] == 0 <==> Max(h) == 0
  {
    if Max(h) != 0 {
      WeightRatio(h, 0);
    } else {
      assert WeightedCumulative(h).value[|h| - 1] == 0 * Count(h[..|h|], 0);
    }
  }

  /** With `Gamma` in range at the exponents it is used with, an entry built
      from a non-zero `pdfSum` lies in `[0, maxValue]`. */
  lemma EntryInRange(h: seq<int>, range: int, d: int, maxValue: nat, t1: seq<int>, gammaOf: (int, real) -> int, v: int)
    requires |h| > 0 && |t1| == |h| && Min(h) < Max(h) && Max(h) != 0 && 0 <= v < |h|
    requires |h| == maxValue + 1 && GammaBounded(gammaOf, maxValue)
    ensures var cw := WeightedCumulative(h).value;
      && cw[|h| - 1] != 0
      && 0 <= Select(t1[v], gammaOf(v, GammaExponent(JavaArith.Div(cw[v], cw[|h| - 1]))), range, d, maxValue) <= maxValue
  {
    var cw := WeightedCumulative(h).value;
    ExponentUsed(h, v);
    SelectInRange(t1[v], gammaOf(v, GammaExponent(JavaArith.Div(cw[v], cw[|h| - 1]))), range, d, maxValue);
  }

  /** Entry `v` of a table that exists is `Select` applied to the gamma
      term at exponent `(1 + cw[v] / pdfSum) / 2`. */
  lemma DgcTableEntry(h: seq<int>, range: int, d: int, maxValue: nat, t1: seq<int>, gammaOf: (int, real) -> int, v: int)
    requires |h| > 0 && |t1| == |h| && Min(h) < Max(h) && Max(h) != 0 && 0 <= v < |h|
    ensures var cw := WeightedCumulative(h).value;
      && cw[|h| - 1] != 0
      && DgcTable(h, range, d, maxValue, t1, gammaOf).Ok?
      && DgcTable(h, range, d, maxValue, t1, gammaOf).value[v]
         == Select(t1[v], gammaOf(v, GammaExponent(JavaArith.Div(cw[v], cw[|h| - 1]))), range, d, maxValue)
  {
    WeightRatio(h, v);
  }

  /** For counts that are not all equal and whose maximum is not zero the
      table exists, and each entry uses exponent 1 at and after the last
      maximal bin and 1/2 before it. */
  lemma DgcTableExponents(h: seq<int>, range: int, d: int, maxValue: nat, t1: seq<int>, gammaOf: (int, real) -> int)
    requires |h| > 0 && |t1| == |h| && Min(h) < Max(h) && Max(h) != 0
    ensures DgcTable(h, range, d, maxValue, t1, gammaOf).Ok?
    ensures forall v :: 0 <= v < |h| ==>
      (DgcTable(h, range, d, maxValue, t1, gammaOf).value[v]
       == Select(t1[v], gammaOf(v, if PastLastMaximum(h, v) then 1.0 else 0.5), range, d, maxValue))
  {
    DgcTableEntry(h, range, d, maxValue, t1, gammaOf, 0);
    forall v | 0 <= v < |h|
      ensures DgcTable(h, range, d, maxValue, t1, gammaOf).value[v]
        == Select(t1[v], gammaOf(v, if PastLastMaximum(h, v) then 1.0 else 0.5), range, d, maxValue)
    {
      DgcTableEntry(h, range, d, maxValue, t1, gammaOf, v);
      ExponentUsed(h, v);
    }
  }

  /** The table as written need not be monotone. In a narrow tile the entry
      just before the last maximal bin `k` takes `Gamma` at exponent 1/2 and
      the entry at `k` takes it at exponent 1, so whenever the first gamma
      term exceeds the second the map steps down at `k`. */
  lemma DgcTableDecreasesAtLastMaximum(h: seq<int>, range: int, d: int, maxValue: nat, t1: seq<int>,
                                       gammaOf: (int, real) -> int, k: int)
    requires |h| > 0 && |t1| == |h| && Min(h) < Max(h) && Max(h) != 0
    requires 1 <= k < |h| && h[k] == Max(h) && PastLastMaximum(h, k)
    requires 100 * range <= d * maxValue
    requires gammaOf(k - 1, 0.5) > gammaOf(k, 1.0)
    ensures DgcTable(h, range, d, maxValue, t1, gammaOf).Ok?
    ensures DgcTable(h, range, d, maxValue, t1, gammaOf).value[k - 1]
      > DgcTable(h, range, d, maxValue, t1, gammaOf).value[k]
  {
    DgcTableExponents(h, range, d, maxValue, t1, gammaOf);
    assert !PastLastMaximum(h, k - 1);
  }

  /** Ten bins whose only maximal count sits at intensity 4. */
  const ExampleBins: seq<int> := [1, 1, 1, 1, 5, 1, 1, 1, 1, 1]

  /** The gamma terms of `Lmax == 9` over `0..9` in exact arithmetic:
      `floor(9 * sqrt(v / 9)) == floor(sqrt(9 * v))` at exponent 1/2 and
      `9 * (v / 9) == v` at exponent 1. */
  function ExampleGamma(v: int, e: real): int {
    if e == 0.5 && 0 <= v < 10 then [0, 3, 4, 5, 6, 6, 7, 7, 8, 9][v] else v
  }

  lemma ExampleBinsFacts()
    ensures |ExampleBins| == 10 && Min(ExampleBins) == 1 && Max(ExampleBins) == 5
    ensures ExampleBins[4] == Max(ExampleBins) && PastLastMaximum(ExampleBins, 4)
  {
    var h := ExampleBins;
    assert Max(h) == 5 by {
      assert h[4] <= Max(h);
      var i :| 0 <= i < |h| && h[i] == Max(h);
      assert h[i] <= 5;
    }
    assert Min(h) == 1 by {
      assert Min(h) <= h[0];
      var i :| 0 <= i < |h| && h[i] == Min(h);
      assert h[i] >= 1;
    }
  }

  /** A concrete instance: a tile of range 0 with `D == 0` and the bins and
      gamma terms above. The map holds 5 at intensity 3 and 4 at intensity 4. */
  lemma DgcTableDecreasingExample()
    ensures var r := DgcTable(ExampleBins, 0, 0, 9, Zeros(10), ExampleGamma);
      r.Ok? && r.value[3] == 5 && r.value[4] == 4
  {
    ExampleBinsFacts();
    DgcTableExponents(ExampleBins, 0, 0, 9, Zeros(10), ExampleGamma);
    assert !PastLastMaximum(ExampleBins, 3);
  }
}
