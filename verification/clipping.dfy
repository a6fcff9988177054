/** Step 3: clipping each tile's histogram at the limit `B` and handing the
    clipped mass back, in equal whole shares, to every bin. */
module Clipping {
  import opened SeqMath
  import JavaArith

  /** The clipped histogram: a count above `limit` is cut to `limit`. */
  function Clip(h: seq<int>, limit: int): (c: seq<int>)
    ensures |c| == |h|
  {
    seq(|h|, v requires 0 <= v < |h| => if h[v] > limit then limit else h[v])
  }

  /** How far each bin rises above `limit`: `max(0, h[v] - limit)`. */
  function Overflow(h: seq<int>, limit: int): (o: seq<int>)
    ensures |o| == |h|
  {
    seq(|h|, v requires 0 <= v < |h| => if h[v] > limit then h[v] - limit else 0)
  }

  /** The total mass above the limit, `Σ max(0, h[v] - limit)`. */
  function Excess(h: seq<int>, limit: int): int {
    Sum(Overflow(h, limit))
  }

  /** The source's clip loop over the bins of one tile. */
  method ClipLoop(h: seq<int>, limit: int) returns (c: seq<int>, totalClipped: int)
    ensures |c| == |h|
    ensures forall v :: 0 <= v < |h| ==> c[v] <= limit
    ensures forall v :: 0 <= v < |h| && h[v] <= limit ==> c[v] == h[v]
    ensures forall v :: 0 <= v < |h| && h[v] > limit ==> c[v] == limit
    ensures totalClipped == Excess(h, limit) >= 0
    ensures Sum(c) + totalClipped == Sum(h)
  {
    c, totalClipped := h, 0;
    var v := 0;
    while v < |h|
      invariant 0 <= v <= |h| == |c|
      invariant forall j :: 0 <= j < v ==> c[j] == Clip(h, limit)[j]
      invariant forall j :: v <= j < |h| ==> c[j] == h[j]
      invariant totalClipped == Sum(Overflow(h, limit)[..v])
      invariant totalClipped >= 0
    {
      assert Overflow(h, limit)[..v + 1][..v] == Overflow(h, limit)[..v];
      var count := c[v];
      if count > limit {
        totalClipped := totalClipped + (count - limit);
        c := c[v := limit];
      }
      v := v + 1;
    }
    assert Overflow(h, limit)[..|h|] == Overflow(h, limit);
    assert c == Clip(h, limit);
    ClipMass(h, limit);
  }

  /** Clipping removes exactly the excess: what stays plus what was cut is
      the original mass. */
  lemma ClipMass(h: seq<int>, limit: int)
    ensures Sum(Clip(h, limit)) + Excess(h, limit) == Sum(h)
    ensures Excess(h, limit) >= 0
  {
    SumPointwise(Clip(h, limit), Overflow(h, limit), h);
    NonNegativeSum(Overflow(h, limit));
  }

  /** Clipping followed by redistribution of `totalClipped / bins` (Java
      integer division) to every bin. */
  function Redistribute(h: seq<int>, limit: int): (r: seq<int>)
    requires |h| > 0
    ensures |r| == |h|
  {
    AddEach(Clip(h, limit), JavaArith.Div(Excess(h, limit), |h|))
  }

  /** Every bin receives the same share, `totalClipped / bins`, on top of its
      clipped count; no bin ends above `limit` plus that share. */
  lemma RedistributeShares(h: seq<int>, limit: int)
    requires |h| > 0
    ensures var share := Excess(h, limit) / |h|;
      && share >= 0
      && (forall v :: 0 <= v < |h| ==> Redistribute(h, limit)[v] <= limit + share)
      && (forall v :: 0 <= v < |h| && h[v] <= limit ==> Redistribute(h, limit)[v] == h[v] + share)
      && (forall v :: 0 <= v < |h| && h[v] > limit ==> Redistribute(h, limit)[v] == limit + share)
  {
    ClipMass(h, limit);
  }

  /** Redistribution never creates mass: the new mass is the old mass minus
      `totalClipped % bins`, so at most `bins - 1` counts are lost. */
  lemma RedistributeMass(h: seq<int>, limit: int)
    requires |h| > 0
    ensures Sum(Redistribute(h, limit)) == Sum(h) - Excess(h, limit) % |h|
    ensures Sum(h) - (|h| - 1) <= Sum(Redistribute(h, limit)) <= Sum(h)
  {
    var n, e := |h|, Excess(h, limit);
    ClipMass(h, limit);
    var q, r := e / n, e % n;
    assert JavaArith.Div(e, n) == q;
    assert Redistribute(h, limit) == AddEach(Clip(h, limit), q);
    SumAddEach(Clip(h, limit), q);
    JavaArith.Euclid(e, n);
    assert Sum(Redistribute(h, limit)) == Sum(h) - e + n * q;
  }

  /** A histogram with no bin above the limit passes through unchanged. */
  lemma NoClipIdentity(h: seq<int>, limit: int)
    requires |h| > 0
    requires forall v :: 0 <= v < |h| ==> h[v] <= limit
    ensures Redistribute(h, limit) == h
  {
    assert Overflow(h, limit) == Zeros(|h|);
    SumZeros(|h|);
    assert Clip(h, limit) == h;
  }

  /** A uniform tile has no dynamic range; the source's `(int)` cast of the
      infinite limit `M/0 * (...)` yields `Integer.MAX_VALUE`, and a tile with
      at most that many pixels is then left unclipped. */
  lemma UniformTileUnclipped(h: seq<int>)
    requires |h| > 0 && NonNegative(h) && Sum(h) <= JavaArith.IntMax
    ensures Redistribute(h, JavaArith.IntMax) == h
  {
    forall v | 0 <= v < |h|
      ensures h[v] <= JavaArith.IntMax
    {
      ElementBelowSum(h, v);
    }
    NoClipIdentity(h, JavaArith.IntMax);
  }

  /** With a non-negative limit, redistributed counts stay non-negative. */
  lemma RedistributeNonNegative(h: seq<int>, limit: int)
    requires |h| > 0 && NonNegative(h) && limit >= 0
    ensures NonNegative(Redistribute(h, limit))
  {
    ClipMass(h, limit);
    var share := JavaArith.Div(Excess(h, limit), |h|);
    JavaArith.DivMonotone(0, Excess(h, limit), |h|);
    assert share >= 0;
    var c := Clip(h, limit);
    forall v | 0 <= v < |h|
      ensures Redistribute(h, limit)[v] >= 0
    {
      assert c[v] >= 0;
      assert Redistribute(h, limit)[v] == c[v] + share;
    }
  }
}
