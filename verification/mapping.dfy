/** Step 4 of CLAHE and ACLAHE: the per-tile equalization map
    `table[v] = (int) (tileMax / pixelsPerBlock * cum[v])`. */
module Mapping {
  import opened SeqMath
  import opened Histograms
  import JavaArith

  /** One map entry: the `double` factor `scale / pixels` times the running
      count, cast to `int`. The factor's divisor is a power of two at the
      source's image size, so the product is exact and the real-valued model
      matches it; the entry is then the floor of `scale * cum / pixels`. */
  function HeEntry(scale: int, pixels: nat, cum: int): (t: int)
    requires pixels > 0
    ensures scale >= 0 && cum >= 0 ==> t == scale * cum / pixels
  {
    var x := scale as real / pixels as real * cum as real;
    assert x == (scale * cum) as real / pixels as real;
    if scale >= 0 && cum >= 0 then
      JavaArith.TruncQuotient(scale * cum, pixels);
      JavaArith.Trunc(x)
    else JavaArith.Trunc(x)
  }

  /** The equalization table over every intensity of a (clipped,
      redistributed) histogram. */
  function HeTable(h: seq<int>, scale: int, pixels: nat): (t: seq<int>)
    requires pixels > 0
    ensures |t| == |h|
  {
    var cum := Cumulative(h);
    seq(|h|, v requires 0 <= v < |h| => HeEntry(scale, pixels, cum[v]))
  }

  /** When the histogram holds no more than `pixels` counts, every entry lies
      in `[0, scale]`: the tile's maximum bounds its map. */
  lemma HeTableBounds(h: seq<int>, scale: int, pixels: nat)
    requires pixels > 0 && NonNegative(h) && Sum(h) <= pixels && scale >= 0
    ensures forall v :: 0 <= v < |h| ==> 0 <= HeTable(h, scale, pixels)[v] <= scale
  {
    forall v | 0 <= v < |h|
      ensures 0 <= HeTable(h, scale, pixels)[v] <= scale
    {
      CumulativeMonotone(h, v, v);
      HeEntryBounds(scale, pixels, Cumulative(h)[v]);
    }
  }

  /** A running count within `[0, pixels]` maps into `[0, scale]`. */
  lemma HeEntryBounds(scale: int, pixels: nat, cum: int)
    requires pixels > 0 && scale >= 0 && 0 <= cum <= pixels
    ensures 0 <= HeEntry(scale, pixels, cum) <= scale
  {
    JavaArith.MulNonNegative(scale, cum);
    JavaArith.MulNonNegative(scale, pixels - cum);
    assert scale * pixels == scale * cum + scale * (pixels - cum);
    JavaArith.DivBetween(scale * cum, pixels, 0, scale);
  }

  /** The table is non-decreasing in the intensity. */
  lemma HeTableMonotone(h: seq<int>, scale: int, pixels: nat, v: int, w: int)
    requires pixels > 0 && NonNegative(h) && scale >= 0
    requires 0 <= v <= w < |h|
    ensures HeTable(h, scale, pixels)[v] <= HeTable(h, scale, pixels)[w]
  {
    var cv, cw := Cumulative(h)[v], Cumulative(h)[w];
    CumulativeMonotone(h, v, w);
    assert scale * (cw - cv) >= 0;
    JavaArith.DivMonotone(scale * cv, scale * cw, pixels);
  }

  /** When the histogram holds exactly `pixels` counts, the top intensity
      maps to `scale`. */
  lemma HeTableTop(h: seq<int>, scale: int, pixels: nat)
    requires pixels > 0 && |h| > 0 && NonNegative(h) && Sum(h) == pixels && scale >= 0
    ensures HeTable(h, scale, pixels)[|h| - 1] == scale
  {
    CumulativeLast(h);
    JavaArith.DivBetween(scale * pixels, pixels, scale, scale);
  }
}
