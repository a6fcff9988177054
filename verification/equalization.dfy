/** Global histogram equalization: one map for the whole image, built from
    the image's histogram and scaled by the intensity maximum. */
module Equalization {
  import opened SeqMath
  import opened Histograms
  import opened Tiling
  import opened Mapping
  import JavaArith

  /** The samples of the whole image in the source's scan order. */
  lemma ImageSamples(img: seq<seq<int>>, size: nat, maxValue: nat)
    requires IsSampleImage(img, size, maxValue)
    ensures |Flatten(img)| == size * size
    ensures InRange(Flatten(img), 0, maxValue)
  {
    FlattenLength(img, size);
    FlattenInRange(img, 0, maxValue);
  }

  /** The image histogram over `0..maxValue`; it holds one count per pixel. */
  function ImageHistogram(img: seq<seq<int>>, size: nat, maxValue: nat): (h: seq<int>)
    requires IsSampleImage(img, size, maxValue)
    ensures |h| == maxValue + 1
    ensures Sum(h) == size * size && NonNegative(h)
  {
    ImageSamples(img, size, maxValue);
    HistogramMass(Flatten(img), maxValue + 1);
    HistogramCounts(Flatten(img), maxValue + 1);
    Histogram(Flatten(img), maxValue + 1)
  }

  /** The global map `(int) (maxValue / size^2 * cum[v])`. */
  function EqualizationTable(img: seq<seq<int>>, size: nat, maxValue: nat): (t: seq<int>)
    requires size > 0 && IsSampleImage(img, size, maxValue)
    ensures |t| == maxValue + 1
  {
    HeTable(ImageHistogram(img, size, maxValue), maxValue, size * size)
  }

  /** Every pixel replaced by the map entry of its intensity. The result is
      again an image over `0..maxValue`. */
  function Equalize(img: seq<seq<int>>, size: nat, maxValue: nat): (out: seq<seq<int>>)
    requires size > 0 && IsSampleImage(img, size, maxValue)
    ensures IsSampleImage(out, size, maxValue)
  {
    var t := EqualizationTable(img, size, maxValue);
    HeTableBounds(ImageHistogram(img, size, maxValue), maxValue, size * size);
    seq(size, c requires 0 <= c < size =>
      seq(size, r requires 0 <= r < size => t[img[c][r]]))
  }

  /** The rank form of equalization: a pixel's new value is `maxValue` times
      the fraction of pixels at or below its intensity, rounded down. */
  lemma EqualizeRank(img: seq<seq<int>>, size: nat, maxValue: nat, c: nat, r: nat)
    requires size > 0 && IsSampleImage(img, size, maxValue)
    requires c < size && r < size
    ensures Equalize(img, size, maxValue)[c][r]
      == maxValue * CountBelow(Flatten(img), img[c][r] + 1) / (size * size)
  {
    JavaArith.MulBothPositive(size, size);
    var pixels := size * size;
    var v := img[c][r];
    var cum := EqualizedAt(img, size, maxValue, c, r);
    assert HeEntry(maxValue, pixels, cum) == maxValue * cum / pixels;
  }

  /** A pixel of the equalized image is the map entry at the running count of
      its intensity, which counts the pixels at or below it. */
  lemma EqualizedAt(img: seq<seq<int>>, size: nat, maxValue: nat, c: nat, r: nat) returns (cum: nat)
    requires size > 0 && IsSampleImage(img, size, maxValue)
    requires c < size && r < size
    ensures size * size > 0
    ensures cum == CountBelow(Flatten(img), img[c][r] + 1)
    ensures Equalize(img, size, maxValue)[c][r] == HeEntry(maxValue, size * size, cum)
  {
    JavaArith.MulBothPositive(size, size);
    ImageSamples(img, size, maxValue);
    var v, h := img[c][r], ImageHistogram(img, size, maxValue);
    CumulativeCountsAtMost(Flatten(img), maxValue + 1, v);
    cum := CountBelow(Flatten(img), v + 1);
    assert Cumulative(h)[v] == cum;
    assert Equalize(img, size, maxValue)[c][r] == EqualizationTable(img, size, maxValue)[v];
  }

  /** Equalization never reverses the order of two intensities. */
  lemma EqualizeMonotone(img: seq<seq<int>>, size: nat, maxValue: nat, c1: nat, r1: nat, c2: nat, r2: nat)
    requires size > 0 && IsSampleImage(img, size, maxValue)
    requires c1 < size && r1 < size && c2 < size && r2 < size
    requires img[c1][r1] <= img[c2][r2]
    ensures Equalize(img, size, maxValue)[c1][r1] <= Equalize(img, size, maxValue)[c2][r2]
  {
    HeTableMonotone(ImageHistogram(img, size, maxValue), maxValue, size * size, img[c1][r1], img[c2][r2]);
  }

  /** The brightest pixels of the image are mapped to `maxValue` exactly. */
  lemma EqualizeBrightest(img: seq<seq<int>>, size: nat, maxValue: nat, c: nat, r: nat)
    requires size > 0 && IsSampleImage(img, size, maxValue)
    requires c < size && r < size
    requires forall c', r' :: 0 <= c' < size && 0 <= r' < size ==> img[c'][r'] <= img[c][r]
    ensures Equalize(img, size, maxValue)[c][r] == maxValue
  {
    var s := Flatten(img);
    ImageSamples(img, size, maxValue);
    forall k | 0 <= k < |s|
      ensures s[k] < img[c][r] + 1
    {
      FlattenFrom(img, k);
    }
    CountBelowAll(s, img[c][r] + 1);
    EqualizeRank(img, size, maxValue, c, r);
    JavaArith.DivBetween(maxValue * (size * size), size * size, maxValue, maxValue);
  }
}
