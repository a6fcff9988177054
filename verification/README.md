# Tiled contrast enhancement: a Dafny model of the integer core

The repository enhances the brightness channel of a 512 x 512 image with
four transforms:

- global histogram equalization (`HistogramEqualization`);
- CLAHE, contrast-limited adaptive histogram equalization (`CLAHE`);
- its adaptive-limit variant (`ACLAHE`), which has 256 fixed bins and a
  text-field "Execute" button;
- the dual-gamma-corrected variant (`ACLAHEwDGC2`).

The three tiled transforms share five stages, and the model states each
stage once:

1. **Decomposition** (`Tiling`): the image is cut into `blockSize x blockSize`
   tiles. Pixel `(c, r)` goes to tile `(c / side, r / side)` at offset
   `(c % side, r % side)`.
2. **Tile statistics** (`Statistics`, `Histograms`): one pass over a tile builds
   its histogram over `0..MAX`, its minimum and maximum (starting from the
   `Integer.MAX_VALUE` and `Integer.MIN_VALUE` sentinels) and its integer
   average.
3. **Clipping and redistribution** (`Clipping`):
   - every bin is cut at the clip limit `B`;
   - the clipped mass, divided by the bin count in Java integer division, is
     added back to every bin.
4. **Mapping** (`Mapping`, `DualGamma`): the running histogram becomes the
   map `(int) (tileMax / pixelsPerBlock * cum[v])`. The dual-gamma variant
   instead picks, per intensity, between a capped `T1` term and a `Gamma`
   term. The exponent of `Gamma` comes from a pdf-weighted running histogram.
5. **Bilinear interpolation** (`Interpolation`): each pixel blends the maps of
   the two nearest tiles along each axis, weighted by its distance to their
   centres, and truncates the blend to `int`.

`Pipeline` assembles the transforms. `Equalization` is the global,
single-map transform. `Parameters` is the adaptive variant's Execute
listener. `JavaArith` writes out Java's integer operations:

- truncating `/` and `%`;
- the `(int)` cast of a `double`;
- the `int` limits.

Doubles are modelled as exact reals. At the fixed image size, every block
size that divides 512 gives a power-of-two tile area. The `heFactor`
products and the interpolation weights are therefore dyadic, and the real
model agrees with the code.

Inputs that come from floating-point formulas are parameters of the model:

- the clip limit `B` of every tile is an integer grid `limits`;
- the already-cast `T1` terms are the grids `t1s`;
- the already-cast `Gamma` term is a function `gammaOf(intensity, exponent)`.

The model computes the exponent that feeds `gammaOf` from the integer code.
Whether a re-run of the transform exhausts the Java heap depends on the
heap size. It is the parameter `heapExhausted(blockSize)` of the Execute
listener.

Runtime faults are values (`Outcomes.Result`):

- a sample outside the histogram is `IndexOutOfBounds`;
- the weighted histogram's division by `pdfMax - pdfMin` or by `pdfSum` is
  `DivisionByZero`;
- a text field that does not parse is `None`;
- an `OutOfMemoryError`, which the listener's `catch (Exception err)` does
  not catch, is the `escaped` flag of `Parameters.Response`.

## Model

| member | source | states |
|---|---|---|
| Tiling.TileOf | src/transformations/CLAHE.java:106-107 | the tile index of any coordinate of the image is a valid tile of the grid |
| Tiling.PixelOf | src/transformations/CLAHE.java:103-114 | every (tile, offset) slot names a pixel inside the image whose tile and offset are that slot |
| Tiling.SlotRoundTrip | src/transformations/CLAHE.java:103-114 | every pixel is recovered from its own tile and offset, so the slots and the pixels correspond one-to-one and the tiles partition the image |
| Tiling.CutPlacesPixel | src/transformations/CLAHE.java:100-114 | the cut image has the grid's shape and holds pixel `(c, r)` at `[c/side][r/side][c%side][r%side]` |
| Tiling.TileSamplesShape | src/transformations/CLAHE.java:133-136 | a tile contributes exactly `side * side` samples (`pixelsPerBock`), all within the image's intensity domain |
| Histograms.CheckedHistogram | src/transformations/ACLAHE.java:160-182 | building a histogram succeeds exactly when every sample indexes one of the bins, else it is an index fault; bin `v` then counts the samples equal to `v` and the bins sum to the sample count |
| Histograms.HistogramCounts | src/transformations/CLAHE.java:133-141 | after the counting loop, bin `v` holds the number of samples equal to `v` |
| Histograms.HistogramMass | src/transformations/CLAHE.java:133-149 | each sample lands in exactly one bin, so a tile histogram sums to its pixel count |
| Histograms.HistogramPrefix | src/transformations/HistogramEqualization.java:30-43 | the first `k` bins together count the samples below `k` |
| Statistics.ScanTile | src/transformations/ACLAHE.java:163-191 | the one-pass scan, starting from the `MAX_VALUE`/`MIN_VALUE` sentinels, yields the histogram, the true minimum and maximum and `sum / pixels`, with `min <= avg <= max` |
| Statistics.Stats | src/transformations/CLAHE.java:125-146 | every sample of a tile lies between its minimum and maximum, both are attained, and the histogram is non-negative with one count per sample |
| Statistics.AverageBetween | src/transformations/ACLAHE.java:185-191 | the integer average of a tile lies between its minimum and maximum |
| Clipping.ClipLoop | src/transformations/CLAHE.java:173-182 | after the clip loop every bin is `<= B`, bins already `<= B` are unchanged, others equal `B`, and `totalClipped` is `Σ max(0, h[v] - B)`, which is exactly the mass removed |
| Clipping.ClipMass | src/transformations/ACLAHE.java:248-257 | clipped counts plus the clipped total equal the original mass, and the clipped total is non-negative |
| Clipping.RedistributeShares | src/transformations/CLAHE.java:185-190 | every bin receives the same non-negative share `totalClipped / bins` on top of its clipped count, so no bin ends above `B` plus that share |
| Clipping.RedistributeMass | src/transformations/ACLAHE.java:260-265 | the redistributed mass is the old mass minus `totalClipped % bins`: it never grows and loses at most `bins - 1` |
| Clipping.NoClipIdentity | src/transformations/CLAHE.java:173-190 | a histogram with no bin above `B` leaves clipping and redistribution unchanged |
| Clipping.UniformTileUnclipped | src/transformations/CLAHE.java:166-167 | at the limit `Integer.MAX_VALUE`, which the cast of the infinite limit of a uniform tile yields, a tile is left unclipped |
| Clipping.RedistributeNonNegative | src/transformations/ACLAHEwDGC2.java:241-258 | with a non-negative `B`, the redistributed counts stay non-negative |
| Histograms.RunningSum | src/transformations/CLAHE.java:201-203 | the in-place loop `h[i] += h[i-1]` produces the cumulative histogram, whose last entry is the total mass |
| Histograms.CumulativeMonotone | src/transformations/HistogramEqualization.java:41-43 | over non-negative bins the running histogram is non-decreasing and lies between 0 and the total mass |
| Histograms.CumulativeLast | src/transformations/ACLAHE.java:276-277 | the last running entry is the histogram's whole mass |
| Histograms.CumulativeCountsAtMost | src/transformations/HistogramEqualization.java:30-43 | running entry `v` of an image histogram counts the samples `<= v` |
| JavaArith.TruncQuotient | src/transformations/CLAHE.java:209-213 | the `(int)` cast of an exact non-negative quotient is the floor of that quotient |
| Mapping.HeEntry | src/transformations/CLAHE.java:209-213 | for non-negative operands a map entry is `floor(tileMax * cum / pixelsPerBlock)` |
| Mapping.HeTableBounds | src/transformations/CLAHE.java:206-214 | when the histogram holds at most the pixel count, every map entry lies in `[0, tileMax]` |
| Mapping.HeTableMonotone | src/transformations/ACLAHE.java:281-289 | the map is non-decreasing in the intensity |
| Mapping.HeTableTop | src/transformations/HistogramEqualization.java:41-55 | when the histogram holds exactly the pixel count, the top intensity maps to the full scale |
| Interpolation.Neighbours | src/transformations/CLAHE.java:243-264 | the two tiles blended on an axis are equal or adjacent and on the grid, one is the pixel's own tile, and when they differ the pixel lies between their centres; when they coincide the pixel lies before the first centre or after the last |
| Interpolation.WeightRange | src/transformations/CLAHE.java:267-274 | the weight `m` is 0 for a clamped pair and otherwise in `(0, 1]`, and `m * side` is the distance to the second centre |
| Interpolation.BlendBetween | src/transformations/CLAHE.java:283 | with weights in `[0, 1]` the bilinear blend stays within any bounds the four lookups share |
| Interpolation.OutputPixel | src/transformations/CLAHE.java:277-283 | the truncated blend lies between the smallest and the largest of `Ta..Td` |
| Interpolation.WeightAtOwnCenter | src/transformations/CLAHE.java:239-273 | a coordinate at its tile's centre pairs its own tile first, at full weight |
| Interpolation.CenterPixelUsesOwnTable | src/transformations/ACLAHEwDGC2.java:359-399 | at a tile centre on both axes, the output is exactly the own tile's map value |
| Interpolation.SingleTilePixel | src/transformations/ACLAHE.java:318-358 | with one tile, all four lookups hit tile `(0, 0)`, and the output is exactly that tile's map value |
| Pipeline.TileStatsOf | src/transformations/CLAHE.java:133-149 | a tile histogram has `MAX + 1` non-negative bins summing to `pixelsPerBock`, and `0 <= min <= max <= MAX` |
| Pipeline.TileStatsBound | src/transformations/CLAHE.java:125-146 | every sample of a tile lies between that tile's minimum and maximum |
| Pipeline.ClaheTileTableBounds | src/transformations/CLAHE.java:163-214 | with `B >= 0`, a tile's clipped map is non-decreasing and within `[0, tileMax]` |
| Pipeline.ClaheInRange | src/transformations/CLAHE.java:222-283 | with non-negative clip limits, every CLAHE output pixel lies in `[0, MAX]` |
| Pipeline.BlendedInRange | src/transformations/ACLAHE.java:296-358 | blending maps that lie in `[0, MAX]` gives an image in `[0, MAX]` |
| Pipeline.ClaheAtTileCenter | src/transformations/CLAHE.java:229-283 | a pixel at its tile's centre takes exactly its own tile's clipped map value |
| Pipeline.ClaheSingleTile | src/transformations/ACLAHE.java:304-358 | with one tile, CLAHE applies one clipped global map to every pixel |
| Pipeline.SingleTableIsEqualization | src/transformations/CLAHE.java:198-214 | the single tile's map is the global equalization map when no bin of the image histogram exceeds `B` and the image reaches `MAX` |
| Pipeline.SingleTileReachesTop | src/transformations/CLAHE.java:143-145 | the single tile of an image that reaches `MAX` has maximum `MAX` |
| Pipeline.ClaheSingleTileIsEqualization | src/transformations/HistogramEqualization.java:24-57 | under those conditions, CLAHE with one tile is global histogram equalization |
| Equalization.ImageSamples | src/transformations/HistogramEqualization.java:33-38 | the image contributes `IMAGE_SIZE^2` samples, all in `[0, MAX]` |
| Equalization.ImageHistogram | src/transformations/HistogramEqualization.java:30-38 | the image histogram has `MAX + 1` non-negative bins summing to `IMAGE_SIZE^2` |
| Equalization.Equalize | src/transformations/HistogramEqualization.java:46-56 | every equalized pixel lies in `[0, MAX]` |
| Equalization.EqualizedAt | src/transformations/HistogramEqualization.java:41-56 | an equalized pixel is the map entry at the running count of its intensity, and that count is the number of samples at or below it |
| Equalization.EqualizeRank | src/transformations/HistogramEqualization.java:41-55 | a pixel becomes `floor(MAX * #{samples <= its value} / IMAGE_SIZE^2)` |
| Equalization.EqualizeMonotone | src/transformations/HistogramEqualization.java:49-57 | a darker or equal pixel never maps above a brighter one |
| Equalization.EqualizeBrightest | src/transformations/HistogramEqualization.java:41-55 | the brightest pixels of the image map to exactly `MAX` |
| DualGamma.ImageMax | src/transformations/ACLAHEwDGC2.java:143-163 | `Lmax` bounds every sample of the image and is attained |
| DualGamma.CdfTarget | src/transformations/ACLAHEwDGC2.java:175 | the target is three quarters of the mass, rounded down |
| DualGamma.FindLalpha | src/transformations/ACLAHEwDGC2.java:176-185 | the pass turns the global histogram into its running sum and, when some entry is closer than `Integer.MAX_VALUE`, returns the earliest index closest to the target; otherwise it returns 0 |
| DualGamma.LalphaFound | src/transformations/ACLAHEwDGC2.java:175-185 | when the mass fits in an `int` and the target lies within it, the search finds a closest index |
| Pipeline.GlobalStatistics | src/transformations/ACLAHEwDGC2.java:143-185 | `Lmax` is the attained maximum of the image, and `Lalpha` is the earliest intensity whose running count is closest to 75% of the pixels |
| DualGamma.StoreAndAccumulate | src/transformations/ACLAHEwDGC2.java:270-286 | `storedHisto` is a copy of the redistributed histogram, `pdfMin`/`pdfMax` are its extremes, and the tile histogram becomes its running sum |
| DualGamma.WeightIsIndicator | src/transformations/ACLAHEwDGC2.java:291 | because of integer division, a bin's weight is `pdfMax` when the bin is maximal and 0 otherwise |
| DualGamma.WeightedPrefix | src/transformations/ACLAHEwDGC2.java:289-293 | the first `n` weights sum to `pdfMax` times the number of maximal bins among them |
| DualGamma.WeightedCumulative | src/transformations/ACLAHEwDGC2.java:289-293 | the weighted running histogram faults with a division by zero exactly when `pdfMax == pdfMin`; otherwise entry `b` is `pdfMax * #{maximal bins <= b}` |
| DualGamma.MaximumCounted | src/transformations/ACLAHEwDGC2.java:296 | at least one bin is maximal, so `pdfSum` is `pdfMax` times a positive count |
| DualGamma.LastMaximumCounted | src/transformations/ACLAHEwDGC2.java:289-296 | the bins up to `b` hold every maximal bin exactly when `b` is at or past the last one |
| DualGamma.WeightRatio | src/transformations/ACLAHEwDGC2.java:296-321 | when `pdfMax != 0`, `pdfSum != 0` (and `> 0` for non-negative counts), and `cumulativeHistoWeighted[b] / pdfSum` is 1 from the last maximal bin on and 0 before it |
| DualGamma.PdfSumZero | src/transformations/ACLAHEwDGC2.java:296 | for a histogram that is not flat, `pdfSum` is zero exactly when `pdfMax` is |
| DualGamma.ExponentUsed | src/transformations/ACLAHEwDGC2.java:321 | the exponent `(1.0 + cw[b] / pdfSum) / 2.0` is 1 from the last maximal bin on and 1/2 before it, so `Gamma` is only ever evaluated at those two exponents |
| DualGamma.WideExact | src/transformations/ACLAHEwDGC2.java:324 | the `double` test `r > D * MAX / 100.0` is exactly `100 * r > D * MAX` |
| DualGamma.Select | src/transformations/ACLAHEwDGC2.java:317-328 | `T1` is capped at `MAX`; a wide tile takes the larger of capped `T1` and `Gamma`, any other tile takes `Gamma` |
| DualGamma.SelectInRange | src/transformations/ACLAHEwDGC2.java:317-328 | whatever `T1` is, an entry lies in `[0, MAX]` when `Gamma` does |
| DualGamma.EntryInRange | src/transformations/ACLAHEwDGC2.java:317-328 | when `Gamma` lies in `[0, MAX]` at exponents 1/2 and 1, every entry built from a non-zero `pdfSum` lies in `[0, MAX]` |
| DualGamma.DgcTable | src/transformations/ACLAHEwDGC2.java:266-331 | a tile's dual-gamma map faults exactly when its histogram is flat or its maximum bin is 0; otherwise it has one entry per intensity, within `[0, MAX]` when `Gamma` is at the two exponents the integer ratio yields, 1/2 and 1 |
| DualGamma.DgcTableExponents | src/transformations/ACLAHEwDGC2.java:296-321 | for counts that are not all equal and whose maximum is not 0, the map exists and each entry uses exponent 1 from the last maximal bin on and 1/2 before it |
| DualGamma.DgcTableDecreasesAtLastMaximum | src/transformations/ACLAHEwDGC2.java:289-328 | in a narrow tile the map steps down at the last maximal bin `k` whenever `Gamma(k - 1)` at exponent 1/2 exceeds `Gamma(k)` at exponent 1, so the dual-gamma map is not always non-decreasing |
| DualGamma.DgcTableDecreasingExample | src/transformations/ACLAHEwDGC2.java:289-328 | for ten bins whose maximum sits at 4, a tile of range 0 with `D == 0`, and the exact gamma terms of `Lmax == 9`, the map holds 5 at intensity 3 and 4 at intensity 4 |
| Pipeline.DgcTileTable | src/transformations/ACLAHEwDGC2.java:228-331 | a tile's clipped dual-gamma map has one entry per intensity, within `[0, MAX]` when `Gamma` is at exponents 1/2 and 1 |
| Pipeline.DgcTileFaultsWhenFlat | src/transformations/ACLAHEwDGC2.java:289-293 | with `B >= 0`, a tile's map faults exactly when its redistributed histogram is flat |
| Pipeline.DgcZeroLimitFaults | src/transformations/ACLAHEwDGC2.java:241-293 | for the model's limit input 0 on a tile with fewer pixels than bins, every bin empties and the map faults with a division by zero; the source's sliders (block sizes up to 16, `P >= 1`) never produce such a tile or limit |
| Pipeline.Collect | src/transformations/ACLAHEwDGC2.java:266-332 | the grid of maps exists exactly when no tile faulted; otherwise the whole transform aborts with `DivisionByZero`, the only fault a tile map raises |
| Pipeline.DualGammaFaultsOnFlatTile | src/transformations/ACLAHEwDGC2.java:228-332 | with non-negative limits, the dual-gamma transform faults exactly when some tile's redistributed histogram is flat |
| Pipeline.DualGammaInRange | src/transformations/ACLAHEwDGC2.java:317-399 | when every `Gamma` term at exponents 1/2 and 1 lies in `[0, MAX]`, every dual-gamma output pixel does too, whatever `T1` is |
| Parameters.BlockSizeCheck | src/transformations/ACLAHE.java:66 | for a non-zero block size, the listener's check rejects exactly the block sizes that are non-positive or do not divide 512 |
| Parameters.Checks | src/transformations/ACLAHE.java:64-80 | the three checks show the block-size, alpha and P dialogs exactly for a block size that does not cut 512 into whole tiles, a negative alpha and a negative P, and show none exactly when the parameters are valid |
| Parameters.TransformFaults | src/transformations/ACLAHE.java:125-153 | a non-zero block size is invalid exactly when cutting the image throws: a negative size fails the allocation, a size above 512 gives tile side 0, and otherwise pixel 511 lands past the last tile |
| Parameters.Execute | src/transformations/ACLAHE.java:63-90 | the parameters change exactly when all three fields parse and the block size is non-zero, and the new values are assigned whether or not they passed their checks. An `OutOfMemoryError` escapes exactly when, in addition, the block size is positive and the re-run exhausts the heap. Otherwise the image is transformed exactly when the block size is valid. The parse-int dialog appears exactly when the image is neither transformed nor an error escaped, and after the check dialogs when the fields parsed |
| Parameters.ExecuteValidated | src/transformations/ACLAHE.java:63-90 | the corrected listener changes the parameters exactly when all three values parse and pass their checks. It then transforms the image unless the heap is exhausted, and shows the parse-int dialog only when a field does not parse or the block size is 0 |
| Parameters.ExecuteValidatedKeepsValid | src/transformations/ACLAHE.java:63-86 | the corrected listener only ever holds parameters that cut the image into whole tiles |
| Parameters.ExecuteAgreesOnValidInput | src/transformations/ACLAHE.java:63-86 | on valid input, the two listeners agree and show no dialog |
| Parameters.ExecuteAcceptsInvalidBlockSize | src/transformations/ACLAHE.java:64-86 | as written, block size 3 shows its dialog and is still assigned; the transform then faults and the parse-int dialog follows |
| Parameters.ExecuteEscapesOnHugeBlockSize | src/transformations/ACLAHE.java:63-140 | as written, block size `Integer.MAX_VALUE` shows its dialog and is still assigned; the allocation of its cut image exhausts the heap, and the error leaves the listener without the parse-int dialog |
| Parameters.ExecuteAcceptsNegativeAlpha | src/transformations/ACLAHE.java:70-86 | as written, a negative alpha shows its dialog and is still assigned, and the image is transformed |

## Left out

- The Swing interface is not modelled: panels, sliders, the other
  listeners and `imageLabel.setIcon`. The dialogs of the Execute listener
  are kept only as a list of `Parameters.Dialog` values.
- `Utilities` is not part of this model: image loading, RGB/HSB conversion,
  `createBufferedImage` and the brightness extraction. The model takes the
  brightness array as an input with samples in `[0, MAX]`. `CheckedHistogram`
  shows the index fault a sample outside that range would cause.
- The floating-point formulas are inputs rather than computations:
  - the clip limit `β` and its cast to `B` (`CLAHE.java:167`,
    `ACLAHE.java:242`, `ACLAHEwDGC2.java:235`) are the integer grid `limits`;
  - the standard deviation (`ACLAHE.java:195-217`, `ACLAHEwDGC2.java:188-210`)
    only feeds `β`, so it is left out;
  - `Wen`, `cdf` and the `T1` product (`ACLAHEwDGC2.java:305-318`) become the
    already-cast `t1s` (the `T1 > MAX` cap is modelled);
  - the `pow` in `Gamma` (`ACLAHEwDGC2.java:321`) becomes `gammaOf`. The
    integer ratio that forms its exponent is modelled.
- Java `int` overflow is not modelled, because the model uses unbounded
  integers. At the fixed size 512 and with a non-negative clip limit no
  intermediate value reaches `2^31`:
  - a tile holds at most `2^18` pixels, which bounds every count,
    `totalClipped` and every running count;
  - a tile's sample sum is at most `1000 * 2^18`;
  - the weighted running histogram is at most `1001 * 2^18`.

  A field whose text is out of `int` range counts as unparsable.
- Clipping.ClipLoop: `totalClipped` is the unbounded sum
  `Σ max(0, h[v] - B)`. With a negative `B` every bin is clipped, so the sum
  is `pixels - bins * B`. ACLAHE computes such a `B` once the listener has
  stored a negative alpha or P. The Java sum wraps around once it passes
  `2^31 - 1`. That happens below about `B = -8.4 * 10^6` with 256 bins, and
  below about `B = -2.1 * 10^6` with 1001 bins. Neither this member nor
  `Clipping.Redistribute` follows the wrapped value.
- `JavaArith.Trunc`: models the `(int)` cast of a finite `double` only. The
  saturation of NaN and out-of-range values is not modelled. A uniform
  tile's infinite limit is represented by its cast value
  `Integer.MAX_VALUE` (`Clipping.UniformTileUnclipped`).
- `Pipeline.GlobalStatistics`: scans the global histogram and `Lmax` in
  row-major order, while the source visits tile by tile. Counts and the
  maximum do not depend on the order, and `Tiling.SlotRoundTrip` shows the
  tiles visit each pixel exactly once. Its `Lalpha` postcondition is stated
  for `size * size < Integer.MAX_VALUE`, which holds at 512.
- `Pipeline.ClaheInRange`: stated only for non-negative clip limits. The
  source can produce a negative `B` once the listener has accepted a
  negative alpha.
- `Pipeline.DualGammaInRange`: assumes every `Gamma` term at exponents 1/2
  and 1 lies in `[0, MAX]`, because the `pow` that bounds it is outside the
  model. `DualGamma.ExponentUsed` proves that no other exponent occurs. The
  assumption holds for the source's formula
  `(int) (Lmax * pow(v / Lmax, e))`:
  - for `v <= Lmax` the value is at most `Lmax`;
  - for `v > Lmax` it is `v` or `sqrt(v * Lmax)`, at most `v`;
  - for `Lmax == 0` the `NaN` casts to 0.
- `DualGamma.DgcTable`: its range postcondition makes the same assumption,
  and so does `Pipeline.DgcTileTable`.
- `Parameters.Execute`: models the re-run of `transform()` as two flags.
  `transformed` says whether a transformed image results. `escaped` says
  whether an `OutOfMemoryError` left the listener.
  - The heap is the input `heapExhausted`, not a size the model computes.
  - For the cutting step, `transformed` is derived from
    `Parameters.TransformFaults`.
  - Every later step of a re-run with a valid block size is taken to finish
    unless the heap is exhausted.
  - What the escaping error does after it leaves the listener is outside the
    model.
- One tile grid has as many columns as rows, as `numBlocksCol == numBlocksRow
  == blockSize` in the source. The ACLAHE variant is the model at
  `MAX == 255`.

Where the documented behaviour differs from the code, the model follows the
code:

- The parameter update is not atomic: a rejected value is still assigned
  (see Findings).
- A block size of 1 reproduces global equalization when:
  - the image reaches `MAX`, since each tile map is scaled by the tile's own
    maximum, not by `MAX`;
  - no bin of the image histogram exceeds the clip limit, for example
    because the limit is at least the pixel count.

  `Pipeline.ClaheSingleTileIsEqualization` proves it under those conditions.
- A degenerate tile is not always recovered locally. The weighted
  histogram of the dual-gamma variant divides by `pdfMax - pdfMin` without a
  guard. A flat redistributed histogram raises an `ArithmeticException` that
  aborts the transform (`Pipeline.DualGammaFaultsOnFlatTile`).
  With the sliders' block sizes and `P >= 1` the limit is at least 1 and
  every tile holds at least 1024 pixels, so no tile's redistributed
  histogram is flat. `Pipeline.DgcZeroLimitFaults` shows the fault for a
  limit input of 0, a value only the model's free limit grid allows.
- The dual-gamma map is not always non-decreasing, unlike the other maps.
  - The exponent of `Gamma` jumps from 1/2 to 1 at the last maximal bin `k`.
  - In a narrow tile, entry `k - 1` is about `sqrt((k - 1) * Lmax)` and entry
    `k` is about `k`.
  - With `Lmax == 1000` and `k == 100` that is 314 followed by 100.

  `DualGamma.DgcTableDecreasesAtLastMaximum` states the step down in
  general. `DualGamma.DgcTableDecreasingExample` exhibits it on ten bins.
- The pdf behind the weights is the clipped and redistributed histogram,
  not the histogram before clipping. The copy `storedHisto` is taken after
  the redistribution (`ACLAHEwDGC2.java:241-280`, modelled by
  `DualGamma.StoreAndAccumulate`).

## Findings

| source | as written | input that shows it | evidently intended | confidence | as-written member | corrected member |
|---|---|---|---|---|---|---|
| src/transformations/ACLAHE.java:64-86 | each validity check only shows an error dialog; `blockSize`, `alpha` and `P` are then assigned and the transform re-runs | block size text `3` with alpha `100` and P `1`: the block-size dialog is shown, yet 3 becomes the block size, the re-run faults while cutting, and the parse-int dialog follows | a rejected value leaves the parameters unchanged, does not re-run the transform, and shows only its own dialog | not executed | Parameters.Execute (Parameters.ExecuteAcceptsInvalidBlockSize) | Parameters.ExecuteValidated (Parameters.ExecuteValidatedKeepsValid) |
