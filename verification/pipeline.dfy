/** The three tiled transforms assembled from their stages: plain and
    adaptive CLAHE (which differ only in how the clip limit is chosen, and
    the adaptive one in its fixed 256 bins), and the dual-gamma variant. */
module Pipeline {
  import opened SeqMath
  import opened Histograms
  import opened Outcomes
  import opened Tiling
  import opened Statistics
  import opened Clipping
  import opened Mapping
  import opened Interpolation
  import opened Equalization
  import opened DualGamma
  import JavaArith

  /** One value per tile, indexed `[blockCol][blockRow]`: the clip limits. */
  predicate IsLimitGrid(limits: seq<seq<int>>, blocks: nat) {
    |limits| == blocks && forall bc :: 0 <= bc < blocks ==> |limits[bc]| == blocks
  }

  /** Step 2 for tile `(bc, br)`: its histogram over `0..maxValue`, which
      holds exactly one count per pixel of the tile, and its extremes. */
  function TileStatsOf(img: seq<seq<int>>, g: Geometry, maxValue: nat, bc: nat, br: nat): (st: TileStats)
    requires g.Valid() && IsSampleImage(img, g.size, maxValue)
    requires bc < g.blocks && br < g.blocks
    ensures |st.hist| == maxValue + 1 && NonNegative(st.hist)
    ensures Sum(st.hist) == g.Side() * g.Side()
    ensures 0 <= st.lo <= st.hi <= maxValue
  {
    SideFacts(g);
    TileSamplesShape(img, g, maxValue, bc, br);
    assert g.Side() * g.Side() > 0;
    Stats(TileSamples(img, g, bc, br), maxValue + 1)
  }

  /** The tile's extremes bound every sample of the tile. */
  lemma TileStatsBound(img: seq<seq<int>>, g: Geometry, maxValue: nat, bc: nat, br: nat)
    requires g.Valid() && IsSampleImage(img, g.size, maxValue)
    requires bc < g.blocks && br < g.blocks
    ensures var st, s := TileStatsOf(img, g, maxValue, bc, br), TileSamples(img, g, bc, br);
      forall k :: 0 <= k < |s| ==> st.lo <= s[k] <= st.hi
  {
    SideFacts(g);
    TileSamplesShape(img, g, maxValue, bc, br);
    assert g.Side() * g.Side() > 0;
  }

  /** Steps 3 and 4 of CLAHE for one tile: clip at `limit`, redistribute,
      and build the map scaled by the tile's maximum. */
  function ClaheTileTable(img: seq<seq<int>>, g: Geometry, maxValue: nat, limit: int, bc: nat, br: nat): (t: seq<int>)
    requires g.Valid() && IsSampleImage(img, g.size, maxValue)
    requires bc < g.blocks && br < g.blocks
    ensures |t| == maxValue + 1
  {
    var st := TileStatsOf(img, g, maxValue, bc, br);
    SideFacts(g);
    HeTable(Redistribute(st.hist, limit), st.hi, g.Side() * g.Side())
  }

  /** With a non-negative limit a tile's map is non-decreasing and stays
      within `[0, tileMax]`: redistribution never adds mass, so the running
      sums stay within the tile's pixel count. */
  lemma ClaheTileTableBounds(img: seq<seq<int>>, g: Geometry, maxValue: nat, limit: int, bc: nat, br: nat)
    requires g.Valid() && IsSampleImage(img, g.size, maxValue)
    requires bc < g.blocks && br < g.blocks && limit >= 0
    ensures var st := TileStatsOf(img, g, maxValue, bc, br);
      InRange(ClaheTileTable(img, g, maxValue, limit, bc, br), 0, st.hi)
    ensures forall v, w :: 0 <= v <= w <= maxValue ==>
      ClaheTileTable(img, g, maxValue, limit, bc, br)[v] <= ClaheTileTable(img, g, maxValue, limit, bc, br)[w]
  {
    var st := TileStatsOf(img, g, maxValue, bc, br);
    var h := Redistribute(st.hist, limit);
    SideFacts(g);
    var pixels := g.Side() * g.Side();
    assert pixels > 0;
    RedistributeMass(st.hist, limit);
    RedistributeNonNegative(st.hist, limit);
    HeTableBounds(h, st.hi, pixels);
    forall v, w | 0 <= v <= w <= maxValue
      ensures HeTable(h, st.hi, pixels)[v] <= HeTable(h, st.hi, pixels)[w]
    {
      HeTableMonotone(h, st.hi, pixels, v, w);
    }
  }

  /** Every tile's map, indexed `[blockCol][blockRow]`. */
  function ClaheTables(img: seq<seq<int>>, g: Geometry, maxValue: nat, limits: seq<seq<int>>): (tables: seq<seq<seq<int>>>)
    requires g.Valid() && IsSampleImage(img, g.size, maxValue)
    requires IsLimitGrid(limits, g.blocks)
    ensures IsTableGrid(tables, g.blocks, maxValue + 1)
  {
    seq(g.blocks, bc requires 0 <= bc < g.blocks =>
      seq(g.blocks, br requires 0 <= br < g.blocks =>
        ClaheTileTable(img, g, maxValue, limits[bc][br], bc, br)))
  }

  /** Step 5 over a grid of maps: every pixel blended from its four
      neighbouring maps at its own intensity. */
  function Blended(img: seq<seq<int>>, g: Geometry, maxValue: nat, tables: seq<seq<seq<int>>>): (out: seq<seq<int>>)
    requires g.Valid() && IsSampleImage(img, g.size, maxValue)
    requires IsTableGrid(tables, g.blocks, maxValue + 1)
    ensures IsImage(out, g.size)
  {
    SideFacts(g);
    seq(g.size, c requires 0 <= c < g.size =>
      seq(g.size, r requires 0 <= r < g.size =>
        OutputPixel(g.Side(), g.blocks, tables, maxValue + 1, c, r, img[c][r])))
  }

  /** CLAHE (and, with `maxValue == 255`, the adaptive variant) for given
      per-tile clip limits. */
  function Clahe(img: seq<seq<int>>, g: Geometry, maxValue: nat, limits: seq<seq<int>>): (out: seq<seq<int>>)
    requires g.Valid() && IsSampleImage(img, g.size, maxValue)
    requires IsLimitGrid(limits, g.blocks)
    ensures IsImage(out, g.size)
  {
    Blended(img, g, maxValue, ClaheTables(img, g, maxValue, limits))
  }

  /** Four lookups from maps within `[0, maxValue]` have their extremes
      there too. */
  lemma LookupsInRange(side: nat, blocks: nat, tables: seq<seq<seq<int>>>, bins: nat, c: nat, r: nat, p: int, maxValue: int)
    requires side > 0 && blocks > 0 && c < side * blocks && r < side * blocks
    requires IsTableGrid(tables, blocks, bins) && 0 <= p < bins
    requires forall bc, br :: 0 <= bc < blocks && 0 <= br < blocks ==> InRange(tables[bc][br], 0, maxValue)
    ensures 0 <= Min(Lookups(side, blocks, tables, bins, c, r, p))
    ensures Max(Lookups(side, blocks, tables, bins, c, r, p)) <= maxValue
  {
    var t := Lookups(side, blocks, tables, bins, c, r, p);
    assert InRange(t, 0, maxValue);
  }

  /** Blending maps that lie within `[0, maxValue]` yields an image within
      `[0, maxValue]`. */
  lemma BlendedInRange(img: seq<seq<int>>, g: Geometry, maxValue: nat, tables: seq<seq<seq<int>>>)
    requires g.Valid() && IsSampleImage(img, g.size, maxValue)
    requires IsTableGrid(tables, g.blocks, maxValue + 1)
    requires forall bc, br :: 0 <= bc < g.blocks && 0 <= br < g.blocks ==> InRange(tables[bc][br], 0, maxValue)
    ensures IsSampleImage(Blended(img, g, maxValue, tables), g.size, maxValue)
  {
    SideFacts(g);
    var out := Blended(img, g, maxValue, tables);
    forall c | 0 <= c < g.size
      ensures InRange(out[c], 0, maxValue)
    {
      forall r | 0 <= r < g.size
        ensures 0 <= out[c][r] <= maxValue
      {
        LookupsInRange(g.Side(), g.blocks, tables, maxValue + 1, c, r, img[c][r], maxValue);
      }
    }
  }

  /** With non-negative clip limits, every output pixel lies in `[0, maxValue]`. */
  lemma ClaheInRange(img: seq<seq<int>>, g: Geometry, maxValue: nat, limits: seq<seq<int>>)
    requires g.Valid() && IsSampleImage(img, g.size, maxValue)
    requires IsLimitGrid(limits, g.blocks)
    requires forall bc, br :: 0 <= bc < g.blocks && 0 <= br < g.blocks ==> limits[bc][br] >= 0
    ensures IsSampleImage(Clahe(img, g, maxValue, limits), g.size, maxValue)
  {
    var tables := ClaheTables(img, g, maxValue, limits);
    forall bc, br | 0 <= bc < g.blocks && 0 <= br < g.blocks
      ensures InRange(tables[bc][br], 0, maxValue)
    {
      ClaheTileTableBounds(img, g, maxValue, limits[bc][br], bc, br);
    }
    BlendedInRange(img, g, maxValue, tables);
  }

  /** A pixel at the centre of its tile takes exactly its own tile's map
      value: no neighbouring tile contributes there. */
  lemma ClaheAtTileCenter(img: seq<seq<int>>, g: Geometry, maxValue: nat, limits: seq<seq<int>>, c: nat, r: nat)
    requires g.Valid() && IsSampleImage(img, g.size, maxValue)
    requires IsLimitGrid(limits, g.blocks)
    requires c < g.size && r < g.size
    requires c == Center(g.Side(), TileOf(g, c)) && r == Center(g.Side(), TileOf(g, r))
    ensures Clahe(img, g, maxValue, limits)[c][r]
      == ClaheTileTable(img, g, maxValue, limits[TileOf(g, c)][TileOf(g, r)], TileOf(g, c), TileOf(g, r))[img[c][r]]
  {
    SideFacts(g);
    CenterPixelUsesOwnTable(g.Side(), g.blocks, ClaheTables(img, g, maxValue, limits), maxValue + 1, c, r, img[c][r]);
  }

  /** With a single tile, CLAHE is one clipped global map applied to every
      pixel: no blending takes place. */
  lemma ClaheSingleTile(img: seq<seq<int>>, g: Geometry, maxValue: nat, limits: seq<seq<int>>, c: nat, r: nat)
    requires g.Valid() && IsSampleImage(img, g.size, maxValue) && g.blocks == 1
    requires IsLimitGrid(limits, 1)
    requires c < g.size && r < g.size
    ensures Clahe(img, g, maxValue, limits)[c][r]
      == HeTable(Redistribute(ImageHistogram(img, g.size, maxValue), limits[0][0]),
                 TileStatsOf(img, g, maxValue, 0, 0).hi, g.size * g.size)[img[c][r]]
  {
    SideFacts(g);
    SingleTileIsImage(img, g);
    SingleTilePixel(g.Side(), ClaheTables(img, g, maxValue, limits), maxValue + 1, c, r, img[c][r]);
  }

  /** With a single tile, a clip limit no bin of the image's histogram
      exceeds, and an image whose brightest sample is `maxValue`, CLAHE is
      global histogram equalization.
      (The tile map is scaled by the tile's own maximum, so an image that
      does not reach `maxValue` is equalized onto a smaller range.) */
  lemma ClaheSingleTileIsEqualization(img: seq<seq<int>>, g: Geometry, maxValue: nat, limits: seq<seq<int>>)
    requires g.Valid() && IsSampleImage(img, g.size, maxValue) && g.blocks == 1
    requires IsLimitGrid(limits, 1)
    requires forall v :: 0 <= v <= maxValue ==> ImageHistogram(img, g.size, maxValue)[v] <= limits[0][0]
    requires exists c, r :: 0 <= c < g.size && 0 <= r < g.size && img[c][r] == maxValue
    ensures Clahe(img, g, maxValue, limits) == Equalize(img, g.size, maxValue)
  {
    var out, eq := Clahe(img, g, maxValue, limits), Equalize(img, g.size, maxValue);
    SingleTableIsEqualization(img, g, maxValue, limits[0][0]);
    forall c, r | 0 <= c < g.size && 0 <= r < g.size
      ensures out[c][r] == eq[c][r]
    {
      ClaheSingleTile(img, g, maxValue, limits, c, r);
    }
    SameImage(out, eq, g.size);
  }

  /** Under the same conditions the single tile's map is the global
      equalization table. */
  lemma SingleTableIsEqualization(img: seq<seq<int>>, g: Geometry, maxValue: nat, limit: int)
    requires g.Valid() && IsSampleImage(img, g.size, maxValue) && g.blocks == 1
    requires forall v :: 0 <= v <= maxValue ==> ImageHistogram(img, g.size, maxValue)[v] <= limit
    requires exists c, r :: 0 <= c < g.size && 0 <= r < g.size && img[c][r] == maxValue
    ensures HeTable(Redistribute(ImageHistogram(img, g.size, maxValue), limit),
                    TileStatsOf(img, g, maxValue, 0, 0).hi, g.size * g.size)
      == EqualizationTable(img, g.size, maxValue)
  {
    NoClipIdentity(ImageHistogram(img, g.size, maxValue), limit);
    SingleTileReachesTop(img, g, maxValue);
  }

  /** The single tile of an image that reaches `maxValue` has maximum `maxValue`. */
  lemma SingleTileReachesTop(img: seq<seq<int>>, g: Geometry, maxValue: nat)
    requires g.Valid() && IsSampleImage(img, g.size, maxValue) && g.blocks == 1
    requires exists c, r :: 0 <= c < g.size && 0 <= r < g.size && img[c][r] == maxValue
    ensures TileStatsOf(img, g, maxValue, 0, 0).hi == maxValue
  {
    SingleTileIsImage(img, g);
    ImageSamples(img, g.size, maxValue);
    var c0, r0 :| 0 <= c0 < g.size && 0 <= r0 < g.size && img[c0][r0] == maxValue;
    var k := SampleIndex(img, g.size, c0, r0);
    StatsTop(Flatten(img), maxValue + 1, k);
  }

  // ---------------------------------------------------------------------
  // The dual-gamma variant.
  // ---------------------------------------------------------------------

  /** The global statistics of the dual-gamma variant: the brightest sample
      `Lmax` and `Lalpha`, the first intensity whose running count is closest
      to three quarters of the pixels. */
  method GlobalStatistics(img: seq<seq<int>>, size: nat, maxValue: nat) returns (lmax: int, lalpha: nat)
    requires size > 0 && IsSampleImage(img, size, maxValue)
    ensures forall c, r :: 0 <= c < size && 0 <= r < size ==> img[c][r] <= lmax
    ensures exists c, r :: 0 <= c < size && 0 <= r < size && img[c][r] == lmax
    ensures size * size < JavaArith.IntMax ==>
      EarliestClosest(Cumulative(ImageHistogram(img, size, maxValue)), CdfTarget(size * size), lalpha)
  {
    JavaArith.MulNonNegative(size, size);
    lmax := ImageMax(img, size);
    var h := ImageHistogram(img, size, maxValue);
    var target := CdfTarget(size * size);
    var cum;
    cum, lalpha := FindLalpha(h, target);
    if size * size < JavaArith.IntMax {
      LalphaFound(h, target);
    }
  }

  /** Steps 3 and 4 of the dual-gamma variant for one tile with statistics
      `st`: clip and redistribute its histogram, then build its map from the
      tile's dynamic range `max - min`. */
  function DgcTileTable(st: TileStats, maxValue: nat, limit: int, d: int,
                        t1: seq<int>, gammaOf: (int, real) -> int): (r: Result<seq<int>>)
    requires |st.hist| == maxValue + 1 && |t1| == maxValue + 1
    ensures r.Ok? ==> |r.value| == maxValue + 1
    ensures r.Ok? && GammaBounded(gammaOf, maxValue) ==> InRange(r.value, 0, maxValue)
  {
    DgcTable(Redistribute(st.hist, limit), st.hi - st.lo, d, maxValue, t1, gammaOf)
  }

  /** Every tile's dual-gamma result, indexed `[blockCol][blockRow]`. */
  function DgcTileResults(img: seq<seq<int>>, g: Geometry, maxValue: nat, limits: seq<seq<int>>, d: int,
                          t1s: seq<seq<seq<int>>>, gammaOf: (int, real) -> int): (grid: seq<seq<Result<seq<int>>>>)
    requires g.Valid() && IsSampleImage(img, g.size, maxValue)
    requires IsLimitGrid(limits, g.blocks) && IsTableGrid(t1s, g.blocks, maxValue + 1)
    ensures |grid| == g.blocks && forall bc :: 0 <= bc < g.blocks ==> |grid[bc]| == g.blocks
    ensures forall bc, br :: 0 <= bc < g.blocks && 0 <= br < g.blocks ==>
      grid[bc][br] == DgcTileTable(TileStatsOf(img, g, maxValue, bc, br), maxValue, limits[bc][br], d, t1s[bc][br], gammaOf)
  {
    seq(g.blocks, bc requires 0 <= bc < g.blocks =>
      seq(g.blocks, br requires 0 <= br < g.blocks =>
        DgcTileTable(TileStatsOf(img, g, maxValue, bc, br), maxValue, limits[bc][br], d, t1s[bc][br], gammaOf)))
  }

  /** With a non-negative limit a tile's dual-gamma map faults exactly when
      its redistributed histogram is flat: all bins are then equal, so the
      weighting divides by `pdfMax - pdfMin == 0`. */
  lemma DgcTileFaultsWhenFlat(st: TileStats, maxValue: nat, limit: int, d: int,
                              t1: seq<int>, gammaOf: (int, real) -> int)
    requires |st.hist| == maxValue + 1 && |t1| == maxValue + 1
    requires NonNegative(st.hist) && limit >= 0
    ensures var h := Redistribute(st.hist, limit);
      DgcTileTable(st, maxValue, limit, d, t1, gammaOf).Err? <==> Min(h) == Max(h)
  {
    var h := Redistribute(st.hist, limit);
    RedistributeNonNegative(st.hist, limit);
    assert Min(h) >= 0 by {
      var i :| 0 <= i < |h| && h[i] == Min(h);
    }
  }

  /** A clip limit of 0 on a tile with fewer pixels than bins empties every
      bin: the clipped mass is handed back in shares of `pixels / bins == 0`,
      so the redistributed histogram is flat and the tile's map faults. This
      is a fact about the model's free limit input: the source's slider
      values give every tile at least 1024 pixels and a limit of at least 1. */
  lemma DgcZeroLimitFaults(st: TileStats, maxValue: nat, d: int, t1: seq<int>, gammaOf: (int, real) -> int)
    requires |st.hist| == maxValue + 1 && |t1| == maxValue + 1
    requires NonNegative(st.hist) && Sum(st.hist) <= maxValue
    ensures Redistribute(st.hist, 0) == Zeros(maxValue + 1)
    ensures DgcTileTable(st, maxValue, 0, d, t1, gammaOf) == Err(DivisionByZero)
  {
    var h := st.hist;
    assert Clip(h, 0) == Zeros(|h|);
    SumZeros(|h|);
    ClipMass(h, 0);
    JavaArith.DivModUnique(Excess(h, 0), |h|, 0, Excess(h, 0));
    assert Redistribute(h, 0) == Zeros(|h|);
  }

  /** A grid of per-tile results becomes a grid of maps when every tile
      succeeded; any faulting tile aborts the whole transform, as the
      exception it models does. */
  function Collect(grid: seq<seq<Result<seq<int>>>>, blocks: nat, bins: nat): (r: Result<seq<seq<seq<int>>>>)
    requires |grid| == blocks && forall bc :: 0 <= bc < blocks ==> |grid[bc]| == blocks
    requires forall bc, br :: 0 <= bc < blocks && 0 <= br < blocks && grid[bc][br].Ok? ==> |grid[bc][br].value| == bins
    ensures r.Err? <==> exists bc, br :: 0 <= bc < blocks && 0 <= br < blocks && grid[bc][br].Err?
    ensures r.Err? ==> r.fault == DivisionByZero
    ensures r.Ok? ==> IsTableGrid(r.value, blocks, bins)
    ensures r.Ok? ==> forall bc, br :: 0 <= bc < blocks && 0 <= br < blocks ==> Ok(r.value[bc][br]) == grid[bc][br]
  {
    if forall bc, br :: 0 <= bc < blocks && 0 <= br < blocks ==> grid[bc][br].Ok? then
      Ok(seq(blocks, bc requires 0 <= bc < blocks =>
        seq(blocks, br requires 0 <= br < blocks => grid[bc][br].value)))
    else Err(DivisionByZero)
  }

  /** The dual-gamma transform: the tiles' maps blended as in CLAHE. */
  function DualGammaClahe(img: seq<seq<int>>, g: Geometry, maxValue: nat, limits: seq<seq<int>>, d: int,
                          t1s: seq<seq<seq<int>>>, gammaOf: (int, real) -> int): (r: Result<seq<seq<int>>>)
    requires g.Valid() && IsSampleImage(img, g.size, maxValue)
    requires IsLimitGrid(limits, g.blocks) && IsTableGrid(t1s, g.blocks, maxValue + 1)
    ensures r.Err? ==> r.fault == DivisionByZero
    ensures r.Ok? ==> IsImage(r.value, g.size)
  {
    match Collect(DgcTileResults(img, g, maxValue, limits, d, t1s, gammaOf), g.blocks, maxValue + 1)
    case Err(f) => Err(f)
    case Ok(tables) => Ok(Blended(img, g, maxValue, tables))
  }

  /** With non-negative clip limits the dual-gamma transform faults exactly
      when some tile's redistributed histogram is flat (all bins equal). */
  lemma DualGammaFaultsOnFlatTile(img: seq<seq<int>>, g: Geometry, maxValue: nat, limits: seq<seq<int>>, d: int,
                                  t1s: seq<seq<seq<int>>>, gammaOf: (int, real) -> int)
    requires g.Valid() && IsSampleImage(img, g.size, maxValue)
    requires IsLimitGrid(limits, g.blocks) && IsTableGrid(t1s, g.blocks, maxValue + 1)
    requires forall bc, br :: 0 <= bc < g.blocks && 0 <= br < g.blocks ==> limits[bc][br] >= 0
    ensures DualGammaClahe(img, g, maxValue, limits, d, t1s, gammaOf).Err? <==>
      exists bc, br :: 0 <= bc < g.blocks && 0 <= br < g.blocks
        && var h := Redistribute(TileStatsOf(img, g, maxValue, bc, br).hist, limits[bc][br]);
           Min(h) == Max(h)
  {
    forall bc, br | 0 <= bc < g.blocks && 0 <= br < g.blocks
      ensures var h := Redistribute(TileStatsOf(img, g, maxValue, bc, br).hist, limits[bc][br]);
        DgcTileTable(TileStatsOf(img, g, maxValue, bc, br), maxValue, limits[bc][br], d, t1s[bc][br], gammaOf).Err?
        <==> Min(h) == Max(h)
    {
      DgcTileFaultsWhenFlat(TileStatsOf(img, g, maxValue, bc, br), maxValue, limits[bc][br], d, t1s[bc][br], gammaOf);
    }
  }

  /** When every `Gamma` term lies in `[0, maxValue]`, a dual-gamma output
      lies in `[0, maxValue]` too, whatever the `T1` terms are. */
  lemma DualGammaInRange(img: seq<seq<int>>, g: Geometry, maxValue: nat, limits: seq<seq<int>>, d: int,
                         t1s: seq<seq<seq<int>>>, gammaOf: (int, real) -> int)
    requires g.Valid() && IsSampleImage(img, g.size, maxValue)
    requires IsLimitGrid(limits, g.blocks) && IsTableGrid(t1s, g.blocks, maxValue + 1)
    requires GammaBounded(gammaOf, maxValue)
    ensures DualGammaClahe(img, g, maxValue, limits, d, t1s, gammaOf).Ok? ==>
      IsSampleImage(DualGammaClahe(img, g, maxValue, limits, d, t1s, gammaOf).value, g.size, maxValue)
  {
    var r := Collect(DgcTileResults(img, g, maxValue, limits, d, t1s, gammaOf), g.blocks, maxValue + 1);
    if r.Ok? {
      var grid := DgcTileResults(img, g, maxValue, limits, d, t1s, gammaOf);
      forall bc, br | 0 <= bc < g.blocks && 0 <= br < g.blocks
        ensures InRange(r.value[bc][br], 0, maxValue)
      {
        assert Ok(r.value[bc][br]) == grid[bc][br];
      }
      BlendedInRange(img, g, maxValue, r.value);
    }
  }
}
