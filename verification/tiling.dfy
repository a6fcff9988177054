/** Step 1 of every transform: decomposing the square image into a grid of
    equal square tiles ("blocks"). */
module Tiling {
  import opened SeqMath
  import JavaArith

  /** A `size` x `size` image cut into `blocks` x `blocks` tiles, the source's
      `IMAGE_SIZE` and `blockSize` (the grid has as many tile columns as rows). */
  datatype Geometry = Geometry(size: nat, blocks: nat) {
    predicate Valid() {
      size > 0 && blocks > 0 && size % blocks == 0
    }

    /** Pixels per tile along each axis: `pixelsPerBlockCol` and `pixelsPerBlockRow`. */
    function Side(): nat
      requires Valid()
    {
      size / blocks
    }
  }

  /** A sample array indexed `[column][row]`, as `hsbBrightnessValues[c][r]`. */
  predicate IsImage(img: seq<seq<int>>, size: nat) {
    |img| == size && forall c :: 0 <= c < size ==> |img[c]| == size
  }

  /** An image whose samples all lie in the intensity domain `0..maxValue`. */
  predicate IsSampleImage(img: seq<seq<int>>, size: nat, maxValue: nat) {
    IsImage(img, size) && forall c :: 0 <= c < size ==> InRange(img[c], 0, maxValue)
  }

  lemma SideFacts(g: Geometry)
    requires g.Valid()
    ensures g.Side() >= 1 && g.Side() * g.blocks == g.size
  {
    assert g.size == g.blocks * g.Side() + g.size % g.blocks;
  }

  /** The tile index of a coordinate: `c / pixelsPerBlockCol`. */
  function TileOf(g: Geometry, x: nat): (b: nat)
    requires g.Valid() && x < g.size
    ensures b < g.blocks
  {
    TileBound(g, x);
    x / g.Side()
  }

  lemma TileBound(g: Geometry, x: nat)
    requires g.Valid() && x < g.size
    ensures g.Side() >= 1 && x / g.Side() < g.blocks
  {
    SideFacts(g);
    var side := g.Side();
    JavaArith.Euclid(x, side);
    assert side * (x / side) <= x < side * g.blocks;
    JavaArith.MulStrict(side, x / side, g.blocks);
  }

  /** The offset of a coordinate inside its tile: `c % pixelsPerBlockCol`. */
  function OffsetOf(g: Geometry, x: nat): (o: nat)
    requires g.Valid() && x < g.size
    ensures o < g.Side()
  {
    SideFacts(g);
    x % g.Side()
  }

  /** The image coordinate of offset `o` in tile `b`. */
  function PixelOf(g: Geometry, b: nat, o: nat): (x: nat)
    requires g.Valid() && b < g.blocks && o < g.Side()
    ensures x < g.size
    ensures TileOf(g, x) == b && OffsetOf(g, x) == o
  {
    SlotBound(g, b, o);
    b * g.Side() + o
  }

  lemma SlotBound(g: Geometry, b: nat, o: nat)
    requires g.Valid() && b < g.blocks && o < g.Side()
    ensures b * g.Side() + o < g.size
    ensures (b * g.Side() + o) / g.Side() == b && (b * g.Side() + o) % g.Side() == o
  {
    var side, rest := g.Side(), g.blocks - 1 - b;
    SideFacts(g);
    JavaArith.MulNonNegative(rest, side);
    JavaArith.MulAdd(b + 1, rest, side);
    JavaArith.MulAdd(b, 1, side);
    assert g.size == (b + 1 + rest) * side;
    JavaArith.DivModUnique(b * side + o, side, b, o);
  }

  /** Every coordinate is the image of its own (tile, offset) slot: together
      with `PixelOf`'s contract, the slots and the coordinates are in one-to-one
      correspondence, so the tiles partition the image with no overlap and no gap. */
  lemma SlotRoundTrip(g: Geometry, x: nat)
    requires g.Valid() && x < g.size
    ensures PixelOf(g, TileOf(g, x), OffsetOf(g, x)) == x
  {
  }

  /** The source's `cutImage[blockCol][blockRow][pixelCol][pixelRow]`. */
  function Cut(img: seq<seq<int>>, g: Geometry): (cut: seq<seq<seq<seq<int>>>>)
    requires g.Valid() && IsImage(img, g.size)
  {
    var s := g.Side();
    seq(g.blocks, bc requires 0 <= bc < g.blocks =>
      seq(g.blocks, br requires 0 <= br < g.blocks =>
        seq(s, pc requires 0 <= pc < s =>
          seq(s, pr requires 0 <= pr < s =>
            img[PixelOf(g, bc, pc)][PixelOf(g, br, pr)]))))
  }

  /** The cut stores pixel `(c, r)` in the slot of its tile and offsets, as
      the source's decomposition loop writes it, and it has the grid's shape. */
  lemma CutPlacesPixel(img: seq<seq<int>>, g: Geometry, c: nat, r: nat)
    requires g.Valid() && IsImage(img, g.size)
    requires c < g.size && r < g.size
    ensures var cut := Cut(img, g);
      |cut| == g.blocks && |cut[TileOf(g, c)]| == g.blocks
      && |cut[TileOf(g, c)][TileOf(g, r)]| == g.Side()
      && |cut[TileOf(g, c)][TileOf(g, r)][OffsetOf(g, c)]| == g.Side()
      && cut[TileOf(g, c)][TileOf(g, r)][OffsetOf(g, c)][OffsetOf(g, r)] == img[c][r]
  {
    SlotRoundTrip(g, c);
    SlotRoundTrip(g, r);
  }

  /** Two images that agree on every pixel are the same image. */
  lemma SameImage(a: seq<seq<int>>, b: seq<seq<int>>, size: nat)
    requires IsImage(a, size) && IsImage(b, size)
    requires forall c, r :: 0 <= c < size && 0 <= r < size ==> a[c][r] == b[c][r]
    ensures a == b
  {
    forall c | 0 <= c < size
      ensures a[c] == b[c]
    {
      assert forall r :: 0 <= r < size ==> a[c][r] == b[c][r];
    }
  }

  /** The rows of a 2-D array laid end to end, in the source's loop order
      (outer index first). */
  function Flatten(t: seq<seq<int>>): seq<int> {
    if |t| == 0 then [] else Flatten(t[..|t| - 1]) + t[|t| - 1]
  }

  /** Element `(i, j)` of a 2-D array with rows of length `w` sits at `i * w + j`. */
  lemma {:induction false} FlattenIndex(t: seq<seq<int>>, w: nat, i: nat, j: nat)
    requires forall k :: 0 <= k < |t| ==> |t[k]| == w
    requires i < |t| && j < w
    ensures i * w + j < |Flatten(t)|
    ensures Flatten(t)[i * w + j] == t[i][j]
    decreases |t|
  {
    var n := |t|;
    var front := Flatten(t[..n - 1]);
    FlattenLength(t[..n - 1], w);
    assert Flatten(t) == front + t[n - 1];
    if i < n - 1 {
      FlattenIndex(t[..n - 1], w, i, j);
    } else {
      assert i * w + j == |front| + j;
    }
  }

  /** The position of pixel `(c, r)` among the image's flattened samples. */
  lemma SampleIndex(img: seq<seq<int>>, size: nat, c: nat, r: nat) returns (k: nat)
    requires IsImage(img, size) && c < size && r < size
    ensures k < |Flatten(img)| && Flatten(img)[k] == img[c][r]
  {
    FlattenIndex(img, size, c, r);
    JavaArith.MulNonNegative(c, size);
    k := c * size + r;
  }

  lemma {:induction false} FlattenLength(t: seq<seq<int>>, w: nat)
    requires forall k :: 0 <= k < |t| ==> |t[k]| == w
    ensures |Flatten(t)| == |t| * w
    decreases |t|
  {
    if |t| > 0 {
      FlattenLength(t[..|t| - 1], w);
    }
  }

  /** Flattening keeps every element within the bounds its rows respect. */
  lemma {:induction false} FlattenInRange(t: seq<seq<int>>, lo: int, hi: int)
    requires forall k :: 0 <= k < |t| ==> InRange(t[k], lo, hi)
    ensures InRange(Flatten(t), lo, hi)
    decreases |t|
  {
    if |t| > 0 {
      FlattenInRange(t[..|t| - 1], lo, hi);
    }
  }

  /** Every flattened element comes from some cell of the 2-D array. */
  lemma {:induction false} FlattenFrom(t: seq<seq<int>>, k: nat)
    requires k < |Flatten(t)|
    ensures exists i, j :: 0 <= i < |t| && 0 <= j < |t[i]| && t[i][j] == Flatten(t)[k]
    decreases |t|
  {
    var n := |t|;
    var front := Flatten(t[..n - 1]);
    if k < |front| {
      FlattenFrom(t[..n - 1], k);
      var i, j :| 0 <= i < n - 1 && 0 <= j < |t[..n - 1][i]| && t[..n - 1][i][j] == front[k];
      assert t[i][j] == Flatten(t)[k];
    } else {
      assert t[n - 1][k - |front|] == Flatten(t)[k];
    }
  }

  /** The samples of tile `(bc, br)` in the source's scan order. */
  function TileSamples(img: seq<seq<int>>, g: Geometry, bc: nat, br: nat): (s: seq<int>)
    requires g.Valid() && IsImage(img, g.size)
    requires bc < g.blocks && br < g.blocks
  {
    Flatten(Cut(img, g)[bc][br])
  }

  /** A tile holds `Side()^2` samples (`pixelsPerBock`), each a sample of the
      image, and they respect the image's intensity domain. */
  lemma TileSamplesShape(img: seq<seq<int>>, g: Geometry, maxValue: nat, bc: nat, br: nat)
    requires g.Valid() && IsSampleImage(img, g.size, maxValue)
    requires bc < g.blocks && br < g.blocks
    ensures |TileSamples(img, g, bc, br)| == g.Side() * g.Side()
    ensures InRange(TileSamples(img, g, bc, br), 0, maxValue)
  {
    var t := Cut(img, g)[bc][br];
    FlattenLength(t, g.Side());
    forall k | 0 <= k < |t|
      ensures InRange(t[k], 0, maxValue)
    {
      forall j | 0 <= j < |t[k]|
        ensures 0 <= t[k][j] <= maxValue
      {
        assert t[k][j] == img[PixelOf(g, bc, k)][PixelOf(g, br, j)];
      }
    }
    FlattenInRange(t, 0, maxValue);
  }

  /** With a single tile the cut is the image itself. */
  lemma SingleTileIsImage(img: seq<seq<int>>, g: Geometry)
    requires g.Valid() && IsImage(img, g.size) && g.blocks == 1
    ensures Cut(img, g)[0][0] == img
    ensures TileSamples(img, g, 0, 0) == Flatten(img)
  {
    var t := Cut(img, g)[0][0];
    assert g.Side() == g.size;
    assert |t| == |img|;
    forall c | 0 <= c < |img|
      ensures t[c] == img[c]
    {
      assert |t[c]| == |img[c]|;
      forall r | 0 <= r < |img[c]|
        ensures t[c][r] == img[c][r]
      {
        assert PixelOf(g, 0, c) == c && PixelOf(g, 0, r) == r;
      }
    }
  }
}
