/** Step 5: bilinear interpolation. Each output pixel blends the maps of the
    two nearest tiles along each axis, weighted by its distance to their centres. */
module Interpolation {
  import opened SeqMath
  import JavaArith

  /** The pixel coordinate of the centre of tile `b` along one axis:
      `b * pixelsPerBlock + pixelsPerBlock / 2`. */
  function Center(side: nat, b: int): int {
    b * side + side / 2
  }

  /** The two tiles blended along one axis (`bc1, bc2` or `br1, br2`). */
  datatype Pair = Pair(first: nat, second: nat)

  /** A coordinate lies inside its own tile, and that tile is on the grid. */
  lemma AxisFacts(side: nat, blocks: nat, x: nat)
    requires side > 0 && blocks > 0 && x < side * blocks
    ensures (x / side) * side <= x < (x / side) * side + side
    ensures x / side < blocks
  {
    JavaArith.Euclid(x, side);
    assert side * (x / side) <= x < side * blocks;
    JavaArith.MulStrict(side, x / side, blocks);
  }

  /** Consecutive centres are one tile apart, and a centre lies inside its tile. */
  lemma CenterFacts(side: nat, b: int)
    requires side > 0
    ensures Center(side, b + 1) == Center(side, b) + side
    ensures b * side <= Center(side, b) < b * side + side
  {
    assert (b + 1) * side == b * side + side;
  }

  /** Neighbour selection: a coordinate before its tile's centre pairs its
      tile with the previous one (clamped at 0), otherwise with the next one
      (clamped at the last tile). */
  function Neighbours(side: nat, blocks: nat, x: nat): (p: Pair)
    requires side > 0 && blocks > 0 && x < side * blocks
    ensures p.first <= p.second <= p.first + 1 && p.second < blocks
    ensures x / side == p.first || x / side == p.second
    ensures p.first != p.second ==> Center(side, p.first) <= x < Center(side, p.second)
    ensures p.first == p.second ==>
      (p.first == 0 && x < Center(side, 0)) || (p.first == blocks - 1 && x >= Center(side, blocks - 1))
  {
    AxisFacts(side, blocks, x);
    var b := x / side;
    CenterFacts(side, b - 1);
    CenterFacts(side, b);
    if x < Center(side, b) then
      Pair(if b - 1 < 0 then 0 else b - 1, b)
    else
      Pair(b, if b + 1 >= blocks then b else b + 1)
  }

  /** The weight of the first neighbour: `(c2 - x) / (c2 - c1)`, or 0 when the
      two centres coincide. */
  function Weight(side: nat, x: int, p: Pair): real {
    var c1, c2 := Center(side, p.first), Center(side, p.second);
    if c2 - c1 == 0 then 0.0 else (c2 - x) as real / (c2 - c1) as real
  }

  /** The weight is 0 for a clamped pair and otherwise lies in `(0, 1]`,
      falling linearly from 1 at the first centre toward 0 at the second. */
  lemma WeightRange(side: nat, blocks: nat, x: nat)
    requires side > 0 && blocks > 0 && x < side * blocks
    ensures var p := Neighbours(side, blocks, x);
      var m := Weight(side, x, p);
      && (p.first == p.second ==> m == 0.0)
      && (p.first != p.second ==> 0.0 < m <= 1.0)
      && (p.first != p.second ==> m * side as real == (Center(side, p.second) - x) as real)
  {
    var p := Neighbours(side, blocks, x);
    if p.first != p.second {
      var c1, c2 := Center(side, p.first), Center(side, p.second);
      CenterFacts(side, p.first);
      assert c2 - c1 == side;
      WeightOfGap(c2 - x, side);
    }
  }

  /** A gap `k` in `(0, side]` over a positive `side` is a weight in `(0, 1]`
      that scales back to `k`. */
  lemma WeightOfGap(k: int, side: nat)
    requires 0 < k <= side
    ensures 0.0 < k as real / side as real <= 1.0
    ensures (k as real / side as real) * side as real == k as real
  {
  }

  lemma RealMulNonNegative(x: real, y: real)
    requires x >= 0.0 && y >= 0.0
    ensures x * y >= 0.0
  {
  }

  /** `w * a + (1 - w) * b` stays within any bounds `a` and `b` share,
      for `w` in `[0, 1]`. */
  lemma Mix(w: real, a: real, b: real, lo: real, hi: real)
    requires 0.0 <= w <= 1.0
    requires lo <= a <= hi && lo <= b <= hi
    ensures lo <= w * a + (1.0 - w) * b <= hi
  {
    RealMulNonNegative(w, a - lo);
    RealMulNonNegative(1.0 - w, b - lo);
    RealMulNonNegative(w, hi - a);
    RealMulNonNegative(1.0 - w, hi - b);
    assert w * a + (1.0 - w) * b - lo == w * (a - lo) + (1.0 - w) * (b - lo);
    assert hi - (w * a + (1.0 - w) * b) == w * (hi - a) + (1.0 - w) * (hi - b);
  }

  /** The bilinear blend of four map values with weights `m` (columns) and
      `n` (rows). */
  function Blend(m: real, n: real, ta: int, tb: int, tc: int, td: int): real {
    m * (n * ta as real + (1.0 - n) * tb as real) + (1.0 - m) * (n * tc as real + (1.0 - n) * td as real)
  }

  /** With weights in `[0, 1]` the blend stays within any bounds the four
      values share. */
  lemma BlendBetween(m: real, n: real, ta: int, tb: int, tc: int, td: int, lo: real, hi: real)
    requires 0.0 <= m <= 1.0 && 0.0 <= n <= 1.0
    requires lo <= ta as real <= hi && lo <= tb as real <= hi
    requires lo <= tc as real <= hi && lo <= td as real <= hi
    ensures lo <= Blend(m, n, ta, tb, tc, td) <= hi
  {
    var left := n * ta as real + (1.0 - n) * tb as real;
    var right := n * tc as real + (1.0 - n) * td as real;
    Mix(n, ta as real, tb as real, lo, hi);
    Mix(n, tc as real, td as real, lo, hi);
    Mix(m, left, right, lo, hi);
  }

  /** Per-tile maps: `tables[bc][br]` has one entry per intensity. */
  predicate IsTableGrid(tables: seq<seq<seq<int>>>, blocks: nat, bins: nat) {
    && |tables| == blocks
    && forall bc :: 0 <= bc < blocks ==>
         |tables[bc]| == blocks && forall br :: 0 <= br < blocks ==> |tables[bc][br]| == bins
  }

  /** The four map values one pixel blends: `Ta, Tb, Tc, Td`. */
  function Lookups(side: nat, blocks: nat, tables: seq<seq<seq<int>>>, bins: nat, c: nat, r: nat, p: int): (t: seq<int>)
    requires side > 0 && blocks > 0 && c < side * blocks && r < side * blocks
    requires IsTableGrid(tables, blocks, bins) && 0 <= p < bins
    ensures |t| == 4
  {
    var pc, pr := Neighbours(side, blocks, c), Neighbours(side, blocks, r);
    [tables[pc.first][pr.first][p], tables[pc.first][pr.second][p],
     tables[pc.second][pr.first][p], tables[pc.second][pr.second][p]]
  }

  /** The transformed value of pixel `(c, r)` whose original intensity is `p`:
      the blend of its four lookups, cast to `int`. It never leaves the range
      of the four lookups. */
  function OutputPixel(side: nat, blocks: nat, tables: seq<seq<seq<int>>>, bins: nat, c: nat, r: nat, p: int): (out: int)
    requires side > 0 && blocks > 0 && c < side * blocks && r < side * blocks
    requires IsTableGrid(tables, blocks, bins) && 0 <= p < bins
    ensures Min(Lookups(side, blocks, tables, bins, c, r, p)) <= out <= Max(Lookups(side, blocks, tables, bins, c, r, p))
  {
    var pc, pr := Neighbours(side, blocks, c), Neighbours(side, blocks, r);
    var m, n := Weight(side, c, pc), Weight(side, r, pr);
    var t := Lookups(side, blocks, tables, bins, c, r, p);
    WeightRange(side, blocks, c);
    WeightRange(side, blocks, r);
    BlendBetween(m, n, t[0], t[1], t[2], t[3], Min(t) as real, Max(t) as real);
    JavaArith.TruncBetween(Blend(m, n, t[0], t[1], t[2], t[3]), Min(t), Max(t));
    JavaArith.Trunc(Blend(m, n, t[0], t[1], t[2], t[3]))
  }

  /** A coordinate at its own tile's centre is paired with its own tile
      first, at full weight. */
  lemma WeightAtOwnCenter(side: nat, blocks: nat, x: nat)
    requires side > 0 && blocks > 0 && x < side * blocks
    requires x == Center(side, x / side)
    ensures var p := Neighbours(side, blocks, x);
      p.first == x / side && (p.first != p.second ==> Weight(side, x, p) == 1.0)
  {
    var b := x / side;
    var p := Neighbours(side, blocks, x);
    AxisFacts(side, blocks, x);
    CenterFacts(side, b);
    assert !(x < Center(side, b));
    assert p.first == b;
    if p.first != p.second {
      assert p.second == b + 1;
      var d := side as real;
      assert (Center(side, p.second) - x) as real == d;
      assert (Center(side, p.second) - Center(side, p.first)) as real == d;
      assert d > 0.0 && d / d == 1.0;
      assert Weight(side, x, p) == d / d;
    }
  }

  /** At a tile centre (on both axes) the output is exactly that tile's own
      map value: the blend reduces to the pixel's own tile there. */
  lemma CenterPixelUsesOwnTable(side: nat, blocks: nat, tables: seq<seq<seq<int>>>, bins: nat, c: nat, r: nat, p: int)
    requires side > 0 && blocks > 0 && c < side * blocks && r < side * blocks
    requires IsTableGrid(tables, blocks, bins) && 0 <= p < bins
    requires c == Center(side, c / side) && r == Center(side, r / side)
    ensures c / side < blocks && r / side < blocks
      && OutputPixel(side, blocks, tables, bins, c, r, p) == tables[c / side][r / side][p]
  {
    var pc, pr := Neighbours(side, blocks, c), Neighbours(side, blocks, r);
    var m, n := Weight(side, c, pc), Weight(side, r, pr);
    WeightAtOwnCenter(side, blocks, c);
    WeightAtOwnCenter(side, blocks, r);
    var t := Lookups(side, blocks, tables, bins, c, r, p);
    assert m == 1.0 || (m == 0.0 && t[2] == t[0] && t[3] == t[1]);
    assert n == 1.0 || (n == 0.0 && t[1] == t[0] && t[3] == t[2]);
    assert Blend(m, n, t[0], t[1], t[2], t[3]) == t[0] as real;
  }

  /** With a single tile all four lookups hit tile `(0, 0)`, both weights are
      0, and the output is exactly that tile's map value. */
  lemma SingleTilePixel(side: nat, tables: seq<seq<seq<int>>>, bins: nat, c: nat, r: nat, p: int)
    requires side > 0 && c < side && r < side
    requires IsTableGrid(tables, 1, bins) && 0 <= p < bins
    ensures OutputPixel(side, 1, tables, bins, c, r, p) == tables[0][0][p]
  {
    var pc, pr := Neighbours(side, 1, c), Neighbours(side, 1, r);
    assert pc == Pair(0, 0) && pr == Pair(0, 0);
  }
}
