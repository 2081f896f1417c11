/**
 * Distances from a centroid and the cumulative distance bands that both
 * ring analyses use.
 *
 * The source compares `sqrt((y - cy)^2 + (x - cx)^2) * pixel_size_m` with
 * ring bounds.  With a positive pixel size that distance is the square root
 * of `Dist2` below, so each comparison is stated on squares:
 * `DistLess(d2, b)` is `sqrt(d2) < b` and `DistAtLeast(d2, a)` is
 * `sqrt(d2) >= a`, for every `d2 >= 0` and any sign of the bound.
 */
module Geometry {
  import opened Grids

  /** (row, col) in the pixel-index space of a mask. */
  datatype Centroid = Centroid(row: real, col: real)

  /** Squared distance in metres from the centroid to the centre of cell (i, j). */
  function Dist2(i: int, j: int, c: Centroid, pixelSizeM: real): (d2: real)
    ensures d2 >= 0.0
  {
    var dy, dx := i as real - c.row, j as real - c.col;
    (dy * dy + dx * dx) * (pixelSizeM * pixelSizeM)
  }

  /** `sqrt(d2) < b`. */
  predicate DistLess(d2: real, b: real) {
    b > 0.0 && d2 < b * b
  }

  /** `sqrt(d2) >= a`. */
  predicate DistAtLeast(d2: real, a: real) {
    a <= 0.0 || d2 >= a * a
  }

  /** The half-open distance band `[a, b)`. */
  predicate InBand(d2: real, a: real, b: real) {
    DistAtLeast(d2, a) && DistLess(d2, b)
  }

  /** Cell predicate: the cell's distance from `c` is in `[a, b)`. */
  function BandAt(c: Centroid, pixelSizeM: real, a: real, b: real): (int, int) -> bool {
    (i, j) => InBand(Dist2(i, j, c, pixelSizeM), a, b)
  }

  /** Cell predicate: the cell's distance from `c` is below `b`. */
  function WithinAt(c: Centroid, pixelSizeM: real, b: real): (int, int) -> bool {
    (i, j) => DistLess(Dist2(i, j, c, pixelSizeM), b)
  }

  /** Lit cells of `m` whose distance from `c` is in `[a, b)`. */
  function BandCount(m: Mask, c: Centroid, pixelSizeM: real, a: real, b: real): nat {
    Count(Select(m, BandAt(c, pixelSizeM, a, b)))
  }

  /** Lit cells of `m` whose distance from `c` is below `b`. */
  function WithinCount(m: Mask, c: Centroid, pixelSizeM: real, b: real): nat {
    Count(Select(m, WithinAt(c, pixelSizeM, b)))
  }

  /** Cumulative ring bound: the sum of the first `k` ring widths (`prev_dist` after k rings). */
  function Bound(widths: seq<real>, k: nat): real
    requires k <= |widths|
  {
    if k == 0 then 0.0 else Bound(widths, k - 1) + widths[k - 1]
  }

  ghost predicate NonNegative(widths: seq<real>) {
    forall k | 0 <= k < |widths| :: widths[k] >= 0.0
  }

  lemma {:induction false} BoundMono(widths: seq<real>, k: nat, l: nat)
    requires NonNegative(widths) && k <= l <= |widths|
    ensures 0.0 <= Bound(widths, k) <= Bound(widths, l)
  {
    if l > k {
      BoundMono(widths, k, l - 1);
    } else if k > 0 {
      BoundMono(widths, k - 1, k);
    }
  }

  /** For a <= b, "below b" splits into "below a" and "in [a, b)", which are disjoint. */
  lemma BandSplit(d2: real, a: real, b: real)
    requires a <= b
    ensures DistLess(d2, b) == (DistLess(d2, a) || InBand(d2, a, b))
    ensures !(DistLess(d2, a) && InBand(d2, a, b))
  {
    if DistLess(d2, a) { assert a * a <= b * b; }
  }

  /** The first band `[0, w)` is the core "distance < w": every distance is at least 0. */
  lemma CoreIsFirstBand(m: Mask, c: Centroid, pixelSizeM: real, w: real)
    ensures WithinCount(m, c, pixelSizeM, w) == BandCount(m, c, pixelSizeM, 0.0, w)
  {
    CountExt(Select(m, WithinAt(c, pixelSizeM, w)), Select(m, BandAt(c, pixelSizeM, 0.0, w)));
  }

  /** The lit count of the band `[a, b)` around `c`, as a function of the bounds. */
  function BandCounter(m: Mask, c: Centroid, pixelSizeM: real): (real, real) -> nat {
    (a, b) => BandCount(m, c, pixelSizeM, a, b)
  }

  /** Sum of `count` over the first `n` cumulative bands. */
  function CountSum(count: (real, real) -> nat, widths: seq<real>, n: nat): nat
    requires n <= |widths|
  {
    if n == 0 then 0 else CountSum(count, widths, n - 1) + count(Bound(widths, n - 1), Bound(widths, n))
  }

  /** For `a <= b` the disc below `b` is the disc below `a` plus the band `[a, b)`. */
  lemma BandStep(m: Mask, c: Centroid, pixelSizeM: real, a: real, b: real)
    requires a <= b
    ensures WithinCount(m, c, pixelSizeM, b) == WithinCount(m, c, pixelSizeM, a) + BandCounter(m, c, pixelSizeM)(a, b)
  {
    var disc := Select(m, WithinAt(c, pixelSizeM, b));
    var inner := Select(m, WithinAt(c, pixelSizeM, a));
    var band := Select(m, BandAt(c, pixelSizeM, a, b));
    forall i, j | 0 <= i < |disc| && 0 <= j < |disc[i]|
      ensures disc[i][j] == (inner[i][j] || band[i][j]) && !(inner[i][j] && band[i][j])
    {
      BandSplit(Dist2(i, j, c, pixelSizeM), a, b);
    }
    CountSplit(disc, inner, band);
  }

  /** The lit count of the disc below `b` around `c`, as a function of the bound. */
  function WithinCounter(m: Mask, c: Centroid, pixelSizeM: real): real -> nat {
    b => WithinCount(m, c, pixelSizeM, b)
  }

  /**
   * Any band counts that split the disc counts add up, over the first `n`
   * bands, to the count of the disc below `Bound(widths, n)`.
   */
  lemma {:induction false} TileDisc(count: (real, real) -> nat, within: real -> nat, widths: seq<real>, n: nat)
    requires NonNegative(widths) && n <= |widths|
    requires within(0.0) == 0
    requires forall a, b | a <= b :: within(b) == within(a) + count(a, b)
    ensures CountSum(count, widths, n) == within(Bound(widths, n))
  {
    if n > 0 {
      TileDisc(count, within, widths, n - 1);
      assert widths[n - 1] >= 0.0;
    }
  }

  /**
   * With non-negative widths the first `n` bands tile the disc of radius
   * `Bound(widths, n)`: every lit cell in it is in exactly one band.  So the
   * band counts add up to the lit cells within the outer bound, never more
   * than all lit cells.
   */
  lemma BandsTileDisc(m: Mask, c: Centroid, pixelSizeM: real, widths: seq<real>, n: nat)
    requires NonNegative(widths) && n <= |widths|
    ensures CountSum(BandCounter(m, c, pixelSizeM), widths, n) == WithinCount(m, c, pixelSizeM, Bound(widths, n))
    ensures CountSum(BandCounter(m, c, pixelSizeM), widths, n) <= Count(m)
  {
    var within := WithinCounter(m, c, pixelSizeM);
    CountZeroIff(Select(m, WithinAt(c, pixelSizeM, 0.0)));
    forall a, b | a <= b
      ensures within(b) == within(a) + BandCounter(m, c, pixelSizeM)(a, b)
    {
      BandStep(m, c, pixelSizeM, a, b);
    }
    TileDisc(BandCounter(m, c, pixelSizeM), within, widths, n);
    CountMono(Select(m, WithinAt(c, pixelSizeM, Bound(widths, n))), m);
  }
}
