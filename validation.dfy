/**
 * Cross-resolution validation of a coarse (VIIRS) urban mask against a fine
 * (Landsat) NDBI raster: block averaging of the fine grid that skips missing
 * values, the top-left crop to a common extent, the 2x2 confusion counts and
 * the accuracy metrics (overall, producer's, user's accuracy and Cohen's
 * kappa).
 *
 * Fine rasters are float32 with NaN for missing values; a cell is `Cell`.
 * The coarse mask is uint8: its values are kept as integers, because a value
 * outside {0, 1} is treated differently by the confusion counts.
 */
module Validation {
  import opened Grids

  /** A float cell of the fine raster: NaN or a number. */
  datatype Cell = NaN | Num(v: real)

  // ---------------------------------------------------------------------
  // np.nanmean
  // ---------------------------------------------------------------------

  /** Number of non-NaN cells. */
  function NumCount(cells: seq<Cell>): nat {
    if |cells| == 0 then 0 else NumCount(cells[..|cells| - 1]) + (if cells[|cells| - 1].Num? then 1 else 0)
  }

  /** Sum of the non-NaN cells. */
  function NumSum(cells: seq<Cell>): real {
    if |cells| == 0 then 0.0 else NumSum(cells[..|cells| - 1]) + (if cells[|cells| - 1].Num? then cells[|cells| - 1].v else 0.0)
  }

  /** `np.nanmean`: the mean of the non-NaN cells, NaN when there is none. */
  function NanMean(cells: seq<Cell>): Cell {
    if NumCount(cells) == 0 then NaN else Num(NumSum(cells) / NumCount(cells) as real)
  }

  /** Every number among `cells` lies in [lo, hi]. */
  ghost predicate NumsWithin(cells: seq<Cell>, lo: real, hi: real) {
    forall k | 0 <= k < |cells| && cells[k].Num? :: lo <= cells[k].v <= hi
  }

  lemma {:induction false} NumCountZeroIff(cells: seq<Cell>)
    ensures NumCount(cells) == 0 <==> forall k | 0 <= k < |cells| :: cells[k].NaN?
  {
    if |cells| > 0 {
      var init := cells[..|cells| - 1];
      NumCountZeroIff(init);
      assert forall k | 0 <= k < |init| :: init[k] == cells[k];
    }
  }

  /** The sum of the numbers lies between n * lo and n * hi for n numbers in [lo, hi]. */
  lemma NumSumBounds(cells: seq<Cell>, lo: real, hi: real)
    requires NumsWithin(cells, lo, hi)
    ensures lo * NumCount(cells) as real <= NumSum(cells) <= hi * NumCount(cells) as real
  {
    NumSumLower(cells, lo, hi);
    NumSumUpper(cells, lo, hi);
  }

  lemma {:induction false} NumSumLower(cells: seq<Cell>, lo: real, hi: real)
    requires NumsWithin(cells, lo, hi)
    ensures lo * NumCount(cells) as real <= NumSum(cells)
  {
    if |cells| > 0 {
      var init := cells[..|cells| - 1];
      NumsWithinInit(cells, lo, hi);
      NumSumLower(init, lo, hi);
      if cells[|cells| - 1].Num? {
        var c := NumCount(init);
        assert NumCount(cells) == c + 1;
        ScaleSucc(lo, c);
      }
    }
  }

  lemma {:induction false} NumSumUpper(cells: seq<Cell>, lo: real, hi: real)
    requires NumsWithin(cells, lo, hi)
    ensures NumSum(cells) <= hi * NumCount(cells) as real
  {
    if |cells| > 0 {
      var init := cells[..|cells| - 1];
      NumsWithinInit(cells, lo, hi);
      NumSumUpper(init, lo, hi);
      if cells[|cells| - 1].Num? {
        var c := NumCount(init);
        assert NumCount(cells) == c + 1;
        ScaleSucc(hi, c);
      }
    }
  }

  lemma ScaleSucc(x: real, c: nat)
    ensures x * (c + 1) as real == x * c as real + x
  {
  }

  /** Bounds on the numbers of some cells hold for the numbers of any prefix. */
  lemma NumsWithinInit(cells: seq<Cell>, lo: real, hi: real)
    requires |cells| > 0 && NumsWithin(cells, lo, hi)
    ensures NumsWithin(cells[..|cells| - 1], lo, hi)
  {
    var init := cells[..|cells| - 1];
    forall k | 0 <= k < |init| && init[k].Num? ensures lo <= init[k].v <= hi {
      assert init[k] == cells[k];
    }
  }

  lemma MulStrict(a: real, b: real, n: real)
    requires a < b && n > 0.0
    ensures a * n < b * n
  {
  }

  /** A quotient by a positive count lies between bounds the total respects. */
  lemma QuotientWithin(s: real, n: real, lo: real, hi: real)
    requires n > 0.0 && lo * n <= s <= hi * n
    ensures lo <= s / n <= hi
  {
    var x := s / n;
    assert x * n == s;
    if x < lo { MulStrict(x, lo, n); }
    if hi < x { MulStrict(hi, x, n); }
  }

  /** `np.nanmean` is NaN exactly when every cell is NaN. */
  lemma NanMeanNaNIff(cells: seq<Cell>)
    ensures NanMean(cells).NaN? <==> forall k | 0 <= k < |cells| :: cells[k].NaN?
  {
    NumCountZeroIff(cells);
  }

  /** The mean of the numbers lies between any bounds of the numbers. */
  lemma NanMeanWithin(cells: seq<Cell>, lo: real, hi: real)
    requires NumsWithin(cells, lo, hi)
    ensures NanMean(cells).Num? ==> lo <= NanMean(cells).v <= hi
  {
    if NumCount(cells) > 0 {
      NumSumBounds(cells, lo, hi);
      QuotientWithin(NumSum(cells), NumCount(cells) as real, lo, hi);
    }
  }

  /** Cells whose numbers all equal `x`, with at least one number, average to `x`. */
  lemma NanMeanConstant(cells: seq<Cell>, x: real)
    requires NumsWithin(cells, x, x)
    requires exists k :: 0 <= k < |cells| && cells[k].Num?
    ensures NanMean(cells) == Num(x)
  {
    NanMeanNaNIff(cells);
    NanMeanWithin(cells, x, x);
  }

  // ---------------------------------------------------------------------
  // Tiles of a fine grid (block averaging)
  // ---------------------------------------------------------------------

  type CellGrid = seq<seq<Cell>>

  lemma DivBound(h: nat, d: nat, i: nat)
    requires d > 0 && i < h / d
    ensures i * d + d <= h
  {
    MulMonoNat(i + 1, h / d, d);
  }

  lemma MulMonoNat(x: nat, y: nat, d: nat)
    requires x <= y
    ensures x * d <= y * d
  {
  }

  /**
   * The cells `g[r][c0..c0 + d]` of the `k` rows from `r0`, row after row:
   * the slice `g[r0:r0 + k, c0:c0 + d]`.
   */
  function TileCells(g: CellGrid, r0: nat, c0: nat, d: nat, k: nat): seq<Cell>
    requires r0 + k <= |g| && forall r | r0 <= r < r0 + k :: c0 + d <= |g[r]|
  {
    if k == 0 then [] else TileCells(g, r0, c0, d, k - 1) + g[r0 + k - 1][c0..c0 + d]
  }

  /** Every cell of `s` satisfies `p`. */
  ghost predicate All(s: seq<Cell>, p: Cell -> bool) {
    forall t | 0 <= t < |s| :: p(s[t])
  }

  lemma AllConcat(a: seq<Cell>, b: seq<Cell>, p: Cell -> bool)
    ensures All(a + b, p) <==> All(a, p) && All(b, p)
  {
    if All(a, p) && All(b, p) {
      forall t | 0 <= t < |a + b| ensures p((a + b)[t]) {
        if t >= |a| { assert (a + b)[t] == b[t - |a|]; }
      }
    }
    if All(a + b, p) {
      forall t | 0 <= t < |a| ensures p(a[t]) {
        assert (a + b)[t] == a[t];
      }
      forall t | 0 <= t < |b| ensures p(b[t]) {
        assert (a + b)[|a| + t] == b[t];
      }
    }
  }

  /** A property holds of all the tile's cells exactly when it holds at every position of the slice. */
  lemma {:induction false} TileCellsAll(g: CellGrid, r0: nat, c0: nat, d: nat, k: nat, p: Cell -> bool)
    requires r0 + k <= |g| && forall r | r0 <= r < r0 + k :: c0 + d <= |g[r]|
    ensures All(TileCells(g, r0, c0, d, k), p) <==> forall r, c | r0 <= r < r0 + k && c0 <= c < c0 + d :: p(g[r][c])
  {
    if k > 0 {
      var last := g[r0 + k - 1];
      var row := last[c0..c0 + d];
      TileCellsAll(g, r0, c0, d, k - 1, p);
      AllConcat(TileCells(g, r0, c0, d, k - 1), row, p);
      if All(row, p) {
        forall c | c0 <= c < c0 + d ensures p(last[c]) {
          assert row[c - c0] == last[c];
        }
      }
      if forall c | c0 <= c < c0 + d :: p(last[c]) {
        forall t | 0 <= t < |row| ensures p(row[t]) {
          assert row[t] == last[c0 + t];
        }
      }
    }
  }

  /** Tile (i, j) of side `d` lies inside the rectangular grid `g`. */
  ghost predicate TileFits(g: CellGrid, d: nat, i: nat, j: nat) {
    Rect(g) && d > 0 && i < |g| / d && j < Cols(g) / d
  }

  /** Cell (r, c) of `g` is in the tile (i, j) of side `d`. */
  ghost predicate InTile(g: CellGrid, d: nat, i: nat, j: nat, r: int, c: int) {
    0 <= r < |g| && 0 <= c < |g[r]| && i * d <= r < i * d + d && j * d <= c < j * d + d
  }

  /** The block `g[i*d:(i+1)*d, j*d:(j+1)*d]`, row after row. */
  function Tile(g: CellGrid, d: nat, i: nat, j: nat): seq<Cell>
    requires TileFits(g, d, i, j)
  {
    DivBound(|g|, d, i);
    DivBound(Cols(g), d, j);
    TileCells(g, i * d, j * d, d, d)
  }

  /** `np.nanmean(block)` for tile (i, j). */
  function TileMean(g: CellGrid, d: nat, i: nat, j: nat): Cell
    requires TileFits(g, d, i, j)
  {
    NanMean(Tile(g, d, i, j))
  }

  /** `p` holds of the tile's cells exactly when it holds of every grid cell in the tile. */
  lemma TileAll(g: CellGrid, d: nat, i: nat, j: nat, p: Cell -> bool)
    requires TileFits(g, d, i, j)
    ensures All(Tile(g, d, i, j), p) <==> forall r, c | InTile(g, d, i, j, r, c) :: p(g[r][c])
  {
    DivBound(|g|, d, i);
    DivBound(Cols(g), d, j);
    TileCellsAll(g, i * d, j * d, d, d, p);
  }

  /** A tile averages to NaN exactly when every cell in it is NaN. */
  lemma TileMeanNaNIff(g: CellGrid, d: nat, i: nat, j: nat)
    requires TileFits(g, d, i, j)
    ensures TileMean(g, d, i, j).NaN? <==> forall r, c | InTile(g, d, i, j, r, c) :: g[r][c].NaN?
  {
    var cells := Tile(g, d, i, j);
    TileAll(g, d, i, j, (x: Cell) => x.NaN?);
    NanMeanNaNIff(cells);
  }

  /** A tile's mean lies between any bounds of the numbers in the tile, so between their min and max. */
  lemma TileMeanWithin(g: CellGrid, d: nat, i: nat, j: nat, lo: real, hi: real)
    requires TileFits(g, d, i, j)
    requires forall r, c | InTile(g, d, i, j, r, c) && g[r][c].Num? :: lo <= g[r][c].v <= hi
    ensures TileMean(g, d, i, j).Num? ==> lo <= TileMean(g, d, i, j).v <= hi
  {
    var cells := Tile(g, d, i, j);
    var p := (x: Cell) => x.Num? ==> lo <= x.v <= hi;
    TileAll(g, d, i, j, p);
    assert NumsWithin(cells, lo, hi) by {
      forall k | 0 <= k < |cells| && cells[k].Num? ensures lo <= cells[k].v <= hi {
        assert p(cells[k]);
      }
    }
    NanMeanWithin(cells, lo, hi);
  }

  /** A tile whose numbers all equal `x`, with at least one number, averages to `x`. */
  lemma TileMeanConstant(g: CellGrid, d: nat, i: nat, j: nat, x: real)
    requires TileFits(g, d, i, j)
    requires forall r, c | InTile(g, d, i, j, r, c) && g[r][c].Num? :: g[r][c].v == x
    requires exists r, c :: InTile(g, d, i, j, r, c) && g[r][c].Num?
    ensures TileMean(g, d, i, j) == Num(x)
  {
    TileMeanNaNIff(g, d, i, j);
    TileMeanWithin(g, d, i, j, x, x);
  }

  /**
   * The block average of `g` by the factor `d`: an (h // d) x (w // d) grid
   * whose cell (i, j) is the tile mean; the last `h % d` rows and `w % d`
   * columns belong to no tile.
   */
  function Downsample(g: CellGrid, d: nat): (ds: CellGrid)
    requires Rect(g) && d > 0
    ensures Rect(ds) && |ds| == |g| / d && (|ds| > 0 ==> Cols(ds) == Cols(g) / d)
  {
    seq(|g| / d, i requires 0 <= i < |g| / d =>
      seq(Cols(g) / d, j requires 0 <= j < Cols(g) / d => TileMean(g, d, i, j)))
  }

  /** A block average keeps whole tiles only: the leftover `h % d` rows and `w % d` columns are dropped. */
  lemma DownsampleShape(g: CellGrid, d: nat)
    requires Rect(g) && d > 0
    ensures var ds := Downsample(g, d);
      |ds| * d <= |g| < |ds| * d + d &&
      (|ds| > 0 ==> Cols(ds) * d <= Cols(g) < Cols(ds) * d + d)
  {
    DivMod(|g|, d);
    DivMod(Cols(g), d);
  }

  lemma DivMod(h: nat, d: nat)
    requires d > 0
    ensures (h / d) * d <= h < (h / d) * d + d
  {
  }

  /** Block averaging keeps every bound of the fine grid's numbers. */
  lemma DownsampleWithin(g: CellGrid, d: nat, lo: real, hi: real)
    requires Rect(g) && d > 0
    requires forall r, c | 0 <= r < |g| && 0 <= c < |g[r]| && g[r][c].Num? :: lo <= g[r][c].v <= hi
    ensures var ds := Downsample(g, d);
      forall i, j | 0 <= i < |ds| && 0 <= j < |ds[i]| && ds[i][j].Num? :: lo <= ds[i][j].v <= hi
  {
    var ds: CellGrid := Downsample(g, d);
    forall i, j | 0 <= i < |ds| && 0 <= j < |ds[i]| && ds[i][j].Num?
      ensures lo <= ds[i][j].v <= hi
    {
      TileMeanWithin(g, d, i, j, lo, hi);
    }
  }

  /** A grid of one constant number block-averages to that constant everywhere. */
  lemma DownsampleConstant(g: CellGrid, d: nat, x: real)
    requires Rect(g) && d > 0
    requires forall r, c | 0 <= r < |g| && 0 <= c < |g[r]| :: g[r][c] == Num(x)
    ensures var ds := Downsample(g, d);
      forall i, j | 0 <= i < |ds| && 0 <= j < |ds[i]| :: ds[i][j] == Num(x)
  {
    var ds: CellGrid := Downsample(g, d);
    forall i, j | 0 <= i < |ds| && 0 <= j < |ds[i]|
      ensures ds[i][j] == Num(x)
    {
      DivBound(|g|, d, i);
      DivBound(Cols(g), d, j);
      assert InTile(g, d, i, j, i * d, j * d);
      TileMeanConstant(g, d, i, j, x);
    }
  }

  /** The rows of a 2-D array. */
  function GridOf<T>(a: array2<T>): (g: seq<seq<T>>)
    reads a
  {
    seq(a.Length0, i requires 0 <= i < a.Length0 reads a =>
      seq(a.Length1, j requires 0 <= j < a.Length1 reads a => a[i, j]))
  }

  /**
   * The nested loops of `match_spatial_extent`: a preallocated
   * (h // d) x (w // d) array filled tile by tile with `np.nanmean`.
   */
  method BlockAverage(g: CellGrid, d: nat) returns (ds: array2<Cell>)
    requires Rect(g) && d > 0
    ensures fresh(ds)
    ensures GridOf(ds) == Downsample(g, d)
  {
    var newH, newW := |g| / d, Cols(g) / d;
    ds := new Cell[newH, newW]((_, _) => Num(0.0));
    for i := 0 to newH
      invariant forall i', j' | 0 <= i' < i && 0 <= j' < newW :: ds[i', j'] == TileMean(g, d, i', j')
    {
      for j := 0 to newW
        invariant forall i', j' | 0 <= i' < i && 0 <= j' < newW :: ds[i', j'] == TileMean(g, d, i', j')
        invariant forall j' | 0 <= j' < j :: ds[i, j'] == TileMean(g, d, i, j')
      {
        ds[i, j] := TileMean(g, d, i, j);
      }
    }
    assert GridOf(ds) == Downsample(g, d) by {
      forall i | 0 <= i < newH ensures GridOf(ds)[i] == Downsample(g, d)[i] {
      }
    }
  }

  /**
   * `match_spatial_extent` with the factor `downsample` (the rounded ratio
   * of the pixel sizes): the fine grid itself when the factor is at most 1,
   * its block average otherwise.
   */
  method MatchSpatialExtent(g: CellGrid, downsample: int) returns (out: CellGrid)
    requires Rect(g)
    ensures downsample <= 1 ==> out == g
    ensures downsample > 1 ==> out == Downsample(g, downsample)
  {
    if downsample <= 1 {
      return g;
    }
    var ds := BlockAverage(g, downsample);
    out := GridOf(ds);
  }

  // ---------------------------------------------------------------------
  // Crop to the common extent
  // ---------------------------------------------------------------------

  function Min(a: int, b: int): int {
    if a <= b then a else b
  }

  /** `a[:h, :w]`. */
  function Crop<T>(a: seq<seq<T>>, h: nat, w: nat): seq<seq<T>>
    requires h <= |a| && forall i | 0 <= i < h :: w <= |a[i]|
  {
    seq(h, i requires 0 <= i < h => a[i][..w])
  }

  /**
   * `crop_to_common_extent`: both grids cut to the smaller row count and the
   * smaller column count, keeping their top-left cells.
   */
  function CropToCommonExtent<T, U>(a: seq<seq<T>>, b: seq<seq<U>>): (r: (seq<seq<T>>, seq<seq<U>>))
    requires Rect(a) && Rect(b)
    ensures SameShape(r.0, r.1) && |r.0| == Min(|a|, |b|)
    ensures |r.0| > 0 ==> Cols(r.0) == Min(Cols(a), Cols(b))
    ensures forall i, j | 0 <= i < |r.0| && 0 <= j < |r.0[i]| :: r.0[i][j] == a[i][j] && r.1[i][j] == b[i][j]
  {
    var h, w := Min(|a|, |b|), Min(Cols(a), Cols(b));
    (Crop(a, h, w), Crop(b, h, w))
  }

  /** Grids of the same shape are left as they are. */
  lemma CropIdentity<T, U>(a: seq<seq<T>>, b: seq<seq<U>>)
    requires SameShape(a, b)
    ensures CropToCommonExtent(a, b) == (a, b)
  {
    var r := CropToCommonExtent(a, b);
    forall i | 0 <= i < |a| ensures r.0[i] == a[i] && r.1[i] == b[i] {
      assert a[i][..Cols(a)] == a[i];
      assert b[i][..Cols(b)] == b[i];
    }
    assert r.0 == a && r.1 == b;
  }

  /** Cropping twice crops no further. */
  lemma CropIdempotent<T, U>(a: seq<seq<T>>, b: seq<seq<U>>)
    requires Rect(a) && Rect(b)
    ensures var r := CropToCommonExtent(a, b); CropToCommonExtent(r.0, r.1) == r
  {
    var r := CropToCommonExtent(a, b);
    CropIdentity(r.0, r.1);
  }

  // ---------------------------------------------------------------------
  // Confusion counts
  // ---------------------------------------------------------------------

  /** `ndbi >= threshold`: a NaN cell compares false, so it is not urban. */
  predicate Urban(c: Cell, threshold: real) {
    c.Num? && c.v >= threshold
  }

  /** The fine urban mask `(landsat_ndbi >= landsat_threshold)`. */
  function FineMask(ndbi: CellGrid, threshold: real): (m: Mask)
    ensures Congruent(m, ndbi)
    ensures forall i, j | 0 <= i < |ndbi| && 0 <= j < |ndbi[i]| :: m[i][j] == Urban(ndbi[i][j], threshold)
  {
    seq(|ndbi|, i requires 0 <= i < |ndbi| =>
      seq(|ndbi[i]|, j requires 0 <= j < |ndbi[i]| => Urban(ndbi[i][j], threshold)))
  }

  /** A higher NDBI threshold never marks more cells urban. */
  lemma FineMaskAntitone(ndbi: CellGrid, t1: real, t2: real)
    requires t1 <= t2
    ensures Count(FineMask(ndbi, t2)) <= Count(FineMask(ndbi, t1))
  {
    CountMono(FineMask(ndbi, t2), FineMask(ndbi, t1));
  }

  /** The cells where the coarse value is `v` and the fine class is `urban`. */
  function Where(coarse: seq<seq<int>>, fine: Mask, v: int, urban: bool): (m: Mask)
    requires Congruent(coarse, fine)
    ensures Congruent(m, coarse)
    ensures forall i, j | 0 <= i < |coarse| && 0 <= j < |coarse[i]| :: m[i][j] == (coarse[i][j] == v && fine[i][j] == urban)
  {
    seq(|coarse|, i requires 0 <= i < |coarse| =>
      seq(|coarse[i]|, j requires 0 <= j < |coarse[i]| => coarse[i][j] == v && fine[i][j] == urban))
  }

  /** The cells of a coarse mask whose value is `v`. */
  function CoarseIs(coarse: seq<seq<int>>, v: int): (m: Mask)
    ensures Congruent(m, coarse)
    ensures forall i, j | 0 <= i < |coarse| && 0 <= j < |coarse[i]| :: m[i][j] == (coarse[i][j] == v)
  {
    seq(|coarse|, i requires 0 <= i < |coarse| =>
      seq(|coarse[i]|, j requires 0 <= j < |coarse[i]| => coarse[i][j] == v))
  }

  /** The cells of a coarse mask whose value is neither 0 nor 1. */
  function NonBinary(coarse: seq<seq<int>>): (m: Mask)
    ensures Congruent(m, coarse)
    ensures forall i, j | 0 <= i < |coarse| && 0 <= j < |coarse[i]| :: m[i][j] == (coarse[i][j] != 0 && coarse[i][j] != 1)
  {
    seq(|coarse|, i requires 0 <= i < |coarse| =>
      seq(|coarse[i]|, j requires 0 <= j < |coarse[i]| => coarse[i][j] != 0 && coarse[i][j] != 1))
  }

  /** Every value of the coarse mask is 0 or 1. */
  ghost predicate Binary(coarse: seq<seq<int>>) {
    forall i, j | 0 <= i < |coarse| && 0 <= j < |coarse[i]| :: coarse[i][j] == 0 || coarse[i][j] == 1
  }

  datatype Confusion = Confusion(tp: nat, fp: nat, fn: nat, tn: nat)

  /**
   * `compute_confusion_matrix`: TP, FP, FN and TN count the cells with coarse
   * value 1 or 0 and fine class urban or not.
   */
  function ConfusionMatrix(coarse: seq<seq<int>>, ndbi: CellGrid, threshold: real): Confusion
    requires SameShape(coarse, ndbi)
  {
    var fine := FineMask(ndbi, threshold);
    Confusion(Count(Where(coarse, fine, 1, true)), Count(Where(coarse, fine, 1, false)),
              Count(Where(coarse, fine, 0, true)), Count(Where(coarse, fine, 0, false)))
  }

  function Total(c: Confusion): nat {
    c.tp + c.fp + c.fn + c.tn
  }

  /** The cells with coarse value `v` are those counted as urban or not in the fine mask. */
  lemma CoarseSplit(coarse: seq<seq<int>>, fine: Mask, v: int)
    requires Congruent(coarse, fine)
    ensures Count(CoarseIs(coarse, v)) == Count(Where(coarse, fine, v, true)) + Count(Where(coarse, fine, v, false))
  {
    CountSplit(CoarseIs(coarse, v), Where(coarse, fine, v, true), Where(coarse, fine, v, false));
  }

  /** The cells of a coarse mask whose value is 0 or 1. */
  function BinaryCells(coarse: seq<seq<int>>): (m: Mask)
    ensures Congruent(m, coarse)
    ensures forall i, j | 0 <= i < |coarse| && 0 <= j < |coarse[i]| :: m[i][j] == (coarse[i][j] == 0 || coarse[i][j] == 1)
  {
    seq(|coarse|, i requires 0 <= i < |coarse| =>
      seq(|coarse[i]|, j requires 0 <= j < |coarse[i]| => coarse[i][j] == 0 || coarse[i][j] == 1))
  }

  /** Every cell of a grid. */
  function AllCells<T>(g: seq<seq<T>>): (m: Mask)
    ensures Congruent(m, g)
    ensures forall i, j | 0 <= i < |g| && 0 <= j < |g[i]| :: m[i][j]
  {
    seq(|g|, i requires 0 <= i < |g| => seq(|g[i]|, j => true))
  }

  /** The cells of a grid are those with value 1, with value 0, and with any other value. */
  lemma CoarsePartition(coarse: seq<seq<int>>)
    requires Rect(coarse)
    ensures Count(CoarseIs(coarse, 1)) + Count(CoarseIs(coarse, 0)) + Count(NonBinary(coarse)) == |coarse| * Cols(coarse)
  {
    var cells := AllCells(coarse);
    CountSplit(BinaryCells(coarse), CoarseIs(coarse, 1), CoarseIs(coarse, 0));
    CountSplit(cells, BinaryCells(coarse), NonBinary(coarse));
    CountBounded(cells);
  }

  /**
   * Every cell is counted once among TP, FP, FN, TN and the cells whose
   * coarse value is outside {0, 1}, which none of the four counts; so the four
   * counts add up to the cell count exactly when the coarse mask is binary.
   */
  lemma ConfusionTotal(coarse: seq<seq<int>>, ndbi: CellGrid, threshold: real)
    requires SameShape(coarse, ndbi)
    ensures Total(ConfusionMatrix(coarse, ndbi, threshold)) + Count(NonBinary(coarse)) == |coarse| * Cols(coarse)
    ensures Total(ConfusionMatrix(coarse, ndbi, threshold)) == |coarse| * Cols(coarse) <==> Binary(coarse)
  {
    ConfusionCells(coarse, ndbi, threshold);
    CountZeroIff(NonBinary(coarse));
    if !Binary(coarse) {
      var i, j :| 0 <= i < |coarse| && 0 <= j < |coarse[i]| && coarse[i][j] != 0 && coarse[i][j] != 1;
      assert Lit(NonBinary(coarse), i, j);
    }
  }

  /** The four counts and the cells outside {0, 1} together count every cell once. */
  lemma ConfusionCells(coarse: seq<seq<int>>, ndbi: CellGrid, threshold: real)
    requires SameShape(coarse, ndbi)
    ensures Total(ConfusionMatrix(coarse, ndbi, threshold)) + Count(NonBinary(coarse)) == |coarse| * Cols(coarse)
  {
    var fine := FineMask(ndbi, threshold);
    CoarseSplit(coarse, fine, 1);
    CoarseSplit(coarse, fine, 0);
    CoarsePartition(coarse);
  }

  /** The confusion counts of cells that all agree fall on the diagonal. */
  lemma AgreementDiagonal(coarse: seq<seq<int>>, ndbi: CellGrid, threshold: real)
    requires SameShape(coarse, ndbi)
    requires forall i, j | 0 <= i < |coarse| && 0 <= j < |coarse[i]| :: coarse[i][j] == (if Urban(ndbi[i][j], threshold) then 1 else 0)
    ensures ConfusionMatrix(coarse, ndbi, threshold).fp == 0 && ConfusionMatrix(coarse, ndbi, threshold).fn == 0
  {
    var fine := FineMask(ndbi, threshold);
    CountZeroIff(Where(coarse, fine, 1, false));
    CountZeroIff(Where(coarse, fine, 0, true));
  }

  // ---------------------------------------------------------------------
  // Accuracy metrics
  // ---------------------------------------------------------------------

  /** `num / den if den > 0 else 0`. */
  function Ratio(num: nat, den: nat): real {
    if den > 0 then num as real / den as real else 0.0
  }

  /**
   * Chance agreement `pe`: the product of the urban marginals plus the
   * product of the non-urban marginals.
   */
  function ExpectedAgreement(c: Confusion): real
    requires Total(c) > 0
  {
    var n := Total(c) as real;
    ((c.tp + c.fp) as real / n) * ((c.tp + c.fn) as real / n) + ((c.fn + c.tn) as real / n) * ((c.fp + c.tn) as real / n)
  }

  /**
   * Cohen's kappa `(po - pe) / (1 - pe)`, 0 when `1 - pe` is not positive.
   * With no cells the marginals are numpy's 0/0 = NaN, the guard is false
   * and kappa is 0.
   */
  function Kappa(c: Confusion): real {
    if Total(c) == 0 then 0.0
    else
      var po, pe := Ratio(c.tp + c.tn, Total(c)), ExpectedAgreement(c);
      if 1.0 - pe > 0.0 then (po - pe) / (1.0 - pe) else 0.0
  }

  datatype Metrics = Metrics(overallAccuracy: real, producersAccuracy: real, usersAccuracy: real, kappa: real)

  /** `compute_accuracy_metrics`. */
  function AccuracyMetrics(c: Confusion): Metrics {
    Metrics(Ratio(c.tp + c.tn, Total(c)), Ratio(c.tp, c.tp + c.fn), Ratio(c.tp, c.tp + c.fp), Kappa(c))
  }

  lemma QuotientAtMostOne(x: real, y: real)
    requires y > 0.0 && x <= y
    ensures x / y <= 1.0
  {
    QuotientWithin(x, y, x / y, 1.0);
  }

  /** A part over a whole is a proportion, and 0 for an empty whole. */
  lemma RatioUnit(num: nat, den: nat)
    requires num <= den
    ensures 0.0 <= Ratio(num, den) <= 1.0
    ensures den == 0 ==> Ratio(num, den) == 0.0
  {
    if den > 0 {
      QuotientAtMostOne(num as real, den as real);
    }
  }

  /** OA, PA and UA are proportions, each 0 when its denominator is 0; kappa is at most 1, and 0 for an empty matrix. */
  lemma MetricsBounds(c: Confusion)
    ensures var m := AccuracyMetrics(c);
      0.0 <= m.overallAccuracy <= 1.0 && 0.0 <= m.producersAccuracy <= 1.0 && 0.0 <= m.usersAccuracy <= 1.0
    ensures Total(c) == 0 ==> AccuracyMetrics(c).overallAccuracy == 0.0
    ensures c.tp + c.fn == 0 ==> AccuracyMetrics(c).producersAccuracy == 0.0
    ensures c.tp + c.fp == 0 ==> AccuracyMetrics(c).usersAccuracy == 0.0
    ensures AccuracyMetrics(c).kappa <= 1.0
    ensures Total(c) == 0 ==> AccuracyMetrics(c).kappa == 0.0
  {
    RatioUnit(c.tp + c.tn, Total(c));
    RatioUnit(c.tp, c.tp + c.fn);
    RatioUnit(c.tp, c.tp + c.fp);
    if Total(c) > 0 {
      var pe := ExpectedAgreement(c);
      if 1.0 - pe > 0.0 {
        QuotientAtMostOne(Ratio(c.tp + c.tn, Total(c)) - pe, 1.0 - pe);
      }
    }
  }

  lemma QuotientOfSelf(x: real)
    requires x > 0.0
    ensures x / x == 1.0
  {
  }

  lemma SumOfShares(p: real, q: real, n: real)
    requires n > 0.0 && p + q == n
    ensures p / n + q / n == 1.0
  {
    assert p / n + q / n == (p + q) / n;
  }

  /** Two positive shares of a whole square to less than the whole. */
  lemma SquaresBelowOne(a: real, b: real)
    requires a > 0.0 && b > 0.0 && a + b == 1.0
    ensures a * a + b * b < 1.0
  {
    assert (a + b) * (a + b) == a * a + b * b + 2.0 * (a * b);
    assert (a + b) * (a + b) == 1.0;
    MulPositive(a, b);
  }

  lemma MulPositive(a: real, b: real)
    requires a > 0.0 && b > 0.0
    ensures a * b > 0.0
  {
  }

  /**
   * With no disagreement (FP = FN = 0) and both classes present, chance
   * agreement is below 1 and kappa is exactly 1.
   */
  lemma KappaPerfectAgreement(c: Confusion)
    requires c.fp == 0 && c.fn == 0 && c.tp > 0 && c.tn > 0
    ensures ExpectedAgreement(c) < 1.0
    ensures AccuracyMetrics(c).overallAccuracy == 1.0 && AccuracyMetrics(c).kappa == 1.0
  {
    var n := Total(c) as real;
    var a, b := c.tp as real / n, c.tn as real / n;
    SumOfShares(c.tp as real, c.tn as real, n);
    SquaresBelowOne(a, b);
    assert ExpectedAgreement(c) == a * a + b * b;
    QuotientOfSelf(n);
    QuotientOfSelf(1.0 - ExpectedAgreement(c));
  }

  /**
   * With no disagreement but only one class present, chance agreement is 1,
   * the guard `(1 - pe) > 0` fails and kappa is 0.
   */
  lemma KappaOneClass(c: Confusion)
    requires c.fp == 0 && c.fn == 0 && Total(c) > 0 && (c.tp == 0 || c.tn == 0)
    ensures ExpectedAgreement(c) == 1.0
    ensures AccuracyMetrics(c).kappa == 0.0
  {
    var n := Total(c) as real;
    QuotientOfSelf(n);
  }

  /** Exchanging FP and FN exchanges PA and UA and keeps OA and kappa. */
  lemma MetricsSwap(c: Confusion)
    ensures var m, s := AccuracyMetrics(c), AccuracyMetrics(Confusion(c.tp, c.fn, c.fp, c.tn));
      s == Metrics(m.overallAccuracy, m.usersAccuracy, m.producersAccuracy, m.kappa)
  {
    var s := Confusion(c.tp, c.fn, c.fp, c.tn);
    if Total(c) > 0 {
      var n := Total(c) as real;
      var u, v := (c.tp + c.fp) as real / n, (c.tp + c.fn) as real / n;
      var x, y := (c.fn + c.tn) as real / n, (c.fp + c.tn) as real / n;
      assert ExpectedAgreement(s) == v * u + y * x;
      assert ExpectedAgreement(c) == u * v + x * y;
    }
  }

  /** TP = 847, FP = 156, FN = 189, TN = 1808: OA 0.885 and kappa 3003784/4038784 (about 0.744). */
  lemma MetricsExample()
    ensures AccuracyMetrics(Confusion(847, 156, 189, 1808)) == Metrics(0.885, 847.0 / 1036.0, 847.0 / 1003.0, 3003784.0 / 4038784.0)
  {
    var c := Confusion(847, 156, 189, 1808);
    assert ExpectedAgreement(c) == 4961216.0 / 9000000.0;
  }
}
