/**
 * Urban classification and morphometrics of one night-light radiance grid:
 * the thresholded-and-opened urban mask, its lit area, the unweighted
 * centroid of its lit cells, the compactness of its largest region, the lit
 * counts of cumulative distance bands around the centroid, and the table of
 * these quantities over several thresholds.
 */
module NtlProcessing {
  import opened Grids
  import opened Geometry

  /** Default DN threshold for an urban pixel. */
  const UrbanThreshold: real := 3.0
  /** Thresholds of the sensitivity table. */
  const SensitivityThresholds: seq<real> := [1.0, 2.0, 3.0, 5.0]
  /** Default ring widths in metres. */
  const DefaultRingWidthsM: seq<real> := [1000.0, 2000.0, 5000.0]
  /** VIIRS native pixel size in metres. */
  const ViirsPixelSizeM: real := 463.0

  // ---------------------------------------------------------------------
  // Urban mask: `value >= threshold`, then a 3x3 binary opening
  // ---------------------------------------------------------------------

  /** `viirs_data >= threshold`, cell by cell. */
  function ThresholdMask(g: seq<seq<real>>, t: real): (m: Mask)
    ensures Congruent(m, g)
    ensures forall i, j | 0 <= i < |g| && 0 <= j < |g[i]| :: m[i][j] == (g[i][j] >= t)
  {
    seq(|g|, i requires 0 <= i < |g| =>
      seq(|g[i]|, j requires 0 <= j < |g[i]| => g[i][j] >= t))
  }

  /** Every cell of the 3x3 square centred on (i, j) lies inside the grid and is lit. */
  predicate FullSquareAt(m: Mask, i: int, j: int) {
    forall p, q | i - 1 <= p <= i + 1 && j - 1 <= q <= j + 1 :: Lit(m, p, q)
  }

  /** Some cell of the 3x3 neighbourhood of (i, j) is inside the grid and lit. */
  predicate NearLit(m: Mask, i: int, j: int) {
    exists p, q | i - 1 <= p <= i + 1 && j - 1 <= q <= j + 1 :: Lit(m, p, q)
  }

  /** Cell (i, j) belongs to some fully lit 3x3 square of `m`. */
  predicate InFullSquare(m: Mask, i: int, j: int) {
    exists p, q | i - 1 <= p <= i + 1 && j - 1 <= q <= j + 1 :: FullSquareAt(m, p, q)
  }

  /** Binary erosion by a 3x3 square of ones; cells outside the grid read as 0. */
  function Erode(m: Mask): (e: Mask)
    ensures Congruent(e, m)
    ensures forall i, j | 0 <= i < |m| && 0 <= j < |m[i]| :: e[i][j] == FullSquareAt(m, i, j)
  {
    seq(|m|, i requires 0 <= i < |m| =>
      seq(|m[i]|, j requires 0 <= j < |m[i]| => FullSquareAt(m, i, j)))
  }

  /** Binary dilation by a 3x3 square of ones; cells outside the grid read as 0. */
  function Dilate(e: Mask): (d: Mask)
    ensures Congruent(d, e)
    ensures forall i, j | 0 <= i < |e| && 0 <= j < |e[i]| :: d[i][j] == NearLit(e, i, j)
  {
    seq(|e|, i requires 0 <= i < |e| =>
      seq(|e[i]|, j requires 0 <= j < |e[i]| => NearLit(e, i, j)))
  }

  /** `binary_opening` with a 3x3 structure: erosion, then dilation. */
  function Opening(m: Mask): Mask {
    Dilate(Erode(m))
  }

  /** A cell survives the opening exactly when it lies in a fully lit 3x3 square inside the grid. */
  lemma OpeningChar(m: Mask)
    ensures Congruent(Opening(m), m)
    ensures forall i, j | 0 <= i < |m| && 0 <= j < |m[i]| :: Opening(m)[i][j] == InFullSquare(m, i, j)
  {
    var e := Erode(m);
    forall i, j | 0 <= i < |m| && 0 <= j < |m[i]|
      ensures Opening(m)[i][j] == InFullSquare(m, i, j)
    {
      if InFullSquare(m, i, j) {
        var p, q :| i - 1 <= p <= i + 1 && j - 1 <= q <= j + 1 && FullSquareAt(m, p, q);
        assert Lit(m, p, q);
        assert Lit(e, p, q);
      }
      if NearLit(e, i, j) {
        var p, q :| i - 1 <= p <= i + 1 && j - 1 <= q <= j + 1 && Lit(e, p, q);
        assert FullSquareAt(m, p, q);
      }
    }
  }

  /** The opening only removes cells. */
  lemma OpeningShrinks(m: Mask)
    ensures forall i, j | 0 <= i < |m| && 0 <= j < |m[i]| :: InFullSquare(m, i, j) ==> m[i][j]
  {
    forall i, j | 0 <= i < |m| && 0 <= j < |m[i]| && InFullSquare(m, i, j)
      ensures m[i][j]
    {
      var p, q :| i - 1 <= p <= i + 1 && j - 1 <= q <= j + 1 && FullSquareAt(m, p, q);
      assert Lit(m, i, j);
    }
  }

  /**
   * `create_urban_mask`: the same shape as the radiance grid; a cell is urban
   * exactly when it lies in a fully lit 3x3 square (inclusive threshold) that
   * sits wholly inside the grid, and every urban cell passes the threshold.
   */
  function CreateUrbanMask(g: seq<seq<real>>, t: real): (u: Mask)
    ensures Congruent(u, g)
    ensures forall i, j | 0 <= i < |g| && 0 <= j < |g[i]| :: u[i][j] == InFullSquare(ThresholdMask(g, t), i, j)
    ensures forall i, j | 0 <= i < |g| && 0 <= j < |g[i]| :: u[i][j] ==> g[i][j] >= t
  {
    OpeningChar(ThresholdMask(g, t));
    OpeningShrinks(ThresholdMask(g, t));
    Opening(ThresholdMask(g, t))
  }

  /** Opening an opened mask changes nothing. */
  lemma OpeningIdempotent(m: Mask)
    ensures Opening(Opening(m)) == Opening(m)
  {
    var o := Opening(m);
    OpeningChar(m);
    OpeningChar(o);
    OpeningShrinks(o);
    forall i, j | 0 <= i < |o| && 0 <= j < |o[i]|
      ensures Opening(o)[i][j] == o[i][j]
    {
      if o[i][j] {
        var p, q :| i - 1 <= p <= i + 1 && j - 1 <= q <= j + 1 && FullSquareAt(m, p, q);
        forall p', q' | p - 1 <= p' <= p + 1 && q - 1 <= q' <= q + 1
          ensures Lit(o, p', q')
        {
          assert Lit(m, p', q');
          assert InFullSquare(m, p', q');
        }
        assert FullSquareAt(o, p, q);
        assert InFullSquare(o, i, j);
      }
    }
    assert forall i | 0 <= i < |o| :: Opening(o)[i] == o[i];
  }

  /** The opening is monotone: a sub-mask opens to a sub-mask. */
  lemma OpeningMono(a: Mask, b: Mask)
    requires Congruent(a, b)
    requires forall i, j | 0 <= i < |a| && 0 <= j < |a[i]| :: a[i][j] ==> b[i][j]
    ensures forall i, j | 0 <= i < |a| && 0 <= j < |a[i]| :: InFullSquare(a, i, j) ==> InFullSquare(b, i, j)
  {
    forall i, j | 0 <= i < |a| && 0 <= j < |a[i]| && InFullSquare(a, i, j)
      ensures InFullSquare(b, i, j)
    {
      var p, q :| i - 1 <= p <= i + 1 && j - 1 <= q <= j + 1 && FullSquareAt(a, p, q);
      forall p', q' | p - 1 <= p' <= p + 1 && q - 1 <= q' <= q + 1
        ensures Lit(b, p', q')
      {
        assert Lit(a, p', q');
      }
      assert FullSquareAt(b, p, q);
    }
  }

  /**
   * Raising the threshold never adds an urban cell: the mask at the higher
   * threshold is a sub-mask of the one at the lower, so it has no more cells.
   */
  lemma UrbanMaskMonotone(g: seq<seq<real>>, t1: real, t2: real)
    requires t1 <= t2
    ensures Congruent(CreateUrbanMask(g, t2), CreateUrbanMask(g, t1))
    ensures forall i, j | 0 <= i < |g| && 0 <= j < |g[i]| :: CreateUrbanMask(g, t2)[i][j] ==> CreateUrbanMask(g, t1)[i][j]
    ensures Count(CreateUrbanMask(g, t2)) <= Count(CreateUrbanMask(g, t1))
  {
    OpeningMono(ThresholdMask(g, t2), ThresholdMask(g, t1));
    CountMono(CreateUrbanMask(g, t2), CreateUrbanMask(g, t1));
  }

  /** The count form of `UrbanMaskMonotone`: a higher threshold gives no more urban pixels. */
  lemma UrbanCountMonotone(g: seq<seq<real>>, t1: real, t2: real)
    requires t1 <= t2
    ensures Count(CreateUrbanMask(g, t2)) <= Count(CreateUrbanMask(g, t1))
  {
    UrbanMaskMonotone(g, t1, t2);
  }

  /** A grid with fewer than 3 rows or 3 columns has no urban cell. */
  lemma SmallGridHasNoUrban(g: seq<seq<real>>, t: real)
    requires Rect(g) && (|g| < 3 || Cols(g) < 3)
    ensures forall i, j :: !Lit(CreateUrbanMask(g, t), i, j)
    ensures Count(CreateUrbanMask(g, t)) == 0
  {
    var raw := ThresholdMask(g, t);
    var u := CreateUrbanMask(g, t);
    forall i, j | Lit(u, i, j)
      ensures false
    {
      var p, q :| i - 1 <= p <= i + 1 && j - 1 <= q <= j + 1 && FullSquareAt(raw, p, q);
      FullSquareNeedsRoom(raw, p, q);
    }
    CountZeroIff(u);
  }

  /** A fully lit 3x3 square needs a row above and below and a column on each side. */
  lemma FullSquareNeedsRoom(m: Mask, p: int, q: int)
    requires FullSquareAt(m, p, q)
    ensures 1 <= p && p + 2 <= |m| && 1 <= q && q + 2 <= |m[p]|
  {
    assert Lit(m, p - 1, q) && Lit(m, p + 1, q);
    assert Lit(m, p, q - 1) && Lit(m, p, q + 1);
  }

  // ---------------------------------------------------------------------
  // Lit area
  // ---------------------------------------------------------------------

  /**
   * Real product with its sign facts as a contract; the solver keeps these
   * facts for `Mul(x, x)` where it loses them for `x * x` behind a function.
   */
  function Mul(x: real, y: real): (r: real)
    ensures (x > 0.0 && y > 0.0) || (x < 0.0 && y < 0.0) ==> r > 0.0
    ensures x == 0.0 || y == 0.0 ==> r == 0.0
  {
    x * y
  }

  /** Area of one pixel in km^2: `(pixel_size_m / 1000) ** 2`, positive for a non-zero size. */
  function PixelAreaKm2(pixelSizeM: real): (a: real)
    ensures a >= 0.0
    ensures pixelSizeM != 0.0 ==> a > 0.0
  {
    Mul(pixelSizeM / 1000.0, pixelSizeM / 1000.0)
  }

  /** Area in km^2 of `pixels` pixels: `pixel_count * pixel_area_km2`. */
  function AreaKm2(pixels: nat, pixelSizeM: real): (a: real)
    ensures a >= 0.0
  {
    MulMonoReal(0.0, pixels as real, PixelAreaKm2(pixelSizeM));
    pixels as real * PixelAreaKm2(pixelSizeM)
  }

  /** Areas of disjoint pixel sets add up. */
  lemma AreaKm2Add(a: nat, b: nat, pixelSizeM: real)
    ensures AreaKm2(a + b, pixelSizeM) == AreaKm2(a, pixelSizeM) + AreaKm2(b, pixelSizeM)
  {
    MulAdd(a as real, b as real, PixelAreaKm2(pixelSizeM));
  }

  lemma MulAdd(x: real, y: real, c: real)
    ensures (x + y) * c == x * c + y * c
  {
  }

  /** `calculate_lit_area`: lit pixel count times the pixel area. */
  function LitArea(m: Mask, pixelSizeM: real): real {
    AreaKm2(Count(m), pixelSizeM)
  }

  /** The lit area is never negative, and it is 0 exactly when no cell is lit. */
  lemma LitAreaZeroIff(m: Mask, pixelSizeM: real)
    requires pixelSizeM != 0.0
    ensures LitArea(m, pixelSizeM) >= 0.0
    ensures LitArea(m, pixelSizeM) == 0.0 <==> forall i, j :: !Lit(m, i, j)
  {
    CountZeroIff(m);
    var c, a := Count(m) as real, PixelAreaKm2(pixelSizeM);
    if c != 0.0 {
      assert c * a > 0.0;
    }
  }

  /** The lit area is additive over a mask split into two disjoint masks. */
  lemma LitAreaAdditive(u: Mask, a: Mask, b: Mask, pixelSizeM: real)
    requires Congruent(u, a) && Congruent(u, b)
    requires forall i, j | 0 <= i < |u| && 0 <= j < |u[i]| :: u[i][j] == (a[i][j] || b[i][j]) && !(a[i][j] && b[i][j])
    ensures LitArea(u, pixelSizeM) == LitArea(a, pixelSizeM) + LitArea(b, pixelSizeM)
  {
    CountSplit(u, a, b);
  }

  /** A sub-mask has no more lit area. */
  lemma LitAreaMono(a: Mask, b: Mask, pixelSizeM: real)
    requires Congruent(a, b)
    requires forall i, j | 0 <= i < |a| && 0 <= j < |a[i]| :: a[i][j] ==> b[i][j]
    ensures LitArea(a, pixelSizeM) <= LitArea(b, pixelSizeM)
  {
    CountMono(a, b);
    LitAreaCountMono(a, b, pixelSizeM);
  }

  /** Fewer lit cells, no more lit area. */
  lemma LitAreaCountMono(a: Mask, b: Mask, pixelSizeM: real)
    requires Count(a) <= Count(b)
    ensures LitArea(a, pixelSizeM) <= LitArea(b, pixelSizeM)
  {
    MulMonoReal(Count(a) as real, Count(b) as real, PixelAreaKm2(pixelSizeM));
  }

  lemma MulMonoReal(x: real, y: real, c: real)
    requires x <= y && c >= 0.0
    ensures x * c <= y * c
  {
  }

  // ---------------------------------------------------------------------
  // Centroid
  // ---------------------------------------------------------------------

  /**
   * `find_centroid`: None exactly when no cell is lit; otherwise the mean row
   * and mean column index of the lit cells, each lit cell weighing 1.
   */
  function FindCentroid(m: Mask): (c: Option<Centroid>)
    ensures c.None? <==> forall i, j :: !Lit(m, i, j)
    ensures c.Some? ==> (Count(m) > 0
      && c.value.row * Count(m) as real == RowIndexSum(m) as real
      && c.value.col * Count(m) as real == ColIndexSum(m) as real)
  {
    CountZeroIff(m);
    if Count(m) == 0 then None
    else Some(Centroid(RowMean(m), ColMean(m)))
  }

  /** `np.mean(y)` over the lit cells. */
  function RowMean(m: Mask): (mean: real)
    requires Count(m) > 0
    ensures mean * Count(m) as real == RowIndexSum(m) as real
  {
    RowIndexSum(m) as real / Count(m) as real
  }

  /** `np.mean(x)` over the lit cells. */
  function ColMean(m: Mask): (mean: real)
    requires Count(m) > 0
    ensures mean * Count(m) as real == ColIndexSum(m) as real
  {
    ColIndexSum(m) as real / Count(m) as real
  }

  /** A mean of values all at least `lo` is at least `lo`. */
  lemma MeanAtLeast(x: real, n: nat, s: int, lo: int)
    requires n > 0 && x * (n as real) == s as real && lo * n <= s
    ensures lo as real <= x
  {
    assert (lo * n) as real == lo as real * n as real;
  }

  /** A mean of values all at most `hi` is at most `hi`. */
  lemma MeanAtMost(x: real, n: nat, s: int, hi: int)
    requires n > 0 && x * (n as real) == s as real && s <= hi * n
    ensures x <= hi as real
  {
    assert (hi * n) as real == hi as real * n as real;
  }

  /** The greatest integer strictly below `x`. */
  function LastIntBelow(x: real): (hi: int)
    ensures hi as real < x <= (hi + 1) as real
  {
    if x.Floor as real == x then x.Floor - 1 else x.Floor
  }

  lemma IntBelow(x: real, i: int)
    requires i as real < x
    ensures i <= LastIntBelow(x)
  {
  }

  /** The least integer strictly above `x`. */
  function FirstIntAbove(x: real): (lo: int)
    ensures x < lo as real <= x + 1.0
  {
    x.Floor + 1
  }

  lemma IntAbove(x: real, i: int)
    requires x < i as real
    ensures FirstIntAbove(x) <= i
  {
  }

  /** If every lit cell lies in rows lo..hi, so does the mean row. */
  lemma RowMeanWithin(m: Mask, lo: int, hi: int)
    requires Count(m) > 0
    requires forall i, j :: Lit(m, i, j) ==> lo <= i <= hi
    ensures lo as real <= RowMean(m) <= hi as real
  {
    RowIndexBounds(m, lo, hi);
    MeanAtLeast(RowMean(m), Count(m), RowIndexSum(m), lo);
    MeanAtMost(RowMean(m), Count(m), RowIndexSum(m), hi);
  }

  /** If every lit cell lies in columns lo..hi, so does the mean column. */
  lemma ColMeanWithin(m: Mask, lo: int, hi: int)
    requires Count(m) > 0
    requires forall i, j :: Lit(m, i, j) ==> lo <= j <= hi
    ensures lo as real <= ColMean(m) <= hi as real
  {
    ColIndexBounds(m, lo, hi);
    MeanAtLeast(ColMean(m), Count(m), ColIndexSum(m), lo);
    MeanAtMost(ColMean(m), Count(m), ColIndexSum(m), hi);
  }

  lemma SomeRowAtOrAboveMean(m: Mask)
    requires Count(m) > 0
    ensures exists i, j :: Lit(m, i, j) && i as real <= RowMean(m)
  {
    var x := RowMean(m);
    if forall i, j :: Lit(m, i, j) ==> x < i as real {
      var lo := FirstIntAbove(x);
      forall i, j | Lit(m, i, j) ensures lo <= i <= |m| {
        IntAbove(x, i);
      }
      RowMeanWithin(m, lo, |m|);
    }
  }

  lemma SomeRowAtOrBelowMean(m: Mask)
    requires Count(m) > 0
    ensures exists i, j :: Lit(m, i, j) && RowMean(m) <= i as real
  {
    var x := RowMean(m);
    if forall i, j :: Lit(m, i, j) ==> i as real < x {
      var hi := LastIntBelow(x);
      forall i, j | Lit(m, i, j) ensures 0 <= i <= hi {
        IntBelow(x, i);
      }
      RowMeanWithin(m, 0, hi);
    }
  }

  lemma SomeColAtOrLeftOfMean(m: Mask)
    requires Rect(m) && Count(m) > 0
    ensures exists i, j :: Lit(m, i, j) && j as real <= ColMean(m)
  {
    var x := ColMean(m);
    if forall i, j :: Lit(m, i, j) ==> x < j as real {
      var lo := FirstIntAbove(x);
      forall i, j | Lit(m, i, j) ensures lo <= j <= Cols(m) {
        IntAbove(x, j);
      }
      ColMeanWithin(m, lo, Cols(m));
    }
  }

  lemma SomeColAtOrRightOfMean(m: Mask)
    requires Rect(m) && Count(m) > 0
    ensures exists i, j :: Lit(m, i, j) && ColMean(m) <= j as real
  {
    var x := ColMean(m);
    if forall i, j :: Lit(m, i, j) ==> j as real < x {
      var hi := LastIntBelow(x);
      forall i, j | Lit(m, i, j) ensures 0 <= j <= hi {
        IntBelow(x, j);
      }
      ColMeanWithin(m, 0, hi);
    }
  }

  /** The centroid lies inside the bounding box of the lit cells. */
  lemma CentroidInBoundingBox(m: Mask)
    requires Rect(m) && FindCentroid(m).Some?
    ensures var c := FindCentroid(m).value;
      (exists i, j :: Lit(m, i, j) && i as real <= c.row) &&
      (exists i, j :: Lit(m, i, j) && c.row <= i as real) &&
      (exists i, j :: Lit(m, i, j) && j as real <= c.col) &&
      (exists i, j :: Lit(m, i, j) && c.col <= j as real)
  {
    SomeRowAtOrAboveMean(m);
    SomeRowAtOrBelowMean(m);
    SomeColAtOrLeftOfMean(m);
    SomeColAtOrRightOfMean(m);
  }

  // ---------------------------------------------------------------------
  // A single 3x3 block
  // ---------------------------------------------------------------------

  predicate InBlock(i: int, j: int, r: int, c: int) {
    r <= i < r + 3 && c <= j < c + 3
  }

  lemma {:induction false} BlockRow(row: seq<bool>, c: int, n: nat)
    requires n <= |row| && 0 <= c && c + 3 <= |row|
    requires forall j | 0 <= j < |row| :: row[j] == (c <= j < c + 3)
    ensures RowCount(row, n) == (if n <= c then 0 else if n >= c + 3 then 3 else n - c)
    ensures RowColSum(row, n) ==
      (if n <= c then 0 else if n == c + 1 then c else if n == c + 2 then 2 * c + 1 else 3 * c + 3)
  {
    if n > 0 { BlockRow(row, c, n - 1); }
  }

  lemma {:induction false} BlockRows(m: Mask, r: int, c: int, n: nat)
    requires Rect(m) && n <= |m| && 0 <= r && r + 3 <= |m| && 0 <= c && c + 3 <= Cols(m)
    requires forall i, j | 0 <= i < |m| && 0 <= j < Cols(m) :: m[i][j] == InBlock(i, j, r, c)
    ensures CountRows(m, n) == (if n <= r then 0 else if n == r + 1 then 3 else if n == r + 2 then 6 else 9)
    ensures RowIndexSumRows(m, n) ==
      (if n <= r then 0 else if n == r + 1 then 3 * r else if n == r + 2 then 6 * r + 3 else 9 * r + 9)
    ensures ColIndexSumRows(m, n) ==
      (if n <= r then 0 else if n == r + 1 then 3 * c + 3 else if n == r + 2 then 6 * c + 6 else 9 * c + 9)
  {
    if n > 0 {
      BlockRows(m, r, c, n - 1);
      var row := m[n - 1];
      if r <= n - 1 < r + 3 {
        BlockRow(row, c, |row|);
      } else {
        RowCountBounded(row, |row|);
        RowColSumBounds(row, |row|, 0, 0);
      }
    }
  }

  /**
   * A grid whose only cells at or above the threshold form one 3x3 block
   * inside the grid: the urban mask is exactly that block.
   */
  lemma SingleBlockMask(g: seq<seq<real>>, t: real, r: int, c: int)
    requires Rect(g) && 0 <= r && r + 3 <= |g| && 0 <= c && c + 3 <= Cols(g)
    requires forall i, j | 0 <= i < |g| && 0 <= j < Cols(g) :: (g[i][j] >= t) == InBlock(i, j, r, c)
    ensures forall i, j | 0 <= i < |g| && 0 <= j < Cols(g) :: CreateUrbanMask(g, t)[i][j] == InBlock(i, j, r, c)
  {
    var raw := ThresholdMask(g, t);
    var u := CreateUrbanMask(g, t);
    assert FullSquareAt(raw, r + 1, c + 1) by {
      forall p, q | r <= p <= r + 2 && c <= q <= c + 2
        ensures Lit(raw, p, q)
      {
        assert InBlock(p, q, r, c);
      }
    }
    forall i, j | 0 <= i < |g| && 0 <= j < Cols(g)
      ensures u[i][j] == InBlock(i, j, r, c)
    {
      if InBlock(i, j, r, c) {
        assert InFullSquare(raw, i, j);
      }
    }
  }

  /**
   * For such a grid the urban area is nine pixels and the centroid is the
   * block's centre.
   */
  lemma SingleBlock(g: seq<seq<real>>, t: real, r: int, c: int, pixelSizeM: real)
    requires Rect(g) && 0 <= r && r + 3 <= |g| && 0 <= c && c + 3 <= Cols(g)
    requires forall i, j | 0 <= i < |g| && 0 <= j < Cols(g) :: (g[i][j] >= t) == InBlock(i, j, r, c)
    ensures Count(CreateUrbanMask(g, t)) == 9
    ensures LitArea(CreateUrbanMask(g, t), pixelSizeM) == 9.0 * PixelAreaKm2(pixelSizeM)
    ensures FindCentroid(CreateUrbanMask(g, t)) == Some(Centroid((r + 1) as real, (c + 1) as real))
  {
    var u := CreateUrbanMask(g, t);
    SingleBlockMask(g, t, r, c);
    assert Rect(u) && |u| == |g| && Cols(u) == Cols(g);
    BlockCentroid(u, r, c);
  }

  /** A mask that is exactly one 3x3 block has nine lit cells centred on the block's middle cell. */
  lemma BlockCentroid(m: Mask, r: int, c: int)
    requires Rect(m) && 0 <= r && r + 3 <= |m| && 0 <= c && c + 3 <= Cols(m)
    requires forall i, j | 0 <= i < |m| && 0 <= j < Cols(m) :: m[i][j] == InBlock(i, j, r, c)
    ensures Count(m) == 9 && FindCentroid(m) == Some(Centroid((r + 1) as real, (c + 1) as real))
  {
    BlockRows(m, r, c, |m|);
    var cen := FindCentroid(m).value;
    assert cen.row * 9.0 == (9 * r + 9) as real;
    assert cen.col * 9.0 == (9 * c + 9) as real;
  }

  /** Ten-by-ten grid of zeros with one 3x3 block of 10s at rows and columns 4..6. */
  function BlockGrid(): seq<seq<real>> {
    seq(10, i => seq(10, j => if 4 <= i < 7 && 4 <= j < 7 then 10.0 else 0.0))
  }

  /** At the default threshold the block is the whole mask: 1.929321 km^2 around (5, 5). */
  lemma BlockGridExample()
    ensures forall i, j | 0 <= i < 10 && 0 <= j < 10 :: CreateUrbanMask(BlockGrid(), UrbanThreshold)[i][j] == InBlock(i, j, 4, 4)
    ensures LitArea(CreateUrbanMask(BlockGrid(), UrbanThreshold), ViirsPixelSizeM) == 1.929321
    ensures FindCentroid(CreateUrbanMask(BlockGrid(), UrbanThreshold)) == Some(Centroid(5.0, 5.0))
  {
    SingleBlockMask(BlockGrid(), UrbanThreshold, 4, 4);
    SingleBlock(BlockGrid(), UrbanThreshold, 4, 4, ViirsPixelSizeM);
  }

  // ---------------------------------------------------------------------
  // Compactness of the largest region
  // ---------------------------------------------------------------------

  /** A connected region as skimage's `regionprops` reports it. */
  datatype Region = Region(area: nat, perimeter: real)

  /**
   * Index of the region that a stable sort by decreasing area puts first:
   * a region of maximal area, the earliest one on a tie.
   */
  function LargestRegion(regions: seq<Region>): (k: nat)
    requires |regions| > 0
    ensures k < |regions|
    ensures forall i | 0 <= i < |regions| :: regions[i].area <= regions[k].area
    ensures forall i | 0 <= i < k :: regions[i].area < regions[k].area
  {
    if |regions| == 1 then 0
    else
      var k := LargestRegion(regions[..|regions| - 1]);
      if regions[|regions| - 1].area > regions[k].area then |regions| - 1 else k
  }

  function Abs(x: real): (a: real)
    ensures a >= 0.0 && (x != 0.0 ==> a > 0.0)
  {
    if x < 0.0 then -x else x
  }

  /** `x / y` for a positive divisor: non-negative when `x` is. */
  function Quotient(x: real, y: real): (q: real)
    requires y > 0.0
    ensures x >= 0.0 ==> q >= 0.0
  {
    x / y
  }

  /**
   * `4 * pi * area / perimeter ** 2`, with the division by the square written
   * as two divisions by `|perimeter|`.
   */
  function IsoperimetricRatio(r: Region, pi: real): (ratio: real)
    requires r.perimeter != 0.0 && pi > 0.0
    ensures ratio >= 0.0
  {
    var p := Abs(r.perimeter);
    var num := 4.0 * pi * r.area as real;
    assert num >= 0.0;
    Quotient(Quotient(num, p), p)
  }

  /**
   * `calculate_compactness`, given the regions of the mask: 0 with no region;
   * otherwise the ratio of the largest region capped at 1, and 1 when that
   * region's perimeter is 0.  Always in [0, 1].
   */
  function Compactness(regions: seq<Region>, pi: real): (c: real)
    requires pi > 0.0
    ensures 0.0 <= c <= 1.0
    ensures |regions| == 0 ==> c == 0.0
    ensures |regions| > 0 && regions[LargestRegion(regions)].perimeter == 0.0 ==> c == 1.0
    ensures |regions| > 0 && regions[LargestRegion(regions)].perimeter != 0.0 ==>
      c <= IsoperimetricRatio(regions[LargestRegion(regions)], pi)
      && (c == 1.0 || c == IsoperimetricRatio(regions[LargestRegion(regions)], pi))
  {
    if |regions| == 0 then 0.0
    else
      var largest := regions[LargestRegion(regions)];
      if largest.perimeter == 0.0 then 1.0
      else
        var ratio := IsoperimetricRatio(largest, pi);
        if ratio < 1.0 then ratio else 1.0
  }

  // ---------------------------------------------------------------------
  // Distance bands around the centroid
  // ---------------------------------------------------------------------

  /** Keys of the ring dictionary: `'Core'` and `'Ring_{a}-{b}m'`. */
  datatype RingKey = Core | Band(inner: real, outer: real)

  /** Key of ring `k`: `'Ring_{b_k}-{b_(k+1)}m'`. */
  function BandKey(widths: seq<real>, k: nat): RingKey
    requires k < |widths|
  {
    Band(Bound(widths, k), Bound(widths, k + 1))
  }

  /** The keys of the first `n` rings. */
  function BandKeys(widths: seq<real>, n: nat): (keys: set<RingKey>)
    requires n <= |widths|
    ensures forall k | 0 <= k < n :: BandKey(widths, k) in keys
    ensures Core !in keys
  {
    if n == 0 then {} else BandKeys(widths, n - 1) + {BandKey(widths, n - 1)}
  }

  /**
   * The ring entries after the loop has run over the first `n` widths, where
   * `count(a, b)` is the lit count of the band `[a, b)`.
   */
  function RingMap(count: (real, real) -> nat, widths: seq<real>, n: nat): (r: map<RingKey, nat>)
    requires n <= |widths|
  {
    if n == 0 then map[]
    else RingMap(count, widths, n - 1)[BandKey(widths, n - 1) := count(Bound(widths, n - 1), Bound(widths, n))]
  }

  /**
   * After `n` widths the entry of each band key holds that band's count; a
   * repeated key (two empty bands at the same bound) names
   * the same band, so overwriting it loses nothing.
   */
  lemma {:induction false} RingMapEntries(count: (real, real) -> nat, widths: seq<real>, n: nat)
    requires n <= |widths|
    ensures RingMap(count, widths, n).Keys == BandKeys(widths, n)
    ensures forall k | 0 <= k < n :: RingMap(count, widths, n)[BandKey(widths, k)] == count(Bound(widths, k), Bound(widths, k + 1))
  {
    if n > 0 {
      RingMapEntries(count, widths, n - 1);
    }
  }


  /**
   * The dictionary `analyze_ring_expansion` builds around a centroid: a
   * `Core` entry and one entry per band `[b_k, b_(k+1))` of cumulative widths.
   */
  function RingAreas(m: Mask, c: Centroid, widths: seq<real>, pixelSizeM: real): (r: map<RingKey, nat>)
    requires |widths| > 0
  {
    RingMap(BandCounter(m, c, pixelSizeM), widths, |widths|)[Core := WithinCount(m, c, pixelSizeM, widths[0])]
  }

  /**
   * The ring dictionary has a `Core` entry and one entry per band
   * `[b_k, b_(k+1))` of cumulative widths.
   */
  lemma RingAreasKeys(m: Mask, c: Centroid, widths: seq<real>, pixelSizeM: real)
    requires |widths| > 0
    ensures RingAreas(m, c, widths, pixelSizeM).Keys == {Core} + BandKeys(widths, |widths|)
  {
    RingMapEntries(BandCounter(m, c, pixelSizeM), widths, |widths|);
  }

  /** Each band's entry is the band's lit count. */
  lemma RingAreasBands(m: Mask, c: Centroid, widths: seq<real>, pixelSizeM: real)
    requires |widths| > 0
    ensures forall k | 0 <= k < |widths| ::
      BandKey(widths, k) in RingAreas(m, c, widths, pixelSizeM) &&
      RingAreas(m, c, widths, pixelSizeM)[BandKey(widths, k)]
        == BandCount(m, c, pixelSizeM, Bound(widths, k), Bound(widths, k + 1))
  {
    RingMapEntries(BandCounter(m, c, pixelSizeM), widths, |widths|);
  }

  /**
   * `Core`, the lit count below the first width, always equals the count of
   * the first band `[0, w_0)`.
   */
  lemma RingAreasCore(m: Mask, c: Centroid, widths: seq<real>, pixelSizeM: real)
    requires |widths| > 0
    ensures RingAreas(m, c, widths, pixelSizeM)[Core] == WithinCount(m, c, pixelSizeM, widths[0])
    ensures RingAreas(m, c, widths, pixelSizeM)[Core] == BandCount(m, c, pixelSizeM, 0.0, widths[0])
  {
    CoreIsFirstBand(m, c, pixelSizeM, widths[0]);
  }

  /**
   * `analyze_ring_expansion` of this module: `{}` without a centroid,
   * otherwise the ring dictionary above.
   */
  method RingCounts(m: Mask, centroid: Option<Centroid>, widths: seq<real>, pixelSizeM: real)
    returns (counts: map<RingKey, nat>)
    requires centroid.Some? ==> |widths| > 0
    ensures centroid.None? ==> counts == map[]
    ensures centroid.Some? ==> counts == RingAreas(m, centroid.value, widths, pixelSizeM)
  {
    if centroid.None? {
      return map[];
    }
    var c := centroid.value;
    var count := BandCounter(m, c, pixelSizeM);
    var bands: map<RingKey, nat> := map[];
    var prev := 0.0;
    var k := 0;
    while k < |widths|
      invariant 0 <= k <= |widths|
      invariant prev == Bound(widths, k)
      invariant bands == RingMap(count, widths, k)
    {
      var ringDist := prev + widths[k];
      bands := bands[Band(prev, ringDist) := count(prev, ringDist)];
      prev := ringDist;
      k := k + 1;
    }
    counts := bands[Core := WithinCount(m, c, pixelSizeM, widths[0])];
  }

  // ---------------------------------------------------------------------
  // Sensitivity table
  // ---------------------------------------------------------------------

  datatype SensitivityRow = SensitivityRow(threshold: real, litAreaKm2: real, compactness: real, pixelCount: nat)

  ghost predicate Ascending(ts: seq<real>) {
    forall a, b | 0 <= a < b < |ts| :: ts[a] <= ts[b]
  }

  /** The row `sensitivity_analysis` appends for threshold `t`. */
  ghost predicate IsRowFor(row: SensitivityRow, g: seq<seq<real>>, t: real, pixelSizeM: real,
                           regionsOf: Mask -> seq<Region>, pi: real)
    requires pi > 0.0
  {
    var u := CreateUrbanMask(g, t);
    row.threshold == t
    && row.pixelCount == Count(u)
    && row.litAreaKm2 == LitArea(u, pixelSizeM)
    && row.compactness == Compactness(regionsOf(u), pi)
    && 0.0 <= row.compactness <= 1.0
  }

  /** A higher threshold's row has no more pixels and no more area. */
  lemma RowsMonotone(lo: SensitivityRow, hi: SensitivityRow, g: seq<seq<real>>, t1: real, t2: real,
                     pixelSizeM: real, regionsOf: Mask -> seq<Region>, pi: real)
    requires pi > 0.0 && t1 <= t2
    requires IsRowFor(lo, g, t1, pixelSizeM, regionsOf, pi) && IsRowFor(hi, g, t2, pixelSizeM, regionsOf, pi)
    ensures hi.pixelCount <= lo.pixelCount && hi.litAreaKm2 <= lo.litAreaKm2
  {
    UrbanCountMonotone(g, t1, t2);
    LitAreaCountMono(CreateUrbanMask(g, t2), CreateUrbanMask(g, t1), pixelSizeM);
  }

  /** Over ascending thresholds, pixel counts and areas never increase. */
  ghost predicate NonIncreasing(rows: seq<SensitivityRow>) {
    forall a, b | 0 <= a < b < |rows| ::
      rows[b].pixelCount <= rows[a].pixelCount && rows[b].litAreaKm2 <= rows[a].litAreaKm2
  }

  /** One iteration of the threshold loop: the row for threshold `t`. */
  method SensitivityRowFor(g: seq<seq<real>>, t: real, pixelSizeM: real, regionsOf: Mask -> seq<Region>, pi: real)
    returns (row: SensitivityRow)
    requires pi > 0.0
    ensures IsRowFor(row, g, t, pixelSizeM, regionsOf, pi)
  {
    var mask := CreateUrbanMask(g, t);
    var area := LitArea(mask, pixelSizeM);
    var compactness := Compactness(regionsOf(mask), pi);
    row := SensitivityRow(t, area, compactness, Count(mask));
  }

  /** `rows` are the rows for the first `|rows|` thresholds, in order. */
  ghost predicate RowsFor(rows: seq<SensitivityRow>, g: seq<seq<real>>, thresholds: seq<real>, pixelSizeM: real,
                          regionsOf: Mask -> seq<Region>, pi: real)
    requires pi > 0.0
  {
    && |rows| <= |thresholds|
    && (forall k | 0 <= k < |rows| :: IsRowFor(rows[k], g, thresholds[k], pixelSizeM, regionsOf, pi))
    && (Ascending(thresholds) ==> NonIncreasing(rows))
  }

  /**
   * Appending the row for the next threshold keeps the table correct, and
   * over ascending thresholds keeps it non-increasing.
   */
  lemma AppendRow(rows: seq<SensitivityRow>, row: SensitivityRow, g: seq<seq<real>>,
                  thresholds: seq<real>, pixelSizeM: real, regionsOf: Mask -> seq<Region>, pi: real)
    requires pi > 0.0 && |rows| < |thresholds| && RowsFor(rows, g, thresholds, pixelSizeM, regionsOf, pi)
    requires IsRowFor(row, g, thresholds[|rows|], pixelSizeM, regionsOf, pi)
    ensures RowsFor(rows + [row], g, thresholds, pixelSizeM, regionsOf, pi)
  {
    var t := rows + [row];
    forall k | 0 <= k < |t|
      ensures IsRowFor(t[k], g, thresholds[k], pixelSizeM, regionsOf, pi)
    {
      if k < |rows| {
        assert t[k] == rows[k];
      }
    }
    if Ascending(thresholds) {
      AppendKeepsNonIncreasing(rows, row, g, thresholds, pixelSizeM, regionsOf, pi);
    }
  }

  /** Over ascending thresholds the next threshold's row keeps the table non-increasing. */
  lemma AppendKeepsNonIncreasing(rows: seq<SensitivityRow>, row: SensitivityRow, g: seq<seq<real>>,
                                 thresholds: seq<real>, pixelSizeM: real, regionsOf: Mask -> seq<Region>, pi: real)
    requires pi > 0.0 && |rows| < |thresholds| && Ascending(thresholds) && NonIncreasing(rows)
    requires forall k | 0 <= k < |rows| :: IsRowFor(rows[k], g, thresholds[k], pixelSizeM, regionsOf, pi)
    requires IsRowFor(row, g, thresholds[|rows|], pixelSizeM, regionsOf, pi)
    ensures NonIncreasing(rows + [row])
  {
    forall a | 0 <= a < |rows|
      ensures row.pixelCount <= rows[a].pixelCount && row.litAreaKm2 <= rows[a].litAreaKm2
    {
      RowsMonotone(rows[a], row, g, thresholds[a], thresholds[|rows|], pixelSizeM, regionsOf, pi);
    }
  }

  /**
   * `sensitivity_analysis`: one row per threshold, in input order.  Each row
   * holds the urban mask's pixel count, its area (count times pixel area) and
   * a compactness in [0, 1]; over ascending thresholds the counts and areas
   * never increase.  `regionsOf` stands for skimage's labelling.
   */
  method SensitivityAnalysis(g: seq<seq<real>>, thresholds: seq<real>, pixelSizeM: real,
                             regionsOf: Mask -> seq<Region>, pi: real)
    returns (rows: seq<SensitivityRow>)
    requires pi > 0.0
    ensures |rows| == |thresholds|
    ensures forall k | 0 <= k < |rows| :: IsRowFor(rows[k], g, thresholds[k], pixelSizeM, regionsOf, pi)
    ensures Ascending(thresholds) ==> NonIncreasing(rows)
  {
    rows := [];
    var k := 0;
    while k < |thresholds|
      invariant 0 <= k <= |thresholds| && |rows| == k
      invariant RowsFor(rows, g, thresholds, pixelSizeM, regionsOf, pi)
    {
      var row := SensitivityRowFor(g, thresholds[k], pixelSizeM, regionsOf, pi);
      AppendRow(rows, row, g, thresholds, pixelSizeM, regionsOf, pi);
      rows := rows + [row];
      k := k + 1;
    }
  }
}
