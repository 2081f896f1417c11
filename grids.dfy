/**
 * Two-dimensional rasters as sequences of rows, boolean masks, and the
 * reductions the analysis applies to them (`np.sum` of a mask, and the
 * sums of the row and column indices of its lit cells).
 *
 * A numpy array is rectangular by construction; here that is the
 * predicate `Rect`.  Masks are `seq<seq<bool>>`: `true` is the value 1 of
 * the repository's uint8 masks.
 */
module Grids {

  datatype Option<T> = None | Some(value: T)

  type Mask = seq<seq<bool>>

  /** Number of columns of a grid (that of its first row; 0 when it has no rows). */
  function Cols<T>(g: seq<seq<T>>): nat {
    if |g| == 0 then 0 else |g[0]|
  }

  /** Every row has the same length, as in a 2-D numpy array. */
  ghost predicate Rect<T>(g: seq<seq<T>>) {
    forall i | 0 <= i < |g| :: |g[i]| == Cols(g)
  }

  /** Two grids have the same shape (rows and columns). */
  ghost predicate SameShape<T, U>(a: seq<seq<T>>, b: seq<seq<U>>) {
    Rect(a) && Rect(b) && |a| == |b| && Cols(a) == Cols(b)
  }

  /** Row-by-row equal lengths; what the elementwise lemmas below need. */
  ghost predicate Congruent<T, U>(a: seq<seq<T>>, b: seq<seq<U>>) {
    |a| == |b| && forall i | 0 <= i < |a| :: |a[i]| == |b[i]|
  }

  /** Cell (i, j) is inside the mask and set.  Cells outside the grid read as 0. */
  predicate Lit(m: Mask, i: int, j: int) {
    0 <= i < |m| && 0 <= j < |m[i]| && m[i][j]
  }

  /** The mask of a shape whose cell (i, j) is `p(i, j)`. */
  function MaskOf(h: nat, w: nat, p: (int, int) -> bool): (r: Mask)
    ensures |r| == h && Rect(r) && Cols(r) == (if h == 0 then 0 else w)
    ensures forall i, j | 0 <= i < h && 0 <= j < w :: r[i][j] == p(i, j)
  {
    seq(h, i => seq(w, j => p(i, j)))
  }

  /** `mask * other_mask` in numpy: the cells of `m` where `p` also holds. */
  function Select(m: Mask, p: (int, int) -> bool): (r: Mask)
    ensures Congruent(r, m)
    ensures forall i, j | 0 <= i < |m| && 0 <= j < |m[i]| :: r[i][j] == (m[i][j] && p(i, j))
  {
    seq(|m|, i requires 0 <= i < |m| =>
      seq(|m[i]|, j requires 0 <= j < |m[i]| => m[i][j] && p(i, j)))
  }

  // ---------------------------------------------------------------------
  // np.sum of a mask: the number of lit cells
  // ---------------------------------------------------------------------

  /** Lit cells among the first `n` cells of a row. */
  function RowCount(r: seq<bool>, n: nat): nat
    requires n <= |r|
  {
    if n == 0 then 0 else RowCount(r, n - 1) + (if r[n - 1] then 1 else 0)
  }

  /** Lit cells among the first `n` rows. */
  function CountRows(m: Mask, n: nat): nat
    requires n <= |m|
  {
    if n == 0 then 0 else CountRows(m, n - 1) + RowCount(m[n - 1], |m[n - 1]|)
  }

  /** `np.sum(mask)`: the number of lit cells. */
  function Count(m: Mask): nat {
    CountRows(m, |m|)
  }

  lemma {:induction false} RowCountBounded(r: seq<bool>, n: nat)
    requires n <= |r|
    ensures RowCount(r, n) <= n
    ensures RowCount(r, n) == 0 <==> forall j | 0 <= j < n :: !r[j]
    ensures (forall j | 0 <= j < n :: r[j]) ==> RowCount(r, n) == n
  {
    if n > 0 { RowCountBounded(r, n - 1); }
  }

  lemma {:induction false} CountRowsZeroIff(m: Mask, n: nat)
    requires n <= |m|
    ensures CountRows(m, n) == 0 <==> forall i, j | 0 <= i < n && 0 <= j < |m[i]| :: !m[i][j]
  {
    if n > 0 {
      CountRowsZeroIff(m, n - 1);
      RowCountBounded(m[n - 1], |m[n - 1]|);
    }
  }

  /** A mask sums to zero exactly when no cell is lit. */
  lemma CountZeroIff(m: Mask)
    ensures Count(m) == 0 <==> forall i, j :: !Lit(m, i, j)
  {
    CountRowsZeroIff(m, |m|);
    if Count(m) != 0 {
      var i, j :| 0 <= i < |m| && 0 <= j < |m[i]| && m[i][j];
      assert Lit(m, i, j);
    }
  }

  lemma {:induction false} CountRowsBounded(m: Mask, n: nat)
    requires Rect(m) && n <= |m|
    ensures CountRows(m, n) <= n * Cols(m)
    ensures (forall i, j | 0 <= i < n && 0 <= j < Cols(m) :: m[i][j]) ==> CountRows(m, n) == n * Cols(m)
  {
    if n > 0 {
      CountRowsBounded(m, n - 1);
      RowCountBounded(m[n - 1], |m[n - 1]|);
      assert (n - 1) * Cols(m) + Cols(m) == n * Cols(m);
    }
  }

  /** A mask has at most as many lit cells as cells, and exactly that many when all are lit. */
  lemma CountBounded(m: Mask)
    requires Rect(m)
    ensures Count(m) <= |m| * Cols(m)
    ensures (forall i, j | 0 <= i < |m| && 0 <= j < Cols(m) :: m[i][j]) ==> Count(m) == |m| * Cols(m)
  {
    CountRowsBounded(m, |m|);
  }

  lemma {:induction false} RowCountMono(r: seq<bool>, s: seq<bool>, n: nat)
    requires n <= |r| == |s|
    requires forall j | 0 <= j < |r| :: r[j] ==> s[j]
    ensures RowCount(r, n) <= RowCount(s, n)
  {
    if n > 0 { RowCountMono(r, s, n - 1); }
  }

  lemma {:induction false} CountRowsMono(a: Mask, b: Mask, n: nat)
    requires Congruent(a, b) && n <= |a|
    requires forall i, j | 0 <= i < |a| && 0 <= j < |a[i]| :: a[i][j] ==> b[i][j]
    ensures CountRows(a, n) <= CountRows(b, n)
  {
    if n > 0 {
      CountRowsMono(a, b, n - 1);
      RowCountMono(a[n - 1], b[n - 1], |a[n - 1]|);
    }
  }

  /** A sub-mask of another has no more lit cells. */
  lemma CountMono(a: Mask, b: Mask)
    requires Congruent(a, b)
    requires forall i, j | 0 <= i < |a| && 0 <= j < |a[i]| :: a[i][j] ==> b[i][j]
    ensures Count(a) <= Count(b)
  {
    CountRowsMono(a, b, |a|);
  }

  lemma {:induction false} RowCountSplit(u: seq<bool>, a: seq<bool>, b: seq<bool>, n: nat)
    requires n <= |u| == |a| == |b|
    requires forall j | 0 <= j < |u| :: u[j] == (a[j] || b[j]) && !(a[j] && b[j])
    ensures RowCount(u, n) == RowCount(a, n) + RowCount(b, n)
  {
    if n > 0 { RowCountSplit(u, a, b, n - 1); }
  }

  lemma {:induction false} CountRowsSplit(u: Mask, a: Mask, b: Mask, n: nat)
    requires Congruent(u, a) && Congruent(u, b) && n <= |u|
    requires forall i, j | 0 <= i < |u| && 0 <= j < |u[i]| :: u[i][j] == (a[i][j] || b[i][j]) && !(a[i][j] && b[i][j])
    ensures CountRows(u, n) == CountRows(a, n) + CountRows(b, n)
  {
    if n > 0 {
      CountRowsSplit(u, a, b, n - 1);
      RowCountSplit(u[n - 1], a[n - 1], b[n - 1], |u[n - 1]|);
    }
  }

  /** Counting is additive over a mask split into two disjoint parts. */
  lemma CountSplit(u: Mask, a: Mask, b: Mask)
    requires Congruent(u, a) && Congruent(u, b)
    requires forall i, j | 0 <= i < |u| && 0 <= j < |u[i]| :: u[i][j] == (a[i][j] || b[i][j]) && !(a[i][j] && b[i][j])
    ensures Count(u) == Count(a) + Count(b)
  {
    CountRowsSplit(u, a, b, |u|);
  }

  /** Masks that agree cell by cell have the same count. */
  lemma CountExt(a: Mask, b: Mask)
    requires Congruent(a, b)
    requires forall i, j | 0 <= i < |a| && 0 <= j < |a[i]| :: a[i][j] == b[i][j]
    ensures Count(a) == Count(b)
  {
    CountMono(a, b);
    CountMono(b, a);
  }

  // ---------------------------------------------------------------------
  // Sums of the row and column indices of the lit cells (np.where + np.mean)
  // ---------------------------------------------------------------------

  /** Sum of the column indices of the lit cells among the first `n` cells of a row. */
  function RowColSum(r: seq<bool>, n: nat): int
    requires n <= |r|
  {
    if n == 0 then 0 else RowColSum(r, n - 1) + (if r[n - 1] then n - 1 else 0)
  }

  /** Sum of the row indices of the lit cells among the first `n` rows. */
  function RowIndexSumRows(m: Mask, n: nat): int
    requires n <= |m|
  {
    if n == 0 then 0 else RowIndexSumRows(m, n - 1) + (n - 1) * RowCount(m[n - 1], |m[n - 1]|)
  }

  /** Sum of the column indices of the lit cells among the first `n` rows. */
  function ColIndexSumRows(m: Mask, n: nat): int
    requires n <= |m|
  {
    if n == 0 then 0 else ColIndexSumRows(m, n - 1) + RowColSum(m[n - 1], |m[n - 1]|)
  }

  function RowIndexSum(m: Mask): int { RowIndexSumRows(m, |m|) }

  function ColIndexSum(m: Mask): int { ColIndexSumRows(m, |m|) }

  lemma {:induction false} RowColSumBounds(r: seq<bool>, n: nat, lo: int, hi: int)
    requires n <= |r|
    requires forall j | 0 <= j < n && r[j] :: lo <= j <= hi
    ensures lo * RowCount(r, n) <= RowColSum(r, n) <= hi * RowCount(r, n)
  {
    if n > 0 { RowColSumBounds(r, n - 1, lo, hi); }
  }

  lemma {:induction false} ColIndexSumBounds(m: Mask, n: nat, lo: int, hi: int)
    requires n <= |m|
    requires forall i, j | 0 <= i < n && 0 <= j < |m[i]| && m[i][j] :: lo <= j <= hi
    ensures lo * CountRows(m, n) <= ColIndexSumRows(m, n) <= hi * CountRows(m, n)
  {
    if n > 0 {
      ColIndexSumBounds(m, n - 1, lo, hi);
      RowColSumBounds(m[n - 1], |m[n - 1]|, lo, hi);
      var a, c := CountRows(m, n - 1), RowCount(m[n - 1], |m[n - 1]|);
      Distrib(lo, a, c);
      Distrib(hi, a, c);
    }
  }

  lemma {:induction false} RowIndexSumBounds(m: Mask, n: nat, lo: int, hi: int)
    requires n <= |m|
    requires forall i, j | 0 <= i < n && 0 <= j < |m[i]| && m[i][j] :: lo <= i <= hi
    ensures lo * CountRows(m, n) <= RowIndexSumRows(m, n) <= hi * CountRows(m, n)
  {
    if n > 0 {
      RowIndexSumBounds(m, n - 1, lo, hi);
      var a, c := CountRows(m, n - 1), RowCount(m[n - 1], |m[n - 1]|);
      Distrib(lo, a, c);
      Distrib(hi, a, c);
      if c > 0 {
        RowCountBounded(m[n - 1], |m[n - 1]|);
        var j :| 0 <= j < |m[n - 1]| && m[n - 1][j];
        assert lo <= n - 1 <= hi;
        MulMono(lo, n - 1, c);
        MulMono(n - 1, hi, c);
      }
    }
  }

  lemma Distrib(x: int, a: int, c: int)
    ensures x * (a + c) == x * a + x * c
  {
  }

  lemma MulMono(x: int, y: int, c: nat)
    requires x <= y
    ensures x * c <= y * c
  {
  }

  /**
   * If every lit cell lies in rows lo..hi, the row index sum lies between
   * the bounds times the number of lit cells.
   */
  lemma RowIndexBounds(m: Mask, lo: int, hi: int)
    requires forall i, j :: Lit(m, i, j) ==> lo <= i <= hi
    ensures lo * Count(m) <= RowIndexSum(m) <= hi * Count(m)
  {
    assert forall i, j | 0 <= i < |m| && 0 <= j < |m[i]| && m[i][j] :: Lit(m, i, j);
    RowIndexSumBounds(m, |m|, lo, hi);
  }

  /** The same for columns clo..chi and the column index sum. */
  lemma ColIndexBounds(m: Mask, clo: int, chi: int)
    requires forall i, j :: Lit(m, i, j) ==> clo <= j <= chi
    ensures clo * Count(m) <= ColIndexSum(m) <= chi * Count(m)
  {
    assert forall i, j | 0 <= i < |m| && 0 <= j < |m[i]| && m[i][j] :: Lit(m, i, j);
    ColIndexSumBounds(m, |m|, clo, chi);
  }
}
