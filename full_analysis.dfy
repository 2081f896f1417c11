/**
 * Annual compositing and the time series of the full pipeline: per-pixel
 * median composites of the rasters of each year, zeros treated as missing,
 * and the year-over-year growth of the lit area.
 *
 * A raster value is a real number; `0.0` is the no-data value the pipeline
 * turns into NaN before the median and back into 0 after it.
 */
module FullAnalysis {
  import opened Grids
  import opened Validation
  import opened Years
  import SpatialAnalysis

  // ---------------------------------------------------------------------
  // Median
  // ---------------------------------------------------------------------

  ghost predicate Ascending(s: seq<real>) {
    forall a, b | 0 <= a < b < |s| :: s[a] <= s[b]
  }

  /** `x` inserted into a sequence before its first larger element. */
  function Insert(x: real, s: seq<real>): (r: seq<real>)
    ensures multiset(r) == multiset(s) + multiset{x}
  {
    if |s| == 0 then [x]
    else if x <= s[0] then [x] + s
    else
      assert s == [s[0]] + s[1..];
      [s[0]] + Insert(x, s[1..])
  }

  /** Insertion into an ascending sequence keeps it ascending. */
  lemma {:induction false} InsertAscending(x: real, s: seq<real>)
    requires Ascending(s)
    ensures Ascending(Insert(x, s))
  {
    if |s| > 0 && x > s[0] {
      var tail := Insert(x, s[1..]);
      InsertAscending(x, s[1..]);
      forall k | 0 <= k < |tail| ensures s[0] <= tail[k] {
        assert tail[k] in multiset(tail);
        if tail[k] != x {
          assert tail[k] in multiset(s[1..]);
          var l :| 0 <= l < |s[1..]| && s[1..][l] == tail[k];
          assert s[l + 1] == tail[k];
        }
      }
    }
  }

  /** Insertion sort. */
  function Sort(s: seq<real>): (r: seq<real>)
    ensures Ascending(r) && multiset(r) == multiset(s)
  {
    if |s| == 0 then []
    else
      assert s == [s[0]] + s[1..];
      var t := Sort(s[1..]);
      InsertAscending(s[0], t);
      Insert(s[0], t)
  }

  /** The first element of an ascending sequence is its least value. */
  lemma AscendingFirst(s: seq<real>, x: real)
    requires Ascending(s) && x in multiset(s)
    ensures |s| > 0 && s[0] <= x
  {
    var k :| 0 <= k < |s| && s[k] == x;
  }

  /** Two ascending sequences holding the same values are equal. */
  lemma {:induction false} AscendingUnique(s: seq<real>, t: seq<real>)
    requires Ascending(s) && Ascending(t) && multiset(s) == multiset(t)
    ensures s == t
    decreases |s|
  {
    if |s| > 0 {
      assert s[0] in multiset(s);
      AscendingFirst(t, s[0]);
      assert t[0] in multiset(t);
      AscendingFirst(s, t[0]);
      assert s[0] == t[0];
      HeadTail(s);
      HeadTail(t);
      MultisetCancel(multiset(s[1..]), multiset(t[1..]), s[0]);
      AscendingTail(s);
      AscendingTail(t);
      AscendingUnique(s[1..], t[1..]);
      assert s == [s[0]] + s[1..] && t == [t[0]] + t[1..];
    }
  }

  lemma HeadTail(s: seq<real>)
    requires |s| > 0
    ensures multiset(s[1..]) + multiset{s[0]} == multiset(s)
  {
    assert s == [s[0]] + s[1..];
  }

  lemma AscendingTail(s: seq<real>)
    requires |s| > 0 && Ascending(s)
    ensures Ascending(s[1..])
  {
    forall a, b | 0 <= a < b < |s[1..]| ensures s[1..][a] <= s[1..][b] {
      assert s[1..][a] == s[a + 1] && s[1..][b] == s[b + 1];
    }
  }

  /**
   * `np.median`: the middle value of the sorted values, or the mean of the
   * two middle values for an even count.
   */
  function Median(s: seq<real>): real
    requires |s| > 0
  {
    Middle(Sort(s))
  }

  /** The middle of a sorted sequence: its middle element, or the mean of its two middle elements. */
  function Middle(t: seq<real>): real
    requires |t| > 0
  {
    var h := |t| / 2;
    if |t| % 2 == 1 then t[h] else (t[h - 1] + t[h]) / 2.0
  }

  /** The median depends on the values only, not on their order. */
  lemma MedianReorder(s: seq<real>, t: seq<real>)
    requires |s| > 0 && multiset(s) == multiset(t)
    ensures |t| > 0 && Median(s) == Median(t)
  {
    assert |t| == |multiset(t)| == |multiset(s)| == |s|;
    var a, b := Sort(s), Sort(t);
    AscendingUnique(a, b);
  }

  /** The median lies between any bounds of the values, so between their min and max. */
  lemma MedianWithin(s: seq<real>, lo: real, hi: real)
    requires |s| > 0 && forall k | 0 <= k < |s| :: lo <= s[k] <= hi
    ensures lo <= Median(s) <= hi
  {
    var t := Sort(s);
    assert |t| == |multiset(t)| == |s|;
    forall k | 0 <= k < |t| ensures lo <= t[k] <= hi {
      assert t[k] in multiset(t);
      assert t[k] in s;
    }
  }

  /** The median of one value is that value. */
  lemma MedianSingle(x: real)
    ensures Median([x]) == x
  {
    assert Sort([x]) == Insert(x, []);
  }

  // ---------------------------------------------------------------------
  // Per-pixel composite
  // ---------------------------------------------------------------------

  /** `arr[arr == 0] = np.nan` for one value. */
  function ZeroAsMissing(x: real): Cell {
    if x == 0.0 then NaN else Num(x)
  }

  /** `arr[arr == 0] = np.nan` for a raster. */
  function MarkMissing(g: seq<seq<real>>): (a: CellGrid)
    ensures Congruent(a, g)
    ensures forall i, j | 0 <= i < |g| && 0 <= j < |g[i]| :: a[i][j] == ZeroAsMissing(g[i][j])
  {
    seq(|g|, i requires 0 <= i < |g| => seq(|g[i]|, j requires 0 <= j < |g[i]| => ZeroAsMissing(g[i][j])))
  }

  /** The numbers among the cells, in order. */
  function Nums(cells: seq<Cell>): seq<real> {
    if |cells| == 0 then []
    else Nums(cells[..|cells| - 1]) + (if cells[|cells| - 1].Num? then [cells[|cells| - 1].v] else [])
  }

  lemma {:induction false} NumsCount(cells: seq<Cell>)
    ensures |Nums(cells)| == NumCount(cells)
  {
    if |cells| > 0 {
      NumsCount(cells[..|cells| - 1]);
    }
  }

  /** Each number occurs among the numbers as often as its cell occurs among the cells. */
  lemma {:induction false} NumsMultiset(cells: seq<Cell>)
    ensures forall x :: multiset(Nums(cells))[x] == multiset(cells)[Num(x)]
  {
    if |cells| > 0 {
      var init, last := cells[..|cells| - 1], cells[|cells| - 1];
      NumsMultiset(init);
      assert cells == init + [last];
      assert multiset(cells) == multiset(init) + multiset{last};
      assert Nums(cells) == Nums(init) + (if last.Num? then [last.v] else []);
    }
  }

  /** The numbers of cells holding the same values are the same values. */
  lemma NumsReorder(a: seq<Cell>, b: seq<Cell>)
    requires multiset(a) == multiset(b)
    ensures multiset(Nums(a)) == multiset(Nums(b))
  {
    NumsMultiset(a);
    NumsMultiset(b);
    forall x ensures multiset(Nums(a))[x] == multiset(Nums(b))[x] {
      assert multiset(a)[Num(x)] == multiset(b)[Num(x)];
    }
  }

  lemma {:induction false} NumsWithinBounds(cells: seq<Cell>, lo: real, hi: real)
    requires NumsWithin(cells, lo, hi)
    ensures forall k | 0 <= k < |Nums(cells)| :: lo <= Nums(cells)[k] <= hi
  {
    if |cells| > 0 {
      NumsWithinInit(cells, lo, hi);
      NumsWithinBounds(cells[..|cells| - 1], lo, hi);
    }
  }

  /** `np.nanmedian`: the median of the numbers, NaN when there is none. */
  function NanMedian(cells: seq<Cell>): Cell {
    var xs := Nums(cells);
    if |xs| == 0 then NaN else Num(Median(xs))
  }

  /** `np.where(np.isnan(comp), 0, comp)` for one value. */
  function NanToZero(c: Cell): real {
    if c.NaN? then 0.0 else c.v
  }

  /** A composite pixel: the median of the non-zero values, 0 when every value is 0. */
  function CompositePixel(column: seq<Cell>): real {
    NanToZero(NanMedian(column))
  }

  /** A pixel whose values are all zero (all missing) composites to 0. */
  lemma CompositePixelAllMissing(column: seq<Cell>)
    requires forall k | 0 <= k < |column| :: column[k].NaN?
    ensures CompositePixel(column) == 0.0
  {
    NumsCount(column);
    NumCountZeroIff(column);
  }

  /** A composite pixel with some value lies between any bounds of the non-zero values. */
  lemma CompositePixelWithin(column: seq<Cell>, lo: real, hi: real)
    requires NumsWithin(column, lo, hi)
    requires exists k :: 0 <= k < |column| && column[k].Num?
    ensures lo <= CompositePixel(column) <= hi
  {
    NumsCount(column);
    NumCountZeroIff(column);
    NumsWithinBounds(column, lo, hi);
    MedianWithin(Nums(column), lo, hi);
  }

  /** Reordering the values of a pixel does not change its composite. */
  lemma CompositePixelReorder(a: seq<Cell>, b: seq<Cell>)
    requires multiset(a) == multiset(b)
    ensures CompositePixel(a) == CompositePixel(b)
  {
    NumsReorder(a, b);
    if |Nums(a)| > 0 {
      MedianReorder(Nums(a), Nums(b));
    } else {
      assert |Nums(b)| == |multiset(Nums(b))| == 0;
    }
  }

  // ---------------------------------------------------------------------
  // Composite of a stack of rasters
  // ---------------------------------------------------------------------

  /** `f` applied to every element, in order. */
  function MapSeq<A, B>(s: seq<A>, f: A -> B): (r: seq<B>)
    ensures |r| == |s| && forall k | 0 <= k < |s| :: r[k] == f(s[k])
  {
    seq(|s|, k requires 0 <= k < |s| => f(s[k]))
  }

  lemma MapAppend<A, B>(u: seq<A>, v: seq<A>, f: A -> B)
    ensures MapSeq(u + v, f) == MapSeq(u, f) + MapSeq(v, f)
  {
  }

  /** Removing the element at `k` removes one copy of it from the multiset. */
  lemma MultisetRemove<A>(b: seq<A>, k: nat)
    requires k < |b|
    ensures multiset(b[..k] + b[k + 1..]) + multiset{b[k]} == multiset(b)
  {
    assert b == b[..k] + [b[k]] + b[k + 1..];
  }

  /** Mapping two sequences holding the same elements gives sequences holding the same elements. */
  lemma {:induction false} MapReorder<A, B>(a: seq<A>, b: seq<A>, f: A -> B)
    requires multiset(a) == multiset(b)
    ensures multiset(MapSeq(a, f)) == multiset(MapSeq(b, f))
    decreases |a|
  {
    assert |b| == |multiset(b)| == |multiset(a)| == |a|;
    if |a| > 0 {
      var x, a' := a[|a| - 1], a[..|a| - 1];
      assert a == a' + [x];
      assert x in multiset(b);
      var k :| 0 <= k < |b| && b[k] == x;
      var b' := b[..k] + b[k + 1..];
      MultisetRemove(b, k);
      MultisetCancel(multiset(a'), multiset(b'), x);
      MapReorder(a', b', f);
      MapRemove(b, k, f);
      MapAppend(a', [x], f);
    }
  }

  /** `A + {x} == B + {x}` gives `A == B`. */
  lemma MultisetCancel<A>(u: multiset<A>, v: multiset<A>, x: A)
    requires u + multiset{x} == v + multiset{x}
    ensures u == v
  {
    forall y ensures u[y] == v[y] {
      assert (u + multiset{x})[y] == (v + multiset{x})[y];
    }
  }

  /** Removing the element at `k` before mapping removes the image of it after mapping. */
  lemma MapRemove<A, B>(b: seq<A>, k: nat, f: A -> B)
    requires k < |b|
    ensures multiset(MapSeq(b[..k] + b[k + 1..], f)) + multiset{f(b[k])} == multiset(MapSeq(b, f))
  {
    var mb := MapSeq(b, f);
    assert mb[..k] + mb[k + 1..] == MapSeq(b[..k] + b[k + 1..], f);
    MultisetRemove(mb, k);
  }

  /** The value of pixel (i, j) in one raster; missing outside it. */
  function CellAt(g: CellGrid, i: nat, j: nat): Cell {
    if i < |g| && j < |g[i]| then g[i][j] else NaN
  }

  /** `stack[:, i, j]`: the values of pixel (i, j) down the stack. */
  function Column(stack: seq<CellGrid>, i: nat, j: nat): seq<Cell> {
    MapSeq(stack, (g: CellGrid) => CellAt(g, i, j))
  }

  /** `np.stack(stacks, axis=0)` succeeds: at least one grid, all of the first grid's shape. */
  predicate Stackable(stack: seq<CellGrid>) {
    |stack| > 0
    && (forall t | 0 <= t < |stack| :: |stack[t]| == |stack[0]|)
    && (forall t, i | 0 <= t < |stack| && 0 <= i < |stack[t]| :: |stack[t][i]| == Cols(stack[0]))
  }

  /**
   * `np.nanmedian(stack, axis=0)` with NaN replaced by 0: per pixel, the
   * median of the values that are not missing, 0 where all are missing.
   */
  function Composite(stack: seq<CellGrid>): (comp: seq<seq<real>>)
    requires Stackable(stack)
    ensures SameShape(comp, stack[0])
  {
    seq(|stack[0]|, i requires 0 <= i < |stack[0]| =>
      seq(Cols(stack[0]), j requires 0 <= j < Cols(stack[0]) => CompositePixel(Column(stack, i, j))))
  }

  /** One value, zero meaning missing, composites to itself. */
  lemma CompositePixelSingle(x: real)
    ensures CompositePixel([ZeroAsMissing(x)]) == x
  {
    var column := [ZeroAsMissing(x)];
    if x == 0.0 {
      CompositePixelAllMissing(column);
    } else {
      assert column == [] + [Num(x)];
      assert Nums(column) == [x];
      MedianSingle(x);
    }
  }

  /** The composite of one raster is that raster. */
  lemma CompositeSingle(g: seq<seq<real>>)
    requires Rect(g)
    ensures Stackable([MarkMissing(g)]) && Composite([MarkMissing(g)]) == g
  {
    var stack := [MarkMissing(g)];
    var comp := Composite(stack);
    assert |comp| == |g|;
    forall i | 0 <= i < |g| ensures comp[i] == g[i] {
      assert |comp[i]| == |g[i]|;
      forall j | 0 <= j < |g[i]| ensures comp[i][j] == g[i][j] {
        assert Column(stack, i, j) == [ZeroAsMissing(g[i][j])];
        CompositePixelSingle(g[i][j]);
      }
    }
  }

  /** The composite does not depend on the order of the rasters in the stack. */
  lemma CompositeReorder(a: seq<CellGrid>, b: seq<CellGrid>)
    requires Stackable(a) && multiset(a) == multiset(b)
    ensures Stackable(b) && Composite(a) == Composite(b)
  {
    assert |b| == |multiset(b)| == |a|;
    forall t | 0 <= t < |b| ensures exists u :: 0 <= u < |a| && a[u] == b[t] {
      assert b[t] in multiset(a);
    }
    assert Stackable(b);
    var b0 := b[0];
    var u :| 0 <= u < |a| && a[u] == b0;
    assert |b0| == |a[0]| && Cols(b0) == Cols(a[0]);
    var ca, cb := Composite(a), Composite(b);
    forall i | 0 <= i < |a[0]| ensures ca[i] == cb[i] {
      forall j | 0 <= j < Cols(a[0]) ensures ca[i][j] == cb[i][j] {
        MapReorder(a, b, (g: CellGrid) => CellAt(g, i, j));
        CompositePixelReorder(Column(a, i, j), Column(b, i, j));
      }
    }
  }

  /** A pixel missing in every raster of the stack composites to 0. */
  lemma CompositeAllMissing(stack: seq<CellGrid>, i: nat, j: nat)
    requires Stackable(stack) && i < |stack[0]| && j < Cols(stack[0])
    requires forall t | 0 <= t < |stack| :: stack[t][i][j].NaN?
    ensures Composite(stack)[i][j] == 0.0
  {
    var column := Column(stack, i, j);
    assert forall t | 0 <= t < |column| :: column[t] == stack[t][i][j];
    CompositePixelAllMissing(column);
  }

  /**
   * A pixel present in some raster composites to a value between any bounds
   * of its present values, so between their minimum and maximum.
   */
  lemma CompositeWithin(stack: seq<CellGrid>, i: nat, j: nat, lo: real, hi: real)
    requires Stackable(stack) && i < |stack[0]| && j < Cols(stack[0])
    requires forall t | 0 <= t < |stack| && stack[t][i][j].Num? :: lo <= stack[t][i][j].v <= hi
    requires exists t :: 0 <= t < |stack| && stack[t][i][j].Num?
    ensures lo <= Composite(stack)[i][j] <= hi
  {
    var column := Column(stack, i, j);
    var t :| 0 <= t < |stack| && stack[t][i][j].Num?;
    assert column[t].Num?;
    CompositePixelWithin(column, lo, hi);
  }

  // ---------------------------------------------------------------------
  // Annual composites
  // ---------------------------------------------------------------------

  /** An input raster: its file name, its band-1 values and its metadata. */
  datatype Raster<M> = Raster(name: string, grid: seq<seq<real>>, meta: M)

  predicate Dated<M>(f: Raster<M>) {
    ParseYearFromName(f.name).Some?
  }

  /**
   * `by_year` after the given files: the grid of each file whose name holds a
   * year, zeros marked missing, appended under that year.
   */
  function ByYear<M>(files: seq<Raster<M>>): map<int, seq<CellGrid>> {
    if |files| == 0 then map[]
    else
      var prev, f := ByYear(files[..|files| - 1]), files[|files| - 1];
      match ParseYearFromName(f.name)
      case None => prev
      case Some(y) => prev[y := (if y in prev then prev[y] else []) + [MarkMissing(f.grid)]]
  }

  /** The grids of the files dated `y`, zeros marked missing, in file order. */
  function YearStack<M>(files: seq<Raster<M>>, y: int): seq<CellGrid> {
    if |files| == 0 then []
    else
      var f := files[|files| - 1];
      YearStack(files[..|files| - 1], y) + (if ParseYearFromName(f.name) == Some(y) then [MarkMissing(f.grid)] else [])
  }

  /** The stack of year `y` is non-empty exactly when some file name holds `y`. */
  lemma {:induction false} YearStackNonEmpty<M>(files: seq<Raster<M>>, y: int)
    ensures |YearStack(files, y)| > 0 <==> exists k :: 0 <= k < |files| && ParseYearFromName(files[k].name) == Some(y)
  {
    if |files| > 0 {
      var init := files[..|files| - 1];
      YearStackNonEmpty(init, y);
      assert forall k | 0 <= k < |init| :: init[k] == files[k];
    }
  }

  /**
   * `by_year` keys exactly the years that some file name holds, and under
   * each is the stack of that year's files in file order; undated files are
   * skipped.
   */
  lemma {:induction false} ByYearStacks<M>(files: seq<Raster<M>>, y: int)
    ensures y in ByYear(files) <==> |YearStack(files, y)| > 0
    ensures y in ByYear(files) ==> ByYear(files)[y] == YearStack(files, y)
  {
    if |files| > 0 {
      ByYearStacks(files[..|files| - 1], y);
    }
  }

  /** The metadata of the first dated file, if any: `meta_example`. */
  function FirstMeta<M>(files: seq<Raster<M>>): Option<M> {
    if |files| == 0 then None
    else
      var prev, f := FirstMeta(files[..|files| - 1]), files[|files| - 1];
      if prev.Some? then prev else if Dated(f) then Some(f.meta) else None
  }

  /** `meta_example` is the metadata of the first dated file, and exists iff some file is dated. */
  lemma {:induction false} FirstMetaIsFirst<M>(files: seq<Raster<M>>)
    ensures FirstMeta(files).Some? <==> exists k :: 0 <= k < |files| && Dated(files[k])
    ensures FirstMeta(files).Some? ==>
      exists k :: (0 <= k < |files| && Dated(files[k]) && FirstMeta(files).value == files[k].meta
        && forall l | 0 <= l < k :: !Dated(files[l]))
  {
    if |files| > 0 {
      var init := files[..|files| - 1];
      FirstMetaIsFirst(init);
      assert forall k | 0 <= k < |init| :: init[k] == files[k];
      if FirstMeta(init).None? && Dated(files[|files| - 1]) {
        assert forall l | 0 <= l < |files| - 1 :: !Dated(files[l]);
      }
    }
  }

  /** A file contributes to `by_year` only if it is dated, so then `meta_example` is set. */
  lemma {:induction false} ByYearHasMeta<M>(files: seq<Raster<M>>)
    ensures ByYear(files) != map[] ==> FirstMeta(files).Some?
  {
    if |files| > 0 {
      ByYearHasMeta(files[..|files| - 1]);
    }
  }

  /**
   * `build_annual_composites`: group the dated files by year, then one
   * median composite per year, every one carrying the metadata of the first
   * dated file.  A year whose grids differ in shape makes `np.stack` fail,
   * and then there is no result.
   */
  method BuildAnnualComposites<M>(files: seq<Raster<M>>) returns (composites: Option<map<int, (seq<seq<real>>, M)>>)
    ensures composites.None? <==> exists y | y in ByYear(files) :: !Stackable(ByYear(files)[y])
    ensures composites.Some? ==> composites.value.Keys == ByYear(files).Keys
    ensures composites.Some? ==> forall y | y in composites.value ::
      Stackable(ByYear(files)[y]) && FirstMeta(files).Some?
      && composites.value[y] == (Composite(ByYear(files)[y]), FirstMeta(files).value)
  {
    var byYear, metaExample := GroupByYear(files);
    ByYearHasMeta(files);
    var comps: map<int, (seq<seq<real>>, M)> := map[];
    var todo := byYear.Keys;
    while todo != {}
      invariant todo <= byYear.Keys
      invariant comps.Keys == byYear.Keys - todo
      invariant forall y | y in comps :: Stackable(byYear[y]) && comps[y] == (Composite(byYear[y]), metaExample.value)
      decreases |todo|
    {
      if forall y :: y !in todo { assert false; }
      var year :| year in todo;
      var stacks := byYear[year];
      if !Stackable(stacks) {
        return None;
      }
      comps := comps[year := (Composite(stacks), metaExample.value)];
      todo := todo - {year};
    }
    composites := Some(comps);
  }

  /** The first loop of `build_annual_composites`: `setdefault(year, []).append(arr)` per dated file. */
  method GroupByYear<M>(files: seq<Raster<M>>) returns (byYear: map<int, seq<CellGrid>>, metaExample: Option<M>)
    ensures byYear == ByYear(files) && metaExample == FirstMeta(files)
  {
    byYear, metaExample := map[], None;
    for k := 0 to |files|
      invariant byYear == ByYear(files[..k]) && metaExample == FirstMeta(files[..k])
    {
      assert files[..k + 1][..k] == files[..k];
      var year := ParseYearFromName(files[k].name);
      if year.None? {
        continue;
      }
      if metaExample.None? {
        metaExample := Some(files[k].meta);
      }
      var arr := MarkMissing(files[k].grid);
      var stacks := if year.value in byYear then byYear[year.value] else [];
      byYear := byYear[year.value := stacks + [arr]];
    }
    assert files[..|files|] == files;
  }

  // ---------------------------------------------------------------------
  // Year-over-year growth
  // ---------------------------------------------------------------------

  /**
   * A value of `pct_change() * 100`: a percentage, infinite after a zero
   * area, or undefined (NaN) for the first row and for 0 after 0.
   */
  datatype Growth = Undefined | Percent(value: real) | PosInfinity | NegInfinity

  /** `(cur / prev - 1) * 100` with pandas' division by zero. */
  function GrowthPct(prev: real, cur: real): Growth {
    if prev != 0.0 then Percent((cur / prev - 1.0) * 100.0)
    else if cur > 0.0 then PosInfinity
    else if cur < 0.0 then NegInfinity
    else Undefined
  }

  /** A finite growth rate applied to the previous area gives the current one back. */
  lemma GrowthRoundTrip(prev: real, cur: real)
    requires prev != 0.0
    ensures GrowthPct(prev, cur).Percent?
    ensures prev * (1.0 + GrowthPct(prev, cur).value / 100.0) == cur
  {
    var q := cur / prev;
    assert prev * q == cur;
  }

  /** From a positive area, growth is positive, zero or negative as the area grows, stays or shrinks. */
  lemma GrowthSign(prev: real, cur: real)
    requires prev > 0.0
    ensures GrowthPct(prev, cur).value > 0.0 <==> cur > prev
    ensures GrowthPct(prev, cur).value == 0.0 <==> cur == prev
  {
    GrowthRoundTrip(prev, cur);
    var g := GrowthPct(prev, cur).value;
    if g > 0.0 {
      MulPositive(prev, g / 100.0);
    } else if g < 0.0 {
      MulPositive(prev, -g / 100.0);
    }
  }

  /** The growth is undefined exactly after and at a zero area. */
  lemma GrowthUndefined(prev: real, cur: real)
    ensures GrowthPct(prev, cur) == Undefined <==> prev == 0.0 && cur == 0.0
  {
  }

  /** One row of the time-series table. */
  datatype MetricsRow = MetricsRow(year: int, litAreaKm2: real, annualGrowthPct: Growth)

  /**
   * The time-series table: one row per year in ascending order, the first
   * with no growth value and every later one with the growth from the row
   * before it.
   */
  method TimeSeries(areaByYear: map<int, real>) returns (rows: seq<MetricsRow>)
    ensures |rows| == |areaByYear|
    ensures forall a, b | 0 <= a < b < |rows| :: rows[a].year < rows[b].year
    ensures forall y :: y in areaByYear <==> exists k :: 0 <= k < |rows| && rows[k].year == y
    ensures forall k | 0 <= k < |rows| :: rows[k].year in areaByYear && rows[k].litAreaKm2 == areaByYear[rows[k].year]
    ensures |rows| > 0 ==> rows[0].annualGrowthPct == Undefined
    ensures forall k | 0 < k < |rows| :: rows[k].annualGrowthPct == GrowthPct(rows[k - 1].litAreaKm2, rows[k].litAreaKm2)
  {
    var years := SpatialAnalysis.SortKeys(areaByYear.Keys);
    rows := GrowthTable(years, areaByYear);
    forall y | y in areaByYear ensures exists k :: 0 <= k < |rows| && rows[k].year == y {
      assert y in years;
      var k :| 0 <= k < |years| && years[k] == y;
      assert rows[k].year == y;
    }
  }

  /** The per-year loop: one row per year of `years`, with the growth from the row before. */
  method GrowthTable(years: seq<int>, areaByYear: map<int, real>) returns (rows: seq<MetricsRow>)
    requires forall k | 0 <= k < |years| :: years[k] in areaByYear
    ensures |rows| == |years|
    ensures forall k | 0 <= k < |rows| :: rows[k].year == years[k] && rows[k].litAreaKm2 == areaByYear[years[k]]
    ensures |rows| > 0 ==> rows[0].annualGrowthPct == Undefined
    ensures forall k | 0 < k < |rows| :: rows[k].annualGrowthPct == GrowthPct(rows[k - 1].litAreaKm2, rows[k].litAreaKm2)
  {
    rows := [];
    for k := 0 to |years|
      invariant |rows| == k
      invariant forall t | 0 <= t < k :: rows[t].year == years[t] && rows[t].litAreaKm2 == areaByYear[years[t]]
      invariant k > 0 ==> rows[0].annualGrowthPct == Undefined
      invariant forall t | 0 < t < k :: rows[t].annualGrowthPct == GrowthPct(rows[t - 1].litAreaKm2, rows[t].litAreaKm2)
    {
      var area := areaByYear[years[k]];
      var growth := if k == 0 then Undefined else GrowthPct(areaByYear[years[k - 1]], area);
      rows := rows + [MetricsRow(years[k], area, growth)];
    }
  }
}
