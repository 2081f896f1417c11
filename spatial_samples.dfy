/**
 * The per-file bookkeeping of the spatial run over saved masks: the year
 * from the `_`-separated tokens of each file stem, one centroid per year
 * (the last file of a year wins), the ring and sector tables of every mask
 * that has a centroid, and the centroid shift over the collected years.
 *
 * A file's year may be missing; the centroid map is then keyed by `None`.
 * `sorted` over a mix of `None` and integers raises, which the shift table
 * models as `None`.
 */
module SpatialSamples {
  import opened Grids
  import opened Geometry
  import opened Years
  import opened NtlProcessing
  import opened SpatialAnalysis

  /** A saved mask: the file stem and its band-1 values (non-zero is lit). */
  datatype MaskFile = MaskFile(stem: string, mask: Mask)

  /** The year of a file: its first `_`-token of exactly four digits. */
  function StemYear(f: MaskFile): Option<int> {
    TokenYearOf(Split(f.stem, '_'))
  }

  /** The centroid of a file's mask. */
  function CentroidOf(f: MaskFile): Option<Centroid> {
    FindCentroid(f.mask)
  }

  /** The ring table of a file: default widths and pixel size, None without a centroid. */
  function RingTableOf(f: MaskFile): (t: Option<seq<RingRecord>>)
    ensures t.Some? <==> CentroidOf(f).Some?
  {
    match CentroidOf(f)
    case None => None
    case Some(c) => Some(RingTable(f.mask, c, DefaultRingWidthsM, ViirsPixelSizeM, StemYear(f)))
  }

  /** The 8-sector table of a file, None without a centroid. */
  function SectorTableOf(f: MaskFile, atan2Deg: (real, real) -> real): (t: Option<seq<SectorRecord>>)
    ensures t.Some? <==> CentroidOf(f).Some?
  {
    match CentroidOf(f)
    case None => None
    case Some(c) => Some(SectorTable(f.mask, c, DefaultSectors, ViirsPixelSizeM, StemYear(f), atan2Deg))
  }

  /** A dictionary filled file by file: `d[key(f)] = value(f)`. */
  function Assoc<K, V>(files: seq<MaskFile>, key: MaskFile -> K, value: MaskFile -> V): map<K, V> {
    if |files| == 0 then map[]
    else
      var f := files[|files| - 1];
      Assoc(files[..|files| - 1], key, value)[key(f) := value(f)]
  }

  /** The dictionary keys exactly the files' keys, each holding the value of the last file with it. */
  lemma {:induction false} AssocLastWins<K, V>(files: seq<MaskFile>, key: MaskFile -> K, value: MaskFile -> V, y: K)
    ensures y in Assoc(files, key, value) <==> exists k :: 0 <= k < |files| && key(files[k]) == y
    ensures y in Assoc(files, key, value) ==>
      exists k :: (0 <= k < |files| && key(files[k]) == y && Assoc(files, key, value)[y] == value(files[k])
        && forall l | k < l < |files| :: key(files[l]) != y)
  {
    if |files| > 0 {
      var init, n := files[..|files| - 1], |files| - 1;
      AssocLastWins(init, key, value, y);
      assert forall k | 0 <= k < n :: init[k] == files[k];
      if key(files[n]) != y && y in Assoc(files, key, value) {
        var k :| 0 <= k < n && key(init[k]) == y && Assoc(init, key, value)[y] == value(init[k])
          && forall l | k < l < n :: key(init[l]) != y;
        assert key(files[k]) == y && Assoc(files, key, value)[y] == value(files[k]);
      }
    }
  }

  /** `centroids` after the given files: each file's centroid stored under its year. */
  function CentroidsOf(files: seq<MaskFile>): map<Option<int>, Option<Centroid>> {
    Assoc(files, StemYear, CentroidOf)
  }

  /**
   * The centroid map keys exactly the years of the files, and under each
   * year is the centroid of the last file of that year.
   */
  lemma CentroidsLastWins(files: seq<MaskFile>, y: Option<int>)
    ensures y in CentroidsOf(files) <==> exists k :: 0 <= k < |files| && StemYear(files[k]) == y
    ensures y in CentroidsOf(files) ==>
      exists k :: (0 <= k < |files| && StemYear(files[k]) == y && CentroidsOf(files)[y] == FindCentroid(files[k].mask)
        && forall l | k < l < |files| :: StemYear(files[l]) != y)
  {
    AssocLastWins(files, StemYear, CentroidOf, y);
  }

  /** A list filled file by file: `if t is not None: results.append(t)`. */
  function Collect<T>(files: seq<MaskFile>, table: MaskFile -> Option<T>): seq<T> {
    if |files| == 0 then []
    else
      var t := table(files[|files| - 1]);
      Collect(files[..|files| - 1], table) + (if t.Some? then [t.value] else [])
  }

  /** The number of files with a centroid. */
  function WithCentroid(files: seq<MaskFile>): nat {
    if |files| == 0 then 0
    else WithCentroid(files[..|files| - 1]) + (if CentroidOf(files[|files| - 1]).Some? then 1 else 0)
  }

  /**
   * A table present exactly for files with a centroid is collected once per
   * such file, in file order: every element comes from one of them.
   */
  lemma {:induction false} CollectPerCentroid<T>(files: seq<MaskFile>, table: MaskFile -> Option<T>)
    requires forall f :: table(f).Some? <==> CentroidOf(f).Some?
    ensures |Collect(files, table)| == WithCentroid(files)
    ensures forall t | 0 <= t < |Collect(files, table)| ::
      exists k :: 0 <= k < |files| && table(files[k]) == Some(Collect(files, table)[t])
  {
    if |files| > 0 {
      var init := files[..|files| - 1];
      CollectPerCentroid(init, table);
      assert forall k | 0 <= k < |init| :: init[k] == files[k];
    }
  }

  /** No file has a centroid exactly when none of its masks has a lit cell. */
  lemma {:induction false} WithCentroidZero(files: seq<MaskFile>)
    ensures WithCentroid(files) == 0 <==> forall k | 0 <= k < |files| :: CentroidOf(files[k]).None?
  {
    if |files| > 0 {
      var init := files[..|files| - 1];
      WithCentroidZero(init);
      assert forall k | 0 <= k < |init| :: init[k] == files[k];
    }
  }

  /** The ring tables collected from the given files. */
  function RingsOf(files: seq<MaskFile>): seq<seq<RingRecord>> {
    Collect(files, RingTableOf)
  }

  /** The sector tables collected from the given files. */
  function SectorsOf(files: seq<MaskFile>, atan2Deg: (real, real) -> real): seq<seq<SectorRecord>> {
    Collect(files, f => SectorTableOf(f, atan2Deg))
  }

  /**
   * A ring table and a sector table are collected for each file with a
   * centroid and for no other: as many of each as such files, and none when
   * no mask has a lit cell.
   */
  lemma TablesPerCentroid(files: seq<MaskFile>, atan2Deg: (real, real) -> real)
    ensures |RingsOf(files)| == |SectorsOf(files, atan2Deg)| == WithCentroid(files)
    ensures RingsOf(files) == [] <==> forall k | 0 <= k < |files| :: CentroidOf(files[k]).None?
  {
    CollectPerCentroid(files, RingTableOf);
    CollectPerCentroid(files, f => SectorTableOf(f, atan2Deg));
    WithCentroidZero(files);
  }

  /** Every collected ring table is the three-row table of a file with a centroid. */
  lemma RingTablesFromCentroids(files: seq<MaskFile>, t: nat)
    requires t < |RingsOf(files)|
    ensures |RingsOf(files)[t]| == 3
    ensures exists k :: (0 <= k < |files| && CentroidOf(files[k]).Some?
      && RingsOf(files)[t] == RingTable(files[k].mask, CentroidOf(files[k]).value, DefaultRingWidthsM, ViirsPixelSizeM, StemYear(files[k])))
  {
    CollectPerCentroid(files, RingTableOf);
    var k :| 0 <= k < |files| && RingTableOf(files[k]) == Some(RingsOf(files)[t]);
  }

  /** The centroids stored under integer years, keyed by the integer. */
  function IntKeyed(centroids: map<Option<int>, Option<Centroid>>): (r: map<int, Option<Centroid>>)
    ensures forall y: int :: y in r <==> Some(y) in centroids
    ensures forall y: int | y in r :: r[y] == centroids[Some(y)]
  {
    map y | y in centroids.Keys && y.Some? :: y.value := centroids[y]
  }

  /**
   * `compute_centroid_shift(centroids)` on the sample map: `sorted` fails
   * (`None`) when a `None` key sits beside integer years, a lone `None` key
   * gives an empty table, and integer keys give the shift table.
   */
  method SampleCentroidShift(centroids: map<Option<int>, Option<Centroid>>, atan2Deg: (real, real) -> real)
    returns (shifts: Option<seq<ShiftRecord>>)
    ensures shifts.None? <==> None in centroids && |centroids| > 1
    ensures None in centroids && |centroids| == 1 ==> shifts == Some([])
    ensures None !in centroids ==> (shifts.Some? && AllKeys(SortedKeys(IntKeyed(centroids).Keys), IntKeyed(centroids))
      && shifts.value == Shifts(SortedKeys(IntKeyed(centroids).Keys), |IntKeyed(centroids).Keys|, IntKeyed(centroids), atan2Deg))
  {
    if None in centroids {
      if |centroids| > 1 {
        return None;
      }
      return Some([]);
    }
    var records := ComputeCentroidShift(IntKeyed(centroids), atan2Deg);
    return Some(records);
  }

  datatype SamplesResult = SamplesResult(
    rings: seq<seq<RingRecord>>,
    sectors: seq<seq<SectorRecord>>,
    centroids: map<Option<int>, Option<Centroid>>,
    shifts: Option<seq<ShiftRecord>>)

  /**
   * `run_spatial_on_masks` over the mask files in sorted order: per file the
   * token year, the centroid stored under it, and the ring table (default
   * widths, 463 m pixels) and 8-sector table when the centroid exists;
   * finally the shift table over the centroid map.
   */
  method RunSpatialOnMasks(files: seq<MaskFile>, atan2Deg: (real, real) -> real) returns (result: SamplesResult)
    ensures result.rings == RingsOf(files) && result.sectors == SectorsOf(files, atan2Deg)
    ensures result.centroids == CentroidsOf(files)
    ensures result.shifts.None? <==> None in CentroidsOf(files) && |CentroidsOf(files)| > 1
    ensures None !in CentroidsOf(files) ==> (result.shifts.Some?
      && AllKeys(SortedKeys(IntKeyed(CentroidsOf(files)).Keys), IntKeyed(CentroidsOf(files)))
      && result.shifts.value == Shifts(SortedKeys(IntKeyed(CentroidsOf(files)).Keys), |IntKeyed(CentroidsOf(files)).Keys|,
                                       IntKeyed(CentroidsOf(files)), atan2Deg))
  {
    var rings, sectors, centroids := AnalyzeMasks(files, atan2Deg);
    var shifts := SampleCentroidShift(centroids, atan2Deg);
    result := SamplesResult(rings, sectors, centroids, shifts);
  }

  /** The loop over the mask files of `run_spatial_on_masks`. */
  method AnalyzeMasks(files: seq<MaskFile>, atan2Deg: (real, real) -> real)
    returns (rings: seq<seq<RingRecord>>, sectors: seq<seq<SectorRecord>>, centroids: map<Option<int>, Option<Centroid>>)
    ensures rings == RingsOf(files) && sectors == SectorsOf(files, atan2Deg) && centroids == CentroidsOf(files)
  {
    rings, sectors, centroids := [], [], map[];
    for k := 0 to |files|
      invariant rings == RingsOf(files[..k]) && sectors == SectorsOf(files[..k], atan2Deg)
      invariant centroids == CentroidsOf(files[..k])
    {
      var year, centroid, ringTable, sectorTable := AnalyzeMask(files[k], atan2Deg);
      var prefix := files[..k + 1];
      assert prefix[..k] == files[..k] && prefix[k] == files[k];
      assert CentroidsOf(prefix) == centroids[year := centroid];
      assert RingsOf(prefix) == rings + (if ringTable.Some? then [ringTable.value] else []);
      assert SectorsOf(prefix, atan2Deg) == sectors + (if sectorTable.Some? then [sectorTable.value] else []);
      centroids := centroids[year := centroid];
      if ringTable.Some? {
        rings := rings + [ringTable.value];
      }
      if sectorTable.Some? {
        sectors := sectors + [sectorTable.value];
      }
    }
    assert files[..|files|] == files;
  }

  /** The body of that loop for one file: its year, its centroid and its two tables. */
  method AnalyzeMask(f: MaskFile, atan2Deg: (real, real) -> real)
    returns (year: Option<int>, centroid: Option<Centroid>, ringTable: Option<seq<RingRecord>>,
             sectorTable: Option<seq<SectorRecord>>)
    ensures year == StemYear(f) && centroid == CentroidOf(f)
    ensures ringTable == RingTableOf(f) && sectorTable == SectorTableOf(f, atan2Deg)
  {
    year := TokenYear(f.stem);
    centroid := FindCentroid(f.mask);
    ringTable := AnalyzeRingExpansion(f.mask, centroid, DefaultRingWidthsM, ViirsPixelSizeM, year);
    sectorTable := AnalyzeDirectionalExpansion(f.mask, centroid, DefaultSectors, ViirsPixelSizeM, year, atan2Deg);
  }
}
