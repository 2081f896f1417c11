# Night-light urban growth analytics, modelled in Dafny

This project models the analytics core of `hanoi_ntl_analysis`. That code measures the growth of Hanoi from VIIRS night-time-light rasters and checks the result against a Landsat built-up index (NDBI). The model covers the following stages:

- **Classification and morphometrics** (`NtlProcessing`):
  - a radiance grid is thresholded with `>=` and cleaned by a 3x3 binary opening, in which out-of-grid neighbours count as unlit;
  - the lit area is the lit pixel count times `(pixel_size_m / 1000)^2`;
  - the centroid is the unweighted mean row and mean column of the lit pixels;
  - compactness is taken from the largest connected region;
  - the Core-and-rings counts are kept in a dictionary;
  - the per-threshold sensitivity table lists one row per threshold.
- **Distance bands** (`Geometry`): squared distances to a centroid, cumulative ring bounds, and the proof that the half-open bands tile the disc.
- **Spatial decomposition and temporal tracking** (`SpatialAnalysis`):
  - the 16-point compass lookup;
  - the year-to-year centroid shift over sorted years, which skips missing centroids;
  - the Core-and-rings table;
  - the equal angular sector table with its compass labels.
- **Cross-resolution validation** (`Validation`, `ValidationVisualization`):
  - block averaging of the fine grid (missing values skipped);
  - the top-left crop to a common extent;
  - the 2x2 confusion counts;
  - overall, producer's and user's accuracy and Cohen's kappa;
  - the joint-class map and its summary counts.
- **Filename years** (`Years`): the three rules the scripts use.
  - `(19|20)\d{2}`, leftmost match;
  - the first four-digit run, with or without a default of 2023;
  - the first `_`-separated token that is exactly four digits.
- **Annual compositing and growth** (`FullAnalysis`):
  - zeros are treated as missing;
  - each pixel gets the median of its non-missing values across the year's rasters, and 0 when none is left;
  - every composite carries the metadata of the first dated file;
  - a time series of lit areas with pandas' `pct_change() * 100`.
- **The sample-mask driver** (`SpatialSamples`):
  - the year of each mask comes from its filename;
  - where two masks share a year, the last centroid wins;
  - ring and sector tables are collected only where a centroid exists;
  - the centroid shift over the collected centroids.

Shared grid machinery (rectangular grids, masks, lit-cell counts, index sums) lives in `Grids`.

Conventions of the model:

- Grids are `seq<seq<real>>` with exact reals, and masks are `seq<seq<bool>>`.
- The Landsat grid is a grid of `Cell = NaN | Num(v)`.
- The coarse (VIIRS) mask used in validation is a grid of `int`, because a stored value other than 0 or 1 changes the counts there.
- `sqrt` is not modelled:
  - distances are compared through squares (`d < b` as `d^2 < b^2`, for `b > 0`), which is exact for a positive pixel size;
  - a centroid displacement is kept as its square.
- `atan2` is not modelled either. `atan2Deg(a, b)` stands for `np.arctan2(a, b) * 180 / np.pi` and is a parameter.
- The angle conventions are those of the code, which are not compass-correct:
  - a pixel straight below the centroid (larger row) has angle 180 and falls in the sector labelled S;
  - a pixel to its right has angle 270 and falls in the sector labelled W;
  - a centroid moving to a larger row gets bearing 0, labelled N.

  `SpatialAnalysis.SectorAxes` and `SpatialAnalysis.ShiftAxes` state these four directions.
- skimage's connected regions (their areas and perimeters) and the value of pi are parameters of the compactness model.
- The dictionaries the code fills in file order become maps, and the lists it appends to become sequences in order.

Behaviour of the code that the model keeps:

- **Kappa on an empty matrix.** When all four counts are 0, `compute_accuracy_metrics` divides numpy integers by zero. That gives NaN, the guard `(1 - pe) > 0` is false, and kappa is 0. `Validation.MetricsBounds` states this case instead of requiring a non-empty matrix.
- **The worked example.** TP=847, FP=156, FN=189, TN=1808 gives exactly OA = 0.885 and kappa = 3003784/4038784 (about 0.744) under the code's formulas, and `Validation.MetricsExample` proves these values.
- **Coarse values outside {0, 1}.** `compute_confusion_matrix` counts them in none of TP, FP, FN and TN. `create_joint_classification` leaves them at code 0, so the visualisation's summary counts them as TN. Both behaviours are modelled, and `ValidationVisualization.SummaryVersusConfusion` states the difference.
- **`get_direction_name` and negative bearings.** `int()` truncates toward zero, which `SpatialAnalysis.TruncToInt` models. Every bearing the code passes in lies in [0, 360).

## Model

| member | source | states |
|---|---|---|
| Grids.CountZeroIff | hanoi_ntl_analysis/scripts/ntl_processing.py:65 | a mask's lit count is 0 exactly when no cell is lit |
| Grids.CountMono | hanoi_ntl_analysis/scripts/ntl_processing.py:65 | a sub-mask of a same-shaped mask has no more lit cells |
| Grids.CountSplit | hanoi_ntl_analysis/scripts/ntl_processing.py:65 | the count of a mask split into two disjoint masks is the sum of their counts |
| NtlProcessing.ThresholdMask | hanoi_ntl_analysis/scripts/ntl_processing.py:41 | same shape as the grid; a cell is set exactly when its value is at least the threshold (inclusive) |
| NtlProcessing.Erode | hanoi_ntl_analysis/scripts/ntl_processing.py:45 | a cell survives erosion exactly when its whole 3x3 square lies inside the grid and is lit |
| NtlProcessing.Dilate | hanoi_ntl_analysis/scripts/ntl_processing.py:45 | a cell is set after dilation exactly when some in-grid cell of its 3x3 neighbourhood is set |
| NtlProcessing.OpeningChar | hanoi_ntl_analysis/scripts/ntl_processing.py:45 | the 3x3 opening keeps the shape and keeps exactly the cells lying in some fully lit 3x3 square inside the grid |
| NtlProcessing.OpeningShrinks | hanoi_ntl_analysis/scripts/ntl_processing.py:45 | the opening only removes cells: every cell it keeps was lit |
| NtlProcessing.CreateUrbanMask | hanoi_ntl_analysis/scripts/ntl_processing.py:41-47 | the urban mask has the grid's shape; a cell is urban exactly when it lies in a fully lit 3x3 square of the threshold mask, and an urban cell's value is at least the threshold |
| NtlProcessing.OpeningIdempotent | hanoi_ntl_analysis/scripts/ntl_processing.py:45 | opening an opened mask changes nothing |
| NtlProcessing.OpeningMono | hanoi_ntl_analysis/scripts/ntl_processing.py:45 | the opening is monotone: a sub-mask opens to a sub-mask |
| NtlProcessing.UrbanMaskMonotone | hanoi_ntl_analysis/scripts/ntl_processing.py:41-47 | raising the threshold never adds an urban cell nor raises the urban count |
| NtlProcessing.UrbanCountMonotone | hanoi_ntl_analysis/scripts/ntl_processing.py:41-47 | a higher threshold gives at most as many urban pixels |
| NtlProcessing.SmallGridHasNoUrban | hanoi_ntl_analysis/scripts/ntl_processing.py:45 | a grid with fewer than 3 rows or 3 columns has no urban cell, so its count is 0 |
| NtlProcessing.PixelAreaKm2 | hanoi_ntl_analysis/scripts/ntl_processing.py:66 | the pixel area in km^2 is non-negative, and positive for a non-zero pixel size |
| NtlProcessing.AreaKm2Add | hanoi_ntl_analysis/scripts/ntl_processing.py:65-67 | the area of a + b pixels is the area of a pixels plus the area of b pixels |
| NtlProcessing.LitAreaZeroIff | hanoi_ntl_analysis/scripts/ntl_processing.py:65-68 | for a non-zero pixel size the lit area is non-negative, and it is 0 exactly when no cell is lit |
| NtlProcessing.LitAreaAdditive | hanoi_ntl_analysis/scripts/ntl_processing.py:65-68 | the lit area of a mask split into two disjoint masks is the sum of their lit areas |
| NtlProcessing.LitAreaMono | hanoi_ntl_analysis/scripts/ntl_processing.py:65-68 | a sub-mask has no more lit area |
| NtlProcessing.FindCentroid | hanoi_ntl_analysis/scripts/ntl_processing.py:117-121 | None exactly when no cell is lit; otherwise the row and column are the mean row index and mean column index of the lit cells (unweighted) |
| NtlProcessing.RowMeanWithin | hanoi_ntl_analysis/scripts/ntl_processing.py:120 | when every lit cell lies in rows lo..hi, so does the centroid's row |
| NtlProcessing.ColMeanWithin | hanoi_ntl_analysis/scripts/ntl_processing.py:120 | when every lit cell lies in columns lo..hi, so does the centroid's column |
| NtlProcessing.CentroidInBoundingBox | hanoi_ntl_analysis/scripts/ntl_processing.py:117-121 | the centroid lies inside the bounding box of the lit cells: some lit cell is at or above it, at or below it, at or left of it and at or right of it |
| NtlProcessing.SingleBlockMask | hanoi_ntl_analysis/scripts/ntl_processing.py:41-47 | when exactly one 3x3 block of the grid reaches the threshold, the urban mask is exactly that block |
| NtlProcessing.BlockCentroid | hanoi_ntl_analysis/scripts/ntl_processing.py:117-121 | a mask that is exactly one 3x3 block has 9 lit cells, and its centroid is the block's middle cell |
| NtlProcessing.SingleBlock | hanoi_ntl_analysis/scripts/ntl_processing.py:41-68 | for such a grid the urban mask has 9 cells, the lit area is 9 pixel areas, and the centroid is the block's centre |
| NtlProcessing.BlockGridExample | hanoi_ntl_analysis/scripts/ntl_processing.py:41-68 | a 10x10 grid of zeros with a 3x3 block of 10s at threshold 3.0: the mask is that block, the area is 1.929321 km^2 at 463 m, and the centroid is (5, 5) |
| NtlProcessing.LargestRegion | hanoi_ntl_analysis/scripts/ntl_processing.py:91-92 | the region chosen has the greatest area, and on a tie it is the first region in label order (the sort is stable) |
| NtlProcessing.Compactness | hanoi_ntl_analysis/scripts/ntl_processing.py:86-101 | always in [0, 1]; 0.0 with no region; 1.0 when the largest region's perimeter is 0; otherwise min(4 pi A / P^2, 1) |
| NtlProcessing.BandKeys | hanoi_ntl_analysis/scripts/ntl_processing.py:207 | every ring's key is among the ring keys, and 'Core' is not |
| NtlProcessing.RingMapEntries | hanoi_ntl_analysis/scripts/ntl_processing.py:201-208 | after k rings the dictionary has exactly the first k ring keys, and ring k holds the lit count of the band [b_k, b_(k+1)) of cumulative widths |
| NtlProcessing.RingAreasKeys | hanoi_ntl_analysis/scripts/ntl_processing.py:200-213 | the ring dictionary's keys are 'Core' and one key per ring width |
| NtlProcessing.RingAreasBands | hanoi_ntl_analysis/scripts/ntl_processing.py:201-208 | each ring entry is the lit count of its cumulative distance band |
| NtlProcessing.RingAreasCore | hanoi_ntl_analysis/scripts/ntl_processing.py:210-213 | the 'Core' entry is the lit count within the first ring width, which equals the first band's count |
| NtlProcessing.RingCounts | hanoi_ntl_analysis/scripts/ntl_processing.py:190-215 | with no centroid the result is the empty dictionary; otherwise it is the ring dictionary of the running-bound loop plus 'Core' |
| NtlProcessing.SensitivityRowFor | hanoi_ntl_analysis/scripts/ntl_processing.py:238-247 | the row for a threshold carries that threshold, the urban mask's lit area, compactness and pixel count |
| NtlProcessing.RowsMonotone | hanoi_ntl_analysis/scripts/ntl_processing.py:237-249 | the row of a higher threshold has no more pixels and no more lit area |
| NtlProcessing.AppendRow | hanoi_ntl_analysis/scripts/ntl_processing.py:242-247 | appending the next threshold's row keeps the rows in step with the thresholds |
| NtlProcessing.AppendKeepsNonIncreasing | hanoi_ntl_analysis/scripts/ntl_processing.py:237-247 | over ascending thresholds, appending the next row keeps pixel counts and areas non-increasing |
| NtlProcessing.SensitivityAnalysis | hanoi_ntl_analysis/scripts/ntl_processing.py:235-249 | one row per threshold, in input order, each row being that threshold's row; over ascending thresholds pixel count and lit area never increase |
| Geometry.Dist2 | hanoi_ntl_analysis/scripts/ntl_processing.py:198 | the squared distance from a cell to the centroid, in metres, is non-negative |
| Geometry.BoundMono | hanoi_ntl_analysis/scripts/ntl_processing.py:201-208 | for non-negative widths the cumulative bounds are non-negative and non-decreasing |
| Geometry.BandSplit | hanoi_ntl_analysis/scripts/ntl_processing.py:205 | for a <= b, "distance below b" is "below a" or "in [a, b)", never both |
| Geometry.CoreIsFirstBand | hanoi_ntl_analysis/scripts/ntl_processing.py:211-213 | the count within the first width equals the count of the band [0, w0) |
| Geometry.BandStep | hanoi_ntl_analysis/scripts/ntl_processing.py:205 | the lit count of the disc below b is that of the disc below a plus that of the band [a, b) |
| Geometry.TileDisc | hanoi_ntl_analysis/scripts/ntl_processing.py:201-208 | for any counter additive over adjacent bands, the band counts of the first n cumulative rings sum to the count of the disc below the n-th bound |
| Geometry.BandsTileDisc | hanoi_ntl_analysis/scripts/ntl_processing.py:201-208 | the ring bands tile the disc below the outer bound, so their counts sum to at most the lit count |
| SpatialAnalysis.TruncToInt | hanoi_ntl_analysis/scripts/spatial_analysis.py:73 | Python int(): truncation toward zero, for both signs |
| SpatialAnalysis.Mod360 | hanoi_ntl_analysis/scripts/spatial_analysis.py:57 | the Python % 360 result is in [0, 360), leaves [0, 360) unchanged and differs from its argument by a whole multiple of 360 |
| SpatialAnalysis.Percent | hanoi_ntl_analysis/scripts/spatial_analysis.py:108 | the percent of a part within a positive total is in [0, 100]; it is 0 when the total is not positive |
| SpatialAnalysis.PercentAtMost100 | hanoi_ntl_analysis/scripts/spatial_analysis.py:123 | a part no larger than the total is at most 100 percent |
| SpatialAnalysis.PercentAdd | hanoi_ntl_analysis/scripts/spatial_analysis.py:183 | the percents of two parts add up to the percent of their sum |
| SpatialAnalysis.YearColumn | hanoi_ntl_analysis/scripts/spatial_analysis.py:128-129 | the year column is set exactly when the year is given and non-zero (Python truthiness), and then it holds the year |
| SpatialAnalysis.DirectionIndex | hanoi_ntl_analysis/scripts/spatial_analysis.py:73 | the compass index is always in 0..15 |
| SpatialAnalysis.DirectionBand | hanoi_ntl_analysis/scripts/spatial_analysis.py:69-74 | a bearing in [22.5k - 11.25, 22.5k + 11.25) gets index k mod 16 and the k-th compass name |
| SpatialAnalysis.CompassPoints | hanoi_ntl_analysis/scripts/spatial_analysis.py:69-74 | 0 gives N, 90 gives E, 180 gives S, 270 gives W and 350 gives N |
| SpatialAnalysis.DisplacementSq | hanoi_ntl_analysis/scripts/spatial_analysis.py:48-53 | the squared displacement at the fixed 463 m pixel is non-negative and 0 exactly when the two centroids coincide |
| SpatialAnalysis.DisplacementSymmetric | hanoi_ntl_analysis/scripts/spatial_analysis.py:48-53 | the displacement does not depend on the order of the two centroids |
| SpatialAnalysis.Shift | hanoi_ntl_analysis/scripts/spatial_analysis.py:48-65 | a shift record carries both years and a displacement that is 0 exactly for equal centroids; its bearing is in [0, 360), and its direction is that bearing's compass name |
| SpatialAnalysis.ShiftAxes | hanoi_ntl_analysis/scripts/spatial_analysis.py:48-64 | with the axis values of atan2, a move to a larger row has bearing 0 (N), to a smaller row 180 (S), to a larger column 90 (E), and to a smaller column 270 (W) |
| SpatialAnalysis.SortedKeys | hanoi_ntl_analysis/scripts/spatial_analysis.py:34 | sorted(keys) is strictly increasing and holds exactly the keys |
| SpatialAnalysis.SortedUnique | hanoi_ntl_analysis/scripts/spatial_analysis.py:34 | two strictly increasing sequences with the same elements are equal, so the sorted order is unique |
| SpatialAnalysis.FindLeast | hanoi_ntl_analysis/scripts/spatial_analysis.py:34 | returns a key no greater than any other key |
| SpatialAnalysis.SortKeys | hanoi_ntl_analysis/scripts/spatial_analysis.py:34 | the selection loop produces the sorted keys |
| SpatialAnalysis.AscendingKeys | hanoi_ntl_analysis/scripts/spatial_analysis.py:34 | the result is strictly increasing and holds exactly the keys |
| SpatialAnalysis.ComputeCentroidShift | hanoi_ntl_analysis/scripts/spatial_analysis.py:20-67 | the records are those of the consecutive-pair loop over the sorted years |
| SpatialAnalysis.ShiftsOver | hanoi_ntl_analysis/scripts/spatial_analysis.py:37-65 | the loop emits, in order, one record per consecutive pair of years with both centroids present |
| SpatialAnalysis.ShiftsAdjacent | hanoi_ntl_analysis/scripts/spatial_analysis.py:37-45 | over ascending years there are at most n - 1 records, each for an adjacent pair with both centroids present, and every record has year_from < year_to (no pair bridges a gap) |
| SpatialAnalysis.ShiftsComplete | hanoi_ntl_analysis/scripts/spatial_analysis.py:37-45 | every adjacent pair whose two centroids exist has its record |
| SpatialAnalysis.RingTable | hanoi_ntl_analysis/scripts/spatial_analysis.py:97-125 | the ring table has one row per ring width |
| SpatialAnalysis.AnalyzeRingExpansion | hanoi_ntl_analysis/scripts/spatial_analysis.py:86-131 | with no centroid the result is None; otherwise it is the ring table of that centroid |
| SpatialAnalysis.RingRowsLoop | hanoi_ntl_analysis/scripts/spatial_analysis.py:112-125 | the running-bound loop produces the Core row followed by the ring rows b_k..b_(k+1) |
| SpatialAnalysis.RingRowsShape | hanoi_ntl_analysis/scripts/spatial_analysis.py:100-129 | row 0 is Core below w0 with the core area; row k is the band [b_k, b_(k+1)) with its area, and it starts where row k - 1 ends; each percent is of the total and lies in [0, 100] when the area is within the total; every row carries the year column |
| SpatialAnalysis.RingTableRow | hanoi_ntl_analysis/scripts/spatial_analysis.py:112-125 | each row's area is the lit area of its cumulative band; it lies between 0 and the total lit area, and its percent lies in [0, 100] |
| SpatialAnalysis.RingRowsSums | hanoi_ntl_analysis/scripts/spatial_analysis.py:104-125 | the table's areas sum to the core area plus the band areas, and its percents sum to the percent of that sum |
| SpatialAnalysis.RingTableArea | hanoi_ntl_analysis/scripts/spatial_analysis.py:100-125 | the ring areas sum exactly to the lit area within the outermost bound |
| SpatialAnalysis.RingTableSums | hanoi_ntl_analysis/scripts/spatial_analysis.py:97-125 | the ring areas sum to at most the total lit area, and the ring percents sum to at most 100 |
| SpatialAnalysis.AngleStep | hanoi_ntl_analysis/scripts/spatial_analysis.py:159 | the sector width is positive, and n sectors span exactly 360 degrees |
| SpatialAnalysis.SectorStartFacts | hanoi_ntl_analysis/scripts/spatial_analysis.py:161-163 | sector k + 1 starts one width after sector k; sector 0 starts at 0 and sector n at 360 |
| SpatialAnalysis.AngleAt | hanoi_ntl_analysis/scripts/spatial_analysis.py:151-152 | the shifted angle of every pixel lies in [0, 360) |
| SpatialAnalysis.SectorTable | hanoi_ntl_analysis/scripts/spatial_analysis.py:161-184 | the sector table has num_sectors rows |
| SpatialAnalysis.AnalyzeDirectionalExpansion | hanoi_ntl_analysis/scripts/spatial_analysis.py:143-190 | with no centroid the result is None; otherwise it is the sector table of that centroid |
| SpatialAnalysis.SectorLoop | hanoi_ntl_analysis/scripts/spatial_analysis.py:161-184 | the loop over sectors produces the rows for sectors 0..n-1 in order |
| SpatialAnalysis.SectorBounds | hanoi_ntl_analysis/scripts/spatial_analysis.py:159-168 | sector l starts at l * 360 / n and ends one width later, within 360; the last sector ends at exactly 360, so the wrap branch is never taken |
| SpatialAnalysis.SectorRowsShape | hanoi_ntl_analysis/scripts/spatial_analysis.py:161-188 | row l has index l, angle_min = l * 360 / n and angle_max one width later; it starts where row l - 1 ends; it carries its label, the lit area of its wedge, the percent of the total and the year column |
| SpatialAnalysis.OctantLabels | hanoi_ntl_analysis/scripts/spatial_analysis.py:174-175 | with 8 sectors the labels are N, NE, E, SE, S, SW, W, NW in order |
| SpatialAnalysis.SectorSplit | hanoi_ntl_analysis/scripts/spatial_analysis.py:165-168 | an angle below lo + step is either below lo or in the sector [lo, lo + step), never both |
| SpatialAnalysis.SectorTileStep | hanoi_ntl_analysis/scripts/spatial_analysis.py:161-171 | the lit pixels with angle below the end of sector k are those below its start plus those in sector k |
| SpatialAnalysis.TileSum | hanoi_ntl_analysis/scripts/spatial_analysis.py:161-171 | for a counter additive over consecutive sectors, the first k sector counts sum to the count below sector k's start |
| SpatialAnalysis.SectorsTile | hanoi_ntl_analysis/scripts/spatial_analysis.py:161-171 | the first k sectors' lit counts sum to the lit count with angle below sector k's start |
| SpatialAnalysis.SectorsCoverAll | hanoi_ntl_analysis/scripts/spatial_analysis.py:161-171 | every lit pixel falls in exactly one sector: the sector counts sum to the lit count |
| SpatialAnalysis.SectorRowsSums | hanoi_ntl_analysis/scripts/spatial_analysis.py:170-183 | the sector areas sum to the area of the summed counts, and the percents sum to the percent of the summed area |
| SpatialAnalysis.PercentWhole | hanoi_ntl_analysis/scripts/spatial_analysis.py:183 | a positive total is 100 percent of itself |
| SpatialAnalysis.SectorTableArea | hanoi_ntl_analysis/scripts/spatial_analysis.py:155-183 | the sector areas sum exactly to the total lit area |
| SpatialAnalysis.SectorTableSums | hanoi_ntl_analysis/scripts/spatial_analysis.py:155-183 | the sector percents sum to 100 when the lit area is positive, and to 0 otherwise |
| SpatialAnalysis.SectorAxes | hanoi_ntl_analysis/scripts/spatial_analysis.py:151-175 | with the axis values of atan2, a pixel above the centroid is at 0 (sector N), below at 180 (S), to the left at 90 (E), and to the right at 270 (W); with 8 sectors the width is 45 |
| Validation.NumCountZeroIff | hanoi_ntl_analysis/scripts/06_validation_analysis.py:49 | no value is counted exactly when every cell is missing |
| Validation.NumSumBounds | hanoi_ntl_analysis/scripts/06_validation_analysis.py:49 | the sum of the non-missing values lies between count * lo and count * hi |
| Validation.NanMeanNaNIff | hanoi_ntl_analysis/scripts/06_validation_analysis.py:49 | np.nanmean is NaN exactly when every value is missing |
| Validation.NanMeanWithin | hanoi_ntl_analysis/scripts/06_validation_analysis.py:49 | a non-NaN mean lies between any bounds of the non-missing values |
| Validation.NanMeanConstant | hanoi_ntl_analysis/scripts/06_validation_analysis.py:49 | the mean of non-missing values that are all x is x |
| Validation.TileMeanNaNIff | hanoi_ntl_analysis/scripts/06_validation_analysis.py:48-49 | a tile's mean is NaN exactly when every cell of the d x d tile is missing |
| Validation.TileMeanWithin | hanoi_ntl_analysis/scripts/06_validation_analysis.py:48-49 | a tile's mean lies between the bounds of the tile's non-missing values |
| Validation.TileMeanConstant | hanoi_ntl_analysis/scripts/06_validation_analysis.py:48-49 | a tile whose non-missing values all equal x averages to x |
| Validation.Downsample | hanoi_ntl_analysis/scripts/06_validation_analysis.py:41-49 | the block-averaged grid is rectangular with shape (h // d, w // d) |
| Validation.DownsampleShape | hanoi_ntl_analysis/scripts/06_validation_analysis.py:41-43 | the output tiles cover the input except for fewer than d leftover rows and columns, which are dropped |
| Validation.DownsampleWithin | hanoi_ntl_analysis/scripts/06_validation_analysis.py:45-49 | every non-NaN output value lies between the bounds of the input's non-missing values |
| Validation.DownsampleConstant | hanoi_ntl_analysis/scripts/06_validation_analysis.py:45-49 | a constant grid downsamples to the same constant |
| Validation.BlockAverage | hanoi_ntl_analysis/scripts/06_validation_analysis.py:41-49 | the nested loops fill a fresh h // d by w // d array whose contents are the block-averaged grid |
| Validation.MatchSpatialExtent | hanoi_ntl_analysis/scripts/06_validation_analysis.py:24-52 | a factor of at most 1 returns the fine grid unchanged; otherwise the result is the block-averaged grid |
| Validation.CropToCommonExtent | hanoi_ntl_analysis/scripts/06_validation_analysis.py:55-62 | both outputs have shape (min h, min w), and every kept cell equals the input cell at the same index |
| Validation.CropIdentity | hanoi_ntl_analysis/scripts/06_validation_analysis.py:55-62 | cropping two same-shaped arrays returns them unchanged |
| Validation.CropIdempotent | hanoi_ntl_analysis/scripts/06_validation_analysis.py:55-62 | cropping a cropped pair changes nothing |
| Validation.FineMask | hanoi_ntl_analysis/scripts/06_validation_analysis.py:84 | a fine cell is urban exactly when it is present and at least the threshold (inclusive), so NaN counts as non-urban |
| Validation.FineMaskAntitone | hanoi_ntl_analysis/scripts/06_validation_analysis.py:84 | a higher NDBI threshold gives no more urban fine cells |
| Validation.Where | hanoi_ntl_analysis/scripts/06_validation_analysis.py:87-90 | selects exactly the cells with the given coarse value and fine class |
| Validation.CoarsePartition | hanoi_ntl_analysis/scripts/06_validation_analysis.py:87-90 | cells with coarse 1, coarse 0 and any other value partition the grid |
| Validation.ConfusionTotal | hanoi_ntl_analysis/scripts/06_validation_analysis.py:87-90 | TP + FP + FN + TN plus the cells with a coarse value outside {0, 1} is the cell count, so the four counts sum to the cell count exactly when the coarse mask is binary |
| Validation.ConfusionCells | hanoi_ntl_analysis/scripts/06_validation_analysis.py:87-90 | the four counts plus the non-binary cells make up the whole grid |
| Validation.AgreementDiagonal | hanoi_ntl_analysis/scripts/06_validation_analysis.py:87-90 | when the coarse mask equals the fine classification, FP and FN are 0 |
| Validation.RatioUnit | hanoi_ntl_analysis/scripts/06_validation_analysis.py:100-106 | a zero-guarded ratio of a part to its whole is in [0, 1], and 0 for a zero whole |
| Validation.MetricsBounds | hanoi_ntl_analysis/scripts/06_validation_analysis.py:95-120 | OA, PA and UA lie in [0, 1], and each is 0 when its denominator is 0; kappa is at most 1, and 0 when all four counts are 0 |
| Validation.KappaPerfectAgreement | hanoi_ntl_analysis/scripts/06_validation_analysis.py:109-113 | with FP = FN = 0 and both classes present, pe < 1, and OA and kappa are 1 |
| Validation.KappaOneClass | hanoi_ntl_analysis/scripts/06_validation_analysis.py:109-113 | with FP = FN = 0 and only one class present, pe = 1 and kappa falls back to 0 |
| Validation.MetricsSwap | hanoi_ntl_analysis/scripts/06_validation_analysis.py:95-120 | swapping FP and FN swaps PA and UA and leaves OA and kappa unchanged |
| Validation.MetricsExample | hanoi_ntl_analysis/scripts/06_validation_analysis.py:95-120 | TP=847, FP=156, FN=189, TN=1808 gives OA = 0.885, PA = 847/1036, UA = 847/1003, kappa = 3003784/4038784 |
| ValidationVisualization.MatchSpatialExtentFixed | hanoi_ntl_analysis/scripts/07_validation_visualization.py:27-47 | the result is the fine grid block-averaged by the fixed factor 15, then cropped with the coarse mask to the common top-left extent |
| ValidationVisualization.JointGrid | hanoi_ntl_analysis/scripts/07_validation_visualization.py:58-64 | same shape as the coarse mask; the code is 3 for both urban, 1 for coarse only, 2 for fine only, and 0 otherwise (including coarse values outside {0, 1}) |
| ValidationVisualization.AssignWhere | hanoi_ntl_analysis/scripts/07_validation_visualization.py:61-64 | one masked assignment writes the code exactly where the coarse value and fine class match, and leaves every other cell as it was |
| ValidationVisualization.CreateJointClassification | hanoi_ntl_analysis/scripts/07_validation_visualization.py:50-66 | the zero-initialised array after the four masked assignments holds the joint-class map |
| ValidationVisualization.JointIsSum | hanoi_ntl_analysis/scripts/07_validation_visualization.py:58-64 | for a binary coarse mask the joint code is coarse + 2 * fine |
| ValidationVisualization.SummaryTotal | hanoi_ntl_analysis/scripts/07_validation_visualization.py:179-183 | the four summary counts always sum to the cell count |
| ValidationVisualization.ClassCount | hanoi_ntl_analysis/scripts/07_validation_visualization.py:179-181 | the number of cells coded 3, 1 or 2 is the number of (coarse 1, fine urban), (coarse 1, fine non-urban) or (coarse 0, fine urban) cells |
| ValidationVisualization.NeitherCount | hanoi_ntl_analysis/scripts/07_validation_visualization.py:182 | the cells coded 0 are the (coarse 0, fine non-urban) cells plus every cell with a coarse value outside {0, 1} |
| ValidationVisualization.SummaryVersusConfusion | hanoi_ntl_analysis/scripts/07_validation_visualization.py:179-182 | the summary's TP, FP and FN equal the confusion matrix's, and its TN adds the non-binary cells; for a binary mask the two sets of counts agree |
| ValidationVisualization.SummaryIsAccuracy | hanoi_ntl_analysis/scripts/07_validation_visualization.py:185-187 | the summary OA, sensitivity and precision are the zero-guarded OA, PA and UA of the validation metrics |
| ValidationVisualization.SummaryAgreesWithValidation | hanoi_ntl_analysis/scripts/07_validation_visualization.py:179-187 | for a binary coarse mask the visualisation's summary metrics equal the validation's OA, PA and UA |
| Years.FirstIndex | hanoi_ntl_analysis/scripts/run_full_analysis.py:51 | the leftmost position where a pattern matches, or None exactly when it matches nowhere |
| Years.ParseYearFromName | hanoi_ntl_analysis/scripts/run_full_analysis.py:50-54 | a parsed year is in [1900, 2099], and the result is None exactly when no substring 19dd or 20dd exists |
| Years.ParseYearLeftmost | hanoi_ntl_analysis/scripts/run_full_analysis.py:51-53 | the year is the value of the leftmost 19dd or 20dd substring |
| Years.ParseYearExample | hanoi_ntl_analysis/scripts/run_full_analysis.py:50-54 | "VIIRS_DNB_2012_05.tif" gives 2012 |
| Years.ParseYearUnanchored | hanoi_ntl_analysis/scripts/run_full_analysis.py:51 | the match is unanchored: "x1899y20315" gives 2031 |
| Years.FirstFourDigits | hanoi_ntl_analysis/scripts/06_validation_analysis.py:140-141 | the value of a four-digit run lies in [0, 9999], and the result is None exactly when no run of four digits exists |
| Years.FirstFourDigitsLeftmost | hanoi_ntl_analysis/scripts/06_validation_analysis.py:140-141 | the year is the value of the leftmost four digits |
| Years.CenturyYearIsFourDigits | hanoi_ntl_analysis/scripts/06_validation_analysis.py:140-141 | a name with a 19dd or 20dd year also has a four-digit run |
| Years.YearOrDefault | hanoi_ntl_analysis/scripts/07_validation_visualization.py:85-86 | the first four-digit run's value, or 2023 when there is none |
| Years.Split | hanoi_ntl_analysis/scripts/04_spatial_analysis_samples.py:39 | str.split always yields at least one piece |
| Years.SplitJoin | hanoi_ntl_analysis/scripts/04_spatial_analysis_samples.py:39 | joining the pieces with the separator gives the stem back, and no piece contains the separator |
| Years.JoinSplit | hanoi_ntl_analysis/scripts/04_spatial_analysis_samples.py:39 | splitting a join of separator-free pieces gives those pieces back |
| Years.TokenYearOf | hanoi_ntl_analysis/scripts/04_spatial_analysis_samples.py:40-44 | a token year is in [0, 9999], and the year stays None exactly when no token is four digits long |
| Years.TokenYearFirst | hanoi_ntl_analysis/scripts/04_spatial_analysis_samples.py:41-44 | the year is the value of the first four-digit token; later tokens are ignored |
| Years.TokenYear | hanoi_ntl_analysis/scripts/04_spatial_analysis_samples.py:39-44 | the token loop with break yields the year of the first four-digit token of the split stem |
| Years.TokenYearExample | hanoi_ntl_analysis/scripts/04_spatial_analysis_samples.py:38-44 | VIIRS_DNB_2012_05_mask gives 2012, with 05 rejected for its length; a later 2013 is ignored; no four-digit token gives None |
| FullAnalysis.Sort | hanoi_ntl_analysis/scripts/run_full_analysis.py:82 | the sorted values are ascending and a permutation of the input |
| FullAnalysis.AscendingUnique | hanoi_ntl_analysis/scripts/run_full_analysis.py:82 | two ascending sequences with the same elements are equal, so the median does not depend on how the values are sorted |
| FullAnalysis.MedianReorder | hanoi_ntl_analysis/scripts/run_full_analysis.py:82 | the median depends only on the multiset of the values |
| FullAnalysis.MedianWithin | hanoi_ntl_analysis/scripts/run_full_analysis.py:82 | the median (the mean of the two middle values for an even count) lies between any bounds of the values |
| FullAnalysis.MedianSingle | hanoi_ntl_analysis/scripts/run_full_analysis.py:82 | the median of one value is that value |
| FullAnalysis.MarkMissing | hanoi_ntl_analysis/scripts/run_full_analysis.py:74 | same shape; each cell is NaN exactly where the value is 0, and the value otherwise |
| FullAnalysis.NumsReorder | hanoi_ntl_analysis/scripts/run_full_analysis.py:82 | reordering a pixel's column reorders its non-missing values |
| FullAnalysis.CompositePixelAllMissing | hanoi_ntl_analysis/scripts/run_full_analysis.py:82-84 | a pixel missing in every raster composites to 0 |
| FullAnalysis.CompositePixelWithin | hanoi_ntl_analysis/scripts/run_full_analysis.py:82-84 | with some value present, the composite lies between the bounds of the present values |
| FullAnalysis.CompositePixelReorder | hanoi_ntl_analysis/scripts/run_full_analysis.py:82-84 | a pixel's composite does not depend on the order of the rasters |
| FullAnalysis.Composite | hanoi_ntl_analysis/scripts/run_full_analysis.py:80-84 | the composite has the shape of the stacked rasters |
| FullAnalysis.CompositePixelSingle | hanoi_ntl_analysis/scripts/run_full_analysis.py:74-84 | one value, with 0 marked missing, composites back to itself |
| FullAnalysis.CompositeSingle | hanoi_ntl_analysis/scripts/run_full_analysis.py:74-84 | the composite of a single raster is that raster |
| FullAnalysis.CompositeReorder | hanoi_ntl_analysis/scripts/run_full_analysis.py:76-84 | the composite does not depend on file order: any reordering of the stack gives the same grid |
| FullAnalysis.CompositeAllMissing | hanoi_ntl_analysis/scripts/run_full_analysis.py:82-84 | a pixel that is 0 in every raster of the year is 0 in the composite |
| FullAnalysis.CompositeWithin | hanoi_ntl_analysis/scripts/run_full_analysis.py:82-84 | a composite pixel lies between the min and max of that pixel's non-zero inputs |
| FullAnalysis.YearStackNonEmpty | hanoi_ntl_analysis/scripts/run_full_analysis.py:62-76 | a year's stack is non-empty exactly when some file name parses to that year, so undated files contribute nowhere |
| FullAnalysis.ByYearStacks | hanoi_ntl_analysis/scripts/run_full_analysis.py:62-76 | by_year has a key exactly for each parsed year, and its list holds that year's grids, zeros marked missing, in file order |
| FullAnalysis.FirstMetaIsFirst | hanoi_ntl_analysis/scripts/run_full_analysis.py:62-71 | meta_example is set exactly when some file is dated, and then it is the metadata of the first dated file |
| FullAnalysis.ByYearHasMeta | hanoi_ntl_analysis/scripts/run_full_analysis.py:62-85 | if any year was grouped, meta_example is set |
| FullAnalysis.GroupByYear | hanoi_ntl_analysis/scripts/run_full_analysis.py:62-76 | the first loop builds exactly by_year and meta_example |
| FullAnalysis.BuildAnnualComposites | hanoi_ntl_analysis/scripts/run_full_analysis.py:57-88 | the build fails exactly when some year's grids differ in shape; otherwise it has one entry per parsed year, holding that year's composite and the first dated file's metadata |
| FullAnalysis.GrowthRoundTrip | hanoi_ntl_analysis/scripts/run_full_analysis.py:152 | after a non-zero area the growth is a finite percentage, and applying it to the previous area gives the current one back |
| FullAnalysis.GrowthSign | hanoi_ntl_analysis/scripts/run_full_analysis.py:152 | from a positive area, growth is positive exactly when the area grew and zero exactly when it stayed the same |
| FullAnalysis.GrowthUndefined | hanoi_ntl_analysis/scripts/run_full_analysis.py:152 | growth is undefined (NaN) exactly for 0 after 0 |
| FullAnalysis.TimeSeries | hanoi_ntl_analysis/scripts/run_full_analysis.py:151-152 | one row per year, in strictly ascending year order, each holding that year's area; the first row has no growth, and every later row has the growth from the row before |
| FullAnalysis.GrowthTable | hanoi_ntl_analysis/scripts/run_full_analysis.py:151-152 | one row per listed year, in order, with its area; the first row has no growth, and every later row has the growth from the previous row |
| SpatialSamples.RingTableOf | hanoi_ntl_analysis/scripts/04_spatial_analysis_samples.py:52-54 | a mask has a ring table exactly when it has a centroid |
| SpatialSamples.SectorTableOf | hanoi_ntl_analysis/scripts/04_spatial_analysis_samples.py:56-58 | a mask has a sector table exactly when it has a centroid |
| SpatialSamples.AssocLastWins | hanoi_ntl_analysis/scripts/04_spatial_analysis_samples.py:36-50 | a dictionary filled in file order has a key exactly for the keys seen, and each value comes from the last file with that key |
| SpatialSamples.CentroidsLastWins | hanoi_ntl_analysis/scripts/04_spatial_analysis_samples.py:36-50 | the centroids dictionary has a key for each parsed year (None included), holding the centroid of the last mask with that year |
| SpatialSamples.CollectPerCentroid | hanoi_ntl_analysis/scripts/04_spatial_analysis_samples.py:52-58 | one collected table per mask with a centroid, each coming from some mask |
| SpatialSamples.WithCentroidZero | hanoi_ntl_analysis/scripts/04_spatial_analysis_samples.py:49-58 | no table is collected exactly when no mask has a centroid |
| SpatialSamples.TablesPerCentroid | hanoi_ntl_analysis/scripts/04_spatial_analysis_samples.py:52-58 | as many ring tables as sector tables, one per mask with a centroid; none exactly when no mask has a centroid |
| SpatialSamples.RingTablesFromCentroids | hanoi_ntl_analysis/scripts/04_spatial_analysis_samples.py:49-54 | each collected ring table has 3 rows and is the default-width table of some mask's centroid and year |
| SpatialSamples.IntKeyed | hanoi_ntl_analysis/scripts/04_spatial_analysis_samples.py:83 | the integer-year entries of the centroids dictionary, unchanged |
| SpatialSamples.SampleCentroidShift | hanoi_ntl_analysis/scripts/04_spatial_analysis_samples.py:83 | sorting fails exactly when a None year sits among other years; a lone None year gives no record; with no None year the records are the shift over the sorted years |
| SpatialSamples.RunSpatialOnMasks | hanoi_ntl_analysis/scripts/04_spatial_analysis_samples.py:21-86 | the collected ring and sector tables, the centroids dictionary, and the centroid shift over it, with the failure of a mixed None key |
| SpatialSamples.AnalyzeMasks | hanoi_ntl_analysis/scripts/04_spatial_analysis_samples.py:36-58 | the per-file loop collects the ring and sector tables of the masks with a centroid, and the last-wins centroids dictionary |
| SpatialSamples.AnalyzeMask | hanoi_ntl_analysis/scripts/04_spatial_analysis_samples.py:39-58 | one file's year token, centroid, ring table and sector table |

## Left out

- Earth Engine downloads (`01_download_viirs.py`, `05_download_validation_landsat.py`): network and foreign calls.
- GeoTIFF reading and writing (`read_viirs_tif`, `export_geotiff`, the mask writes in `run`, `03_process_samples.py`), CSV output, logging and the `main` functions of the 06 and 07 scripts: these are I/O. Rasters enter the model as grids and names as strings, and `Path.stem`, `f.name` and `glob` are not modelled.
- Plotting: the `visualize_*` functions and the figure code of the 07 script.
- `02_complete_analysis.py` is a demo on synthetic random data and is not part of this model.
- `config.py` is not part of this model beyond its defaults: threshold 3.0, thresholds [1, 2, 3, 5], ring widths [1000, 2000, 5000], 8 sectors and 463 m pixels, which appear as constants.
- `ntl_processing.analyze_directional_expansion` is not modelled. Line 145 unpacks the single array that `label()` returns into two names, and the function uses a different `atan2` argument order. Its sector arithmetic is that of `spatial_analysis.py`, which is modelled.
- `run`'s per-year loop is not modelled as a whole. It calls the modelled operations, writes the mask GeoTIFFs and sensitivity CSVs, and collects the table frames. Its year sort and growth column are modelled (`FullAnalysis.TimeSeries`).
- SpatialAnalysis.DisplacementSq: keeps `displacement_m` squared, because `sqrt` is not modelled. Its zero, sign and symmetry facts are those of the root.
- SpatialAnalysis.Shift: the bearing comes from the `atan2Deg` parameter. The actual values of `np.arctan2` are not modelled, only their use, and `ShiftAxes` assumes the values on the axes.
- SpatialAnalysis.AngleAt: the angle map comes from the `atan2Deg` parameter, for the same reason.
- NtlProcessing.Compactness: skimage's `label`/`regionprops` (connectivity, the perimeter estimator) and the value of pi are parameters. The ratio's closeness to 1 for discs and to 0 for thin lines is a property of the perimeter estimator and is not stated.
- NtlProcessing.RingCounts: requires a non-empty `ring_widths` when a centroid exists. With empty widths the code raises `IndexError` at `ring_widths[0]`, and that failure is not modelled.
- SpatialAnalysis.AnalyzeRingExpansion: the same `IndexError` is not modelled.
- SpatialAnalysis.SectorTable / SpatialAnalysis.AnalyzeDirectionalExpansion / SpatialAnalysis.SectorLoop: require a positive sector count, which is a `nat`. With `num_sectors = 0` and a centroid, the code raises `ZeroDivisionError` at `360 / num_sectors`, before the loop. A negative count gives an empty table, because `range` is empty. Neither case is modelled. Every caller passes 8.
- NtlProcessing.RingCounts: the order in which the dictionary was filled is not kept (a map).
- SpatialAnalysis.RingTable: the ring label's text (`'Ring 1-3km'`, `'< 1000'`) is not kept, only its bounds.
- NtlProcessing.RingCounts / SpatialAnalysis.RingTable / SpatialAnalysis.AnalyzeRingExpansion: agree with the code only for a positive `pixel_size_m`. `Geometry.Dist2` squares the pixel size, so the model measures the distance's absolute value. With a negative size the code's distances are all at most 0, so with positive ring widths every lit pixel falls in the core and the outer rings are empty. That case is not modelled. Every caller passes 463.
- FullAnalysis.BuildAnnualComposites: a year whose grids differ in shape makes `np.stack` raise. The model returns None for the whole build instead of raising.
- FullAnalysis.MarkMissing: the in-place `arr[arr == 0] = np.nan` is modelled as a new grid of cells, since the array is not used again.
- Years.ParseYearFromName: only ASCII digits are modelled. Python's `\d` and `str.isdigit` also accept other Unicode digits.
- Years.FirstFourDigits: only ASCII digits are modelled, for the same reason.
- Years.TokenYearOf: only ASCII digits are modelled, for the same reason.
- Validation.MatchSpatialExtent: the factor `int(np.round(...))` of the two pixel sizes is an input, so half-to-even rounding and the float32 storage of the output are not modelled.
- ValidationVisualization.MatchSpatialExtentFixed: float32 storage is not modelled.
- Floating point throughout: areas, means, percents and metrics are exact reals. NaN appears only where the code makes it (missing Landsat values, zeros in compositing, `pct_change`), and raw VIIRS inputs are taken to be NaN-free.
- SpatialSamples.AnalyzeMask: mask files are read as `uint8`, and the model treats them as boolean masks. A stored value above 1 would count more than once in the code's ring and sector sums.
