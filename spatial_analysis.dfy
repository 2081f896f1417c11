/**
 * Spatial decomposition and temporal tracking: compass labels, the year to
 * year centroid shift, the Core-and-rings table and the angular sector table.
 *
 * `atan2` is not modelled: `atan2Deg(a, b)` stands for
 * `np.arctan2(a, b) * 180 / np.pi` and is a parameter.  Distances are
 * compared on squares (see Geometry), and a centroid displacement is kept
 * squared.
 */
module SpatialAnalysis {
  import opened Grids
  import opened Geometry
  import opened NtlProcessing

  /** The 16 compass points, clockwise from north. */
  const Directions: seq<string> :=
    ["N", "NNE", "NE", "ENE", "E", "ESE", "SE", "SSE",
     "S", "SSW", "SW", "WSW", "W", "WNW", "NW", "NNW"]

  /** `compute_centroid_shift` converts pixels to metres with this fixed size. */
  const ShiftPixelSizeM := 463.0

  /** Default number of sectors (`SECTORAL_DIVISIONS`). */
  const DefaultSectors := 8

  // ---------------------------------------------------------------------
  // Numeric conversions
  // ---------------------------------------------------------------------

  /** Python `int(x)`: truncation toward zero. */
  function TruncToInt(x: real): (n: int)
    ensures x >= 0.0 ==> 0 <= n && n as real <= x < n as real + 1.0
    ensures x < 0.0 ==> n <= 0 && n as real - 1.0 < x <= n as real
  {
    if x >= 0.0 then x.Floor else -((-x).Floor)
  }

  /** Python/numpy `a % 360` on floats: the floored remainder, in [0, 360). */
  function Mod360(a: real): (r: real)
    ensures 0.0 <= r < 360.0
    ensures 0.0 <= a < 360.0 ==> r == a
    ensures (a - r) / 360.0 == ((a - r) / 360.0).Floor as real
  {
    a - 360.0 * (a / 360.0).Floor as real
  }

  /** `part / total * 100` when the total is positive, else 0. */
  function Percent(part: real, total: real): (p: real)
    ensures total > 0.0 && 0.0 <= part <= total ==> 0.0 <= p <= 100.0
    ensures total <= 0.0 ==> p == 0.0
  {
    if total > 0.0 then part / total * 100.0 else 0.0
  }

  /** A part no larger than the total is at most 100 percent of it, whatever its sign. */
  lemma PercentAtMost100(part: real, total: real)
    requires part <= total
    ensures Percent(part, total) <= 100.0
  {
    if total > 0.0 {
      var q := part / total;
      assert q * total == part;
      if q > 1.0 {
        assert q * total > 1.0 * total;
      }
    }
  }

  lemma PercentAdd(a: real, b: real, total: real)
    ensures Percent(a, total) + Percent(b, total) == Percent(a + b, total)
  {
  }

  /** `if year: df['year'] = year`: a year column only for a present, non-zero year. */
  function YearColumn(year: Option<int>): (col: Option<int>)
    ensures col.Some? <==> year.Some? && year.value != 0
    ensures col.Some? ==> col == year
  {
    if year.Some? && year.value != 0 then year else None
  }

  // ---------------------------------------------------------------------
  // Compass labels
  // ---------------------------------------------------------------------

  /** Index into `Directions` that `get_direction_name` uses. */
  function DirectionIndex(bearing: real): (k: int)
    ensures 0 <= k < 16
  {
    TruncToInt((bearing + 11.25) / 22.5) % 16
  }

  /** `get_direction_name`. */
  function DirectionName(bearing: real): string {
    Directions[DirectionIndex(bearing)]
  }

  /**
   * A bearing in `[22.5k - 11.25, 22.5k + 11.25)` is labelled with compass
   * point `k mod 16`: each label covers the 22.5-degree sector centred on it.
   */
  lemma DirectionBand(bearing: real, k: int)
    requires 0 <= k <= 16
    requires 22.5 * k as real - 11.25 <= bearing < 22.5 * k as real + 11.25
    ensures DirectionIndex(bearing) == k % 16
    ensures DirectionName(bearing) == Directions[k % 16]
  {
    var x := (bearing + 11.25) / 22.5;
    assert k as real <= x < k as real + 1.0;
    assert TruncToInt(x) == k;
  }

  lemma CompassPoints()
    ensures DirectionName(0.0) == "N"
    ensures DirectionName(90.0) == "E"
    ensures DirectionName(180.0) == "S"
    ensures DirectionName(270.0) == "W"
    ensures DirectionName(350.0) == "N"
  {
    DirectionBand(0.0, 0);
    DirectionBand(90.0, 4);
    DirectionBand(180.0, 8);
    DirectionBand(270.0, 12);
    DirectionBand(350.0, 16);
  }

  // ---------------------------------------------------------------------
  // Centroid shift
  // ---------------------------------------------------------------------

  datatype ShiftRecord = ShiftRecord(yearFrom: int, yearTo: int, displacementSqM2: real, bearing: real, direction: string)

  /** `x * x`, non-negative and zero exactly at 0. */
  function Square(x: real): (s: real)
    ensures s >= 0.0
    ensures s == 0.0 <==> x == 0.0
  {
    Mul(x, x)
  }

  lemma SquareNeg(x: real)
    ensures Square(-x) == Square(x)
  {
  }

  /** `displacement_m ** 2` from `c1` to `c2`, with the fixed 463 m pixel. */
  function DisplacementSq(c1: Centroid, c2: Centroid): (d: real)
    ensures d >= 0.0
    ensures d == 0.0 <==> c1 == c2
  {
    Square((c2.row - c1.row) * ShiftPixelSizeM) + Square((c2.col - c1.col) * ShiftPixelSizeM)
  }

  /** The displacement does not depend on the order of the two centroids. */
  lemma DisplacementSymmetric(c1: Centroid, c2: Centroid)
    ensures DisplacementSq(c1, c2) == DisplacementSq(c2, c1)
  {
    SquareNeg((c2.row - c1.row) * ShiftPixelSizeM);
    SquareNeg((c2.col - c1.col) * ShiftPixelSizeM);
  }

  /** The record for a pair of years whose centroids both exist. */
  function Shift(year1: int, year2: int, c1: Centroid, c2: Centroid, atan2Deg: (real, real) -> real): (r: ShiftRecord)
    ensures r.yearFrom == year1 && r.yearTo == year2
    ensures r.displacementSqM2 >= 0.0 && (r.displacementSqM2 == 0.0 <==> c1 == c2)
    ensures 0.0 <= r.bearing < 360.0 && r.direction == DirectionName(r.bearing)
  {
    var bearing := Mod360(atan2Deg(c2.col - c1.col, c2.row - c1.row));
    ShiftRecord(year1, year2, DisplacementSq(c1, c2), bearing, DirectionName(bearing))
  }

  /** The records for the pair (years[k-1], years[k]): one, or none when a centroid is missing. */
  function PairShift(years: seq<int>, k: nat, centroids: map<int, Option<Centroid>>,
                     atan2Deg: (real, real) -> real): seq<ShiftRecord>
    requires 0 < k < |years| && years[k - 1] in centroids && years[k] in centroids
  {
    var c1, c2 := centroids[years[k - 1]], centroids[years[k]];
    if c1.None? || c2.None? then [] else [Shift(years[k - 1], years[k], c1.value, c2.value, atan2Deg)]
  }

  ghost predicate AllKeys(years: seq<int>, centroids: map<int, Option<Centroid>>) {
    forall k | 0 <= k < |years| :: years[k] in centroids
  }

  /** The records for the pairs among the first `n` years. */
  function Shifts(years: seq<int>, n: nat, centroids: map<int, Option<Centroid>>,
                  atan2Deg: (real, real) -> real): seq<ShiftRecord>
    requires n <= |years| && AllKeys(years, centroids)
  {
    if n < 2 then [] else Shifts(years, n - 1, centroids, atan2Deg) + PairShift(years, n - 1, centroids, atan2Deg)
  }

  ghost predicate StrictlyIncreasing(s: seq<int>) {
    forall a, b | 0 <= a < b < |s| :: s[a] < s[b]
  }

  /** `sorted(keys)`: the keys in ascending order. */
  ghost function SortedKeys(keys: set<int>): (s: seq<int>)
    ensures StrictlyIncreasing(s) && |s| == |keys|
    ensures forall x :: x in s <==> x in keys
    decreases |keys|
  {
    if keys == {} then []
    else
      var least := Least(keys);
      var rest := SortedKeys(keys - {least});
      ConsIncreasing(least, rest);
      [least] + rest
  }

  /** A value below every element of a strictly increasing sequence can lead it. */
  lemma ConsIncreasing(x: int, t: seq<int>)
    requires StrictlyIncreasing(t) && forall a | 0 <= a < |t| :: x < t[a]
    ensures StrictlyIncreasing([x] + t)
  {
    forall a, b | 0 <= a < b < |t| + 1 ensures ([x] + t)[a] < ([x] + t)[b] {
      assert ([x] + t)[b] == t[b - 1];
      if a > 0 {
        assert ([x] + t)[a] == t[a - 1];
      }
    }
  }

  /** The least element of a non-empty set. */
  ghost function Least(keys: set<int>): (least: int)
    requires keys != {}
    ensures least in keys && forall x | x in keys :: least <= x
    decreases |keys|
  {
    if forall y :: y !in keys then assert false; 0
    else
    var y :| y in keys;
    var rest := keys - {y};
    if rest == {} then
      assert forall x | x in keys :: x == y || x in rest;
      y
    else
      var m := Least(rest);
      assert forall x | x in keys :: x == y || x in rest;
      if y < m then y else m
  }

  /** Two ascending sequences with the same elements are equal. */
  lemma {:induction false} SortedUnique(s: seq<int>, t: seq<int>)
    requires StrictlyIncreasing(s) && StrictlyIncreasing(t)
    requires forall x :: x in s <==> x in t
    ensures s == t
    decreases |s|
  {
    if s != [] || t != [] {
      var w := if s != [] then s[0] else t[0];
      assert w in s || w in t;
      assert w in s && w in t;
      var x, y := s[0], t[0];
      assert x in s && y in t;
      assert x == y;
      forall z ensures z in s[1..] <==> z in t[1..] {
        if z in s[1..] { assert z != x && z in s; }
        if z in t[1..] { assert z != y && z in t; }
      }
      SortedUnique(s[1..], t[1..]);
      assert s == [x] + s[1..] && t == [y] + t[1..];
    }
  }

  /** One pass over a non-empty set keeping the smallest element seen. */
  method FindLeast(keys: set<int>) returns (least: int)
    requires keys != {}
    ensures least in keys && forall x | x in keys :: least <= x
  {
    if forall y :: y !in keys { assert false; }
    least :| least in keys;
    var todo := keys - {least};
    while todo != {}
      invariant least in keys && todo <= keys
      invariant forall x | x in keys && x !in todo :: least <= x
      decreases |todo|
    {
      if forall y :: y !in todo { assert false; }
      var y :| y in todo;
      if y < least {
        least := y;
      }
      todo := todo - {y};
    }
  }

  /** Sorting the keys by repeatedly taking the least remaining one. */
  method SortKeys(keys: set<int>) returns (s: seq<int>)
    ensures s == SortedKeys(keys)
  {
    s := AscendingKeys(keys);
    SortedUnique(s, SortedKeys(keys));
  }

  /** The selection loop: the keys, each once, in ascending order. */
  method AscendingKeys(keys: set<int>) returns (s: seq<int>)
    ensures StrictlyIncreasing(s)
    ensures forall x :: x in s <==> x in keys
  {
    s := [];
    var rest := keys;
    while rest != {}
      invariant StrictlyIncreasing(s)
      invariant forall x :: x in keys <==> x in s || x in rest
      invariant forall a, x | 0 <= a < |s| && x in rest :: s[a] < x
      decreases |rest|
    {
      var least := FindLeast(rest);
      s := s + [least];
      rest := rest - {least};
    }
  }

  /**
   * `compute_centroid_shift`: for each pair of consecutive years in
   * ascending order whose centroids both exist, one record with the squared
   * displacement in metres, the bearing and its compass label.
   */
  method ComputeCentroidShift(centroids: map<int, Option<Centroid>>, atan2Deg: (real, real) -> real)
    returns (records: seq<ShiftRecord>)
    ensures AllKeys(SortedKeys(centroids.Keys), centroids)
    ensures records == Shifts(SortedKeys(centroids.Keys), |centroids.Keys|, centroids, atan2Deg)
  {
    var years := SortKeys(centroids.Keys);
    records := ShiftsOver(years, centroids, atan2Deg);
  }

  /** The loop of `compute_centroid_shift` over the sorted years. */
  method ShiftsOver(years: seq<int>, centroids: map<int, Option<Centroid>>, atan2Deg: (real, real) -> real)
    returns (records: seq<ShiftRecord>)
    requires AllKeys(years, centroids)
    ensures records == Shifts(years, |years|, centroids, atan2Deg)
  {
    records := [];
    if |years| < 2 {
      return;
    }
    var i := 1;
    while i < |years|
      invariant 1 <= i <= |years|
      invariant records == Shifts(years, i, centroids, atan2Deg)
    {
      var year1, year2 := years[i - 1], years[i];
      var c1, c2 := centroids[year1], centroids[year2];
      if c1.Some? && c2.Some? {
        records := records + [Shift(year1, year2, c1.value, c2.value, atan2Deg)];
      }
      i := i + 1;
    }
  }

  /**
   * Every record is for two adjacent years of the sorted list whose
   * centroids both exist, with `yearFrom < yearTo`; there are at most
   * `n - 1` records.
   */
  lemma {:induction false} ShiftsAdjacent(years: seq<int>, n: nat, centroids: map<int, Option<Centroid>>,
                                          atan2Deg: (real, real) -> real)
    requires n <= |years| && AllKeys(years, centroids) && StrictlyIncreasing(years)
    ensures |Shifts(years, n, centroids, atan2Deg)| <= if n == 0 then 0 else n - 1
    ensures forall r | r in Shifts(years, n, centroids, atan2Deg) ::
      exists k :: 0 < k < n && r.yearFrom == years[k - 1] && r.yearTo == years[k]
        && centroids[years[k - 1]].Some? && centroids[years[k]].Some?
        && r == Shift(years[k - 1], years[k], centroids[years[k - 1]].value, centroids[years[k]].value, atan2Deg)
    ensures forall r | r in Shifts(years, n, centroids, atan2Deg) :: r.yearFrom < r.yearTo
  {
    if n >= 2 {
      ShiftsAdjacent(years, n - 1, centroids, atan2Deg);
      forall r | r in PairShift(years, n - 1, centroids, atan2Deg)
        ensures r.yearFrom < r.yearTo
      {
        assert years[n - 2] < years[n - 1];
      }
    }
  }

  /** Every pair of adjacent years whose centroids both exist gets its record. */
  lemma {:induction false} ShiftsComplete(years: seq<int>, n: nat, centroids: map<int, Option<Centroid>>,
                                          atan2Deg: (real, real) -> real)
    requires n <= |years| && AllKeys(years, centroids)
    ensures forall k | 0 < k < n && centroids[years[k - 1]].Some? && centroids[years[k]].Some? ::
      Shift(years[k - 1], years[k], centroids[years[k - 1]].value, centroids[years[k]].value, atan2Deg)
        in Shifts(years, n, centroids, atan2Deg)
  {
    if n >= 2 {
      ShiftsComplete(years, n - 1, centroids, atan2Deg);
    }
  }

  // ---------------------------------------------------------------------
  // Core and concentric rings
  // ---------------------------------------------------------------------

  /** `'Core'` (distance below `outer`) or `'Ring a-b km'` (distance in `[inner, outer)`). */
  datatype RingLabel = CoreBand(outer: real) | RingBand(inner: real, outer: real)

  datatype RingRecord = RingRecord(ring: RingLabel, areaKm2: real, percentOfTotal: real, year: Option<int>)

  /**
   * Row `k` of a ring table, given the core's area and the area of any
   * band `[a, b)`: Core for `k = 0`, else the band `[b_k, b_(k+1))` of
   * cumulative widths; the percent is of `total`.
   */
  function RingRow(coreArea: real, bandArea: (real, real) -> real, widths: seq<real>, total: real, year: Option<int>, k: nat)
    : RingRecord
    requires k < |widths|
  {
    if k == 0 then
      RingRecord(CoreBand(widths[0]), coreArea, Percent(coreArea, total), YearColumn(year))
    else
      var area := bandArea(Bound(widths, k), Bound(widths, k + 1));
      RingRecord(RingBand(Bound(widths, k), Bound(widths, k + 1)), area, Percent(area, total), YearColumn(year))
  }

  /** The first `n` rows of a ring table. */
  function RingRows(coreArea: real, bandArea: (real, real) -> real, widths: seq<real>, total: real, year: Option<int>, n: nat)
    : (t: seq<RingRecord>)
    requires n <= |widths|
    ensures |t| == n
  {
    if n == 0 then []
    else RingRows(coreArea, bandArea, widths, total, year, n - 1) + [RingRow(coreArea, bandArea, widths, total, year, n - 1)]
  }

  /** Lit area of the band `[a, b)` around `c`, as a function of the bounds. */
  function BandArea(m: Mask, c: Centroid, pixelSizeM: real): (real, real) -> real {
    (a, b) => LitArea(Select(m, BandAt(c, pixelSizeM, a, b)), pixelSizeM)
  }

  /** The ring table of `analyze_ring_expansion` for a mask and a centroid. */
  function RingTable(m: Mask, c: Centroid, widths: seq<real>, pixelSizeM: real, year: Option<int>): (t: seq<RingRecord>)
    requires |widths| > 0
    ensures |t| == |widths|
  {
    RingRows(LitArea(Select(m, WithinAt(c, pixelSizeM, widths[0])), pixelSizeM), BandArea(m, c, pixelSizeM),
             widths, LitArea(m, pixelSizeM), year, |widths|)
  }

  /**
   * `analyze_ring_expansion` of this module: None without a centroid;
   * otherwise one row per ring width, Core first and then the rings outward.
   */
  method AnalyzeRingExpansion(m: Mask, centroid: Option<Centroid>, widths: seq<real>, pixelSizeM: real, year: Option<int>)
    returns (table: Option<seq<RingRecord>>)
    requires centroid.Some? ==> |widths| > 0
    ensures centroid.None? ==> table.None?
    ensures centroid.Some? ==> table == Some(RingTable(m, centroid.value, widths, pixelSizeM, year))
  {
    if centroid.None? {
      return None;
    }
    var c := centroid.value;
    var total := LitArea(m, pixelSizeM);
    var coreArea := LitArea(Select(m, WithinAt(c, pixelSizeM, widths[0])), pixelSizeM);
    var records := RingRowsLoop(coreArea, BandArea(m, c, pixelSizeM), widths, total, year);
    return Some(records);
  }

  /**
   * The loop of `analyze_ring_expansion`: the Core row, then one row per
   * further width, each band starting where the previous one ends.
   */
  method RingRowsLoop(coreArea: real, bandArea: (real, real) -> real, widths: seq<real>, total: real, year: Option<int>)
    returns (records: seq<RingRecord>)
    requires |widths| > 0
    ensures records == RingRows(coreArea, bandArea, widths, total, year, |widths|)
  {
    records := [RingRecord(CoreBand(widths[0]), coreArea, Percent(coreArea, total), YearColumn(year))];
    var prev := widths[0];
    var k := 1;
    while k < |widths|
      invariant 1 <= k <= |widths| && prev == Bound(widths, k)
      invariant records == RingRows(coreArea, bandArea, widths, total, year, k)
    {
      var ringDist := prev + widths[k];
      var area := bandArea(prev, ringDist);
      records := records + [RingRecord(RingBand(prev, ringDist), area, Percent(area, total), YearColumn(year))];
      prev := ringDist;
      k := k + 1;
    }
  }

  /** A shorter table is a prefix of a longer one. */
  lemma {:induction false} RingRowsPrefix(coreArea: real, bandArea: (real, real) -> real, widths: seq<real>, total: real,
                                          year: Option<int>, n: nat, k: nat)
    requires k < n <= |widths|
    ensures RingRows(coreArea, bandArea, widths, total, year, n)[k] == RingRow(coreArea, bandArea, widths, total, year, k)
  {
    if k < n - 1 {
      RingRowsPrefix(coreArea, bandArea, widths, total, year, n - 1, k);
    }
  }

  /**
   * Row 0 is Core below `w_0`; row `k > 0` is the band `[b_k, b_(k+1))`,
   * starting where the previous row ends; every row carries the year
   * column; and when every area is between 0 and the total, every percent
   * is in [0, 100].
   */
  lemma RingRowsShape(coreArea: real, bandArea: (real, real) -> real, widths: seq<real>, total: real,
                      year: Option<int>, n: nat, k: nat)
    requires k < n <= |widths|
    ensures var t := RingRows(coreArea, bandArea, widths, total, year, n);
      && (k == 0 ==> t[k].ring == CoreBand(widths[0]) && t[k].areaKm2 == coreArea)
      && (k > 0 ==> t[k].ring == RingBand(Bound(widths, k), Bound(widths, k + 1))
                    && t[k].areaKm2 == bandArea(Bound(widths, k), Bound(widths, k + 1)))
      && (k > 0 ==> t[k].ring.inner == t[k - 1].ring.outer)
      && t[k].percentOfTotal == Percent(t[k].areaKm2, total)
      && (total > 0.0 && 0.0 <= t[k].areaKm2 <= total ==> 0.0 <= t[k].percentOfTotal <= 100.0)
      && t[k].year == YearColumn(year)
  {
    RingRowsPrefix(coreArea, bandArea, widths, total, year, n, k);
    if k > 0 {
      RingRowsPrefix(coreArea, bandArea, widths, total, year, n, k - 1);
    }
  }

  /**
   * In the table of a mask, each row's area is the area of its band's lit
   * count (Core being the band `[0, w_0)`), between 0 and the total lit
   * area, and its percent is in [0, 100].
   */
  lemma RingTableRow(m: Mask, c: Centroid, widths: seq<real>, pixelSizeM: real, year: Option<int>, k: nat)
    requires k < |widths|
    ensures var t := RingTable(m, c, widths, pixelSizeM, year);
      && t[k].areaKm2 == AreaKm2(BandCount(m, c, pixelSizeM, Bound(widths, k), Bound(widths, k + 1)), pixelSizeM)
      && 0.0 <= t[k].areaKm2 <= LitArea(m, pixelSizeM)
      && 0.0 <= t[k].percentOfTotal <= 100.0
  {
    var core := LitArea(Select(m, WithinAt(c, pixelSizeM, widths[0])), pixelSizeM);
    RingRowsShape(core, BandArea(m, c, pixelSizeM), widths, LitArea(m, pixelSizeM), year, |widths|, k);
    var band := if k == 0 then Select(m, WithinAt(c, pixelSizeM, widths[0]))
                else Select(m, BandAt(c, pixelSizeM, Bound(widths, k), Bound(widths, k + 1)));
    CountMono(band, m);
    LitAreaCountMono(band, m, pixelSizeM);
    if k == 0 {
      CoreAreaScaled(m, c, widths, pixelSizeM);
      assert Bound(widths, 1) == widths[0];
    }
  }

  function SumRingAreas(t: seq<RingRecord>): real {
    if |t| == 0 then 0.0 else SumRingAreas(t[..|t| - 1]) + t[|t| - 1].areaKm2
  }

  function SumRingPercents(t: seq<RingRecord>): real {
    if |t| == 0 then 0.0 else SumRingPercents(t[..|t| - 1]) + t[|t| - 1].percentOfTotal
  }

  /** Sum of the band areas of rows 1 to `n - 1`. */
  function BandAreaSum(bandArea: (real, real) -> real, widths: seq<real>, n: nat): real
    requires n <= |widths|
  {
    if n <= 1 then 0.0 else BandAreaSum(bandArea, widths, n - 1) + bandArea(Bound(widths, n - 1), Bound(widths, n))
  }

  /** The areas add up to the core's plus the bands'; the percents to their sum's percent. */
  lemma {:induction false} RingRowsSums(coreArea: real, bandArea: (real, real) -> real, widths: seq<real>, total: real,
                                        year: Option<int>, n: nat)
    requires 0 < n <= |widths|
    ensures SumRingAreas(RingRows(coreArea, bandArea, widths, total, year, n)) == coreArea + BandAreaSum(bandArea, widths, n)
    ensures SumRingPercents(RingRows(coreArea, bandArea, widths, total, year, n))
      == Percent(SumRingAreas(RingRows(coreArea, bandArea, widths, total, year, n)), total)
  {
    var t := RingRows(coreArea, bandArea, widths, total, year, n);
    var t' := RingRows(coreArea, bandArea, widths, total, year, n - 1);
    assert t[..n - 1] == t';
    if n > 1 {
      RingRowsSums(coreArea, bandArea, widths, total, year, n - 1);
      PercentAdd(SumRingAreas(t'), t[n - 1].areaKm2, total);
    }
  }

  /** When every area is the area of its pixel count, so is the sum of the rows' areas. */
  lemma {:induction false} ScaledAreaSum(coreArea: real, bandArea: (real, real) -> real, count: (real, real) -> nat,
                                         widths: seq<real>, pixelSizeM: real, n: nat)
    requires 0 < n <= |widths|
    requires coreArea == AreaKm2(count(0.0, widths[0]), pixelSizeM)
    requires forall a, b :: bandArea(a, b) == AreaKm2(count(a, b), pixelSizeM)
    ensures coreArea + BandAreaSum(bandArea, widths, n) == AreaKm2(CountSum(count, widths, n), pixelSizeM)
  {
    if n == 1 {
      assert Bound(widths, 1) == widths[0];
    } else {
      ScaledAreaSum(coreArea, bandArea, count, widths, pixelSizeM, n - 1);
      var a, b := Bound(widths, n - 1), Bound(widths, n);
      AreaKm2Add(CountSum(count, widths, n - 1), count(a, b), pixelSizeM);
    }
  }

  /** The core's area is that of its lit count, Core being the band `[0, w_0)`. */
  lemma CoreAreaScaled(m: Mask, c: Centroid, widths: seq<real>, pixelSizeM: real)
    requires 0 < |widths|
    ensures LitArea(Select(m, WithinAt(c, pixelSizeM, widths[0])), pixelSizeM)
      == AreaKm2(BandCounter(m, c, pixelSizeM)(0.0, widths[0]), pixelSizeM)
  {
    CoreIsFirstBand(m, c, pixelSizeM, widths[0]);
  }

  /** Every band's area is that of its lit count. */
  lemma BandAreaScaled(m: Mask, c: Centroid, pixelSizeM: real)
    ensures forall a, b :: BandArea(m, c, pixelSizeM)(a, b) == AreaKm2(BandCounter(m, c, pixelSizeM)(a, b), pixelSizeM)
  {
  }

  /** Core plus bands is the area of the bands' total lit count. */
  lemma RingAreasScaled(m: Mask, c: Centroid, widths: seq<real>, pixelSizeM: real, n: nat)
    requires 0 < n <= |widths|
    ensures LitArea(Select(m, WithinAt(c, pixelSizeM, widths[0])), pixelSizeM) + BandAreaSum(BandArea(m, c, pixelSizeM), widths, n)
      == AreaKm2(CountSum(BandCounter(m, c, pixelSizeM), widths, n), pixelSizeM)
  {
    CoreAreaScaled(m, c, widths, pixelSizeM);
    BandAreaScaled(m, c, pixelSizeM);
    ScaledAreaSum(LitArea(Select(m, WithinAt(c, pixelSizeM, widths[0])), pixelSizeM), BandArea(m, c, pixelSizeM),
                  BandCounter(m, c, pixelSizeM), widths, pixelSizeM, n);
  }

  /**
   * With non-negative widths the rows' bands are disjoint and together make
   * the disc below the outer bound: the areas add up to the lit area inside
   * that disc.
   */
  lemma RingTableArea(m: Mask, c: Centroid, widths: seq<real>, pixelSizeM: real, year: Option<int>)
    requires NonNegative(widths) && 0 < |widths|
    ensures SumRingAreas(RingTable(m, c, widths, pixelSizeM, year))
      == LitArea(Select(m, WithinAt(c, pixelSizeM, Bound(widths, |widths|))), pixelSizeM)
  {
    var n := |widths|;
    RingRowsSums(LitArea(Select(m, WithinAt(c, pixelSizeM, widths[0])), pixelSizeM), BandArea(m, c, pixelSizeM),
                 widths, LitArea(m, pixelSizeM), year, n);
    RingAreasScaled(m, c, widths, pixelSizeM, n);
    BandsTileDisc(m, c, pixelSizeM, widths, n);
  }

  /**
   * So the areas add up to no more than the total lit area, and the
   * percents add up to that sum's percent of the total, never more than 100.
   */
  lemma RingTableSums(m: Mask, c: Centroid, widths: seq<real>, pixelSizeM: real, year: Option<int>)
    requires NonNegative(widths) && 0 < |widths|
    ensures SumRingAreas(RingTable(m, c, widths, pixelSizeM, year)) <= LitArea(m, pixelSizeM)
    ensures SumRingPercents(RingTable(m, c, widths, pixelSizeM, year))
      == Percent(SumRingAreas(RingTable(m, c, widths, pixelSizeM, year)), LitArea(m, pixelSizeM))
    ensures SumRingPercents(RingTable(m, c, widths, pixelSizeM, year)) <= 100.0
  {
    var n := |widths|;
    RingTableArea(m, c, widths, pixelSizeM, year);
    RingRowsSums(LitArea(Select(m, WithinAt(c, pixelSizeM, widths[0])), pixelSizeM), BandArea(m, c, pixelSizeM),
                 widths, LitArea(m, pixelSizeM), year, n);
    var disc := Select(m, WithinAt(c, pixelSizeM, Bound(widths, n)));
    CountMono(disc, m);
    LitAreaCountMono(disc, m, pixelSizeM);
    PercentAtMost100(SumRingAreas(RingTable(m, c, widths, pixelSizeM, year)), LitArea(m, pixelSizeM));
  }

  // ---------------------------------------------------------------------
  // Directional sectors
  // ---------------------------------------------------------------------

  datatype SectorRecord = SectorRecord(sector: nat, direction: string, angleMin: real, angleMax: real,
                                       areaKm2: real, percentOfTotal: real, year: Option<int>)

  /** `angle_step = 360 / num_sectors`. */
  function AngleStep(n: nat): (step: real)
    requires n > 0
    ensures step > 0.0 && step * n as real == 360.0
  {
    360.0 / n as real
  }

  /** `angle_min` of sector `k`: `k * angle_step`. */
  function SectorStart(n: nat, k: nat): real
    requires n > 0
  {
    k as real * AngleStep(n)
  }

  /** Consecutive sectors share a bound, and the `n`-th start is 360. */
  lemma SectorStartFacts(n: nat, k: nat)
    requires 0 < n
    ensures SectorStart(n, k + 1) == SectorStart(n, k) + AngleStep(n)
    ensures SectorStart(n, 0) == 0.0 && SectorStart(n, n) == 360.0
    ensures k <= n ==> 0.0 <= SectorStart(n, k) <= 360.0
  {
    MulAdd(k as real, 1.0, AngleStep(n));
    if k <= n {
      MulMonoReal(k as real, n as real, AngleStep(n));
      MulMonoReal(0.0, k as real, AngleStep(n));
    }
  }

  /**
   * The angle map at cell (i, j):
   * `(arctan2(x - cx, y - cy) * 180 / pi + 180) % 360`, always in [0, 360).
   */
  function AngleAt(i: int, j: int, c: Centroid, atan2Deg: (real, real) -> real): (a: real)
    ensures 0.0 <= a < 360.0
  {
    Mod360(atan2Deg(j as real - c.col, i as real - c.row) + 180.0)
  }

  /** The sector test, with its wrap-around branch for an upper bound past 360. */
  predicate InSector(angle: real, angleMin: real, angleMax: real) {
    if angleMax > 360.0 then angle >= angleMin || angle < Mod360(angleMax)
    else angleMin <= angle < angleMax
  }

  /** Cell predicate: the cell's angle passes the sector test for `[lo, hi)`. */
  function SectorAt(c: Centroid, atan2Deg: (real, real) -> real, lo: real, hi: real): (int, int) -> bool {
    (i, j) => InSector(AngleAt(i, j, c, atan2Deg), lo, hi)
  }

  /** `int(sector * 16 / num_sectors) % 16`, the sector's label in `Directions`. */
  function SectorDirection(n: nat, k: nat): string
    requires n > 0
  {
    Directions[(k * 16 / n) % 16]
  }

  /**
   * Row `k` of a sector table, given the area of any sector `[lo, hi)`:
   * the body of the loop over sectors.
   */
  function SectorRow(n: nat, sectorArea: (real, real) -> real, total: real, year: Option<int>, k: nat): SectorRecord
    requires n > 0
  {
    var lo := SectorStart(n, k);
    var hi := lo + AngleStep(n);
    var area := sectorArea(lo, hi);
    SectorRecord(k, SectorDirection(n, k), lo, hi, area, Percent(area, total), YearColumn(year))
  }

  /** The first `k` rows of a sector table. */
  function SectorRows(n: nat, sectorArea: (real, real) -> real, total: real, year: Option<int>, k: nat): (t: seq<SectorRecord>)
    requires n > 0
    ensures |t| == k
  {
    if k == 0 then [] else SectorRows(n, sectorArea, total, year, k - 1) + [SectorRow(n, sectorArea, total, year, k - 1)]
  }

  /** Lit area of the sector `[lo, hi)` around `c`, as a function of the bounds. */
  function SectorArea(m: Mask, c: Centroid, atan2Deg: (real, real) -> real, pixelSizeM: real): (real, real) -> real {
    (lo, hi) => LitArea(Select(m, SectorAt(c, atan2Deg, lo, hi)), pixelSizeM)
  }

  /** The sector table of `analyze_directional_expansion` for a mask and a centroid. */
  function SectorTable(m: Mask, c: Centroid, n: nat, pixelSizeM: real, year: Option<int>, atan2Deg: (real, real) -> real)
    : (t: seq<SectorRecord>)
    requires n > 0
    ensures |t| == n
  {
    SectorRows(n, SectorArea(m, c, atan2Deg, pixelSizeM), LitArea(m, pixelSizeM), year, n)
  }

  /**
   * `analyze_directional_expansion`: None without a centroid; otherwise one
   * row per sector, in sector order.  `atan2Deg` stands for
   * `arctan2(y, x) * 180 / pi`.
   */
  method AnalyzeDirectionalExpansion(m: Mask, centroid: Option<Centroid>, n: nat, pixelSizeM: real, year: Option<int>,
                                     atan2Deg: (real, real) -> real)
    returns (table: Option<seq<SectorRecord>>)
    requires centroid.Some? ==> n > 0
    ensures centroid.None? ==> table.None?
    ensures centroid.Some? ==> table == Some(SectorTable(m, centroid.value, n, pixelSizeM, year, atan2Deg))
  {
    if centroid.None? {
      return None;
    }
    var c := centroid.value;
    var records := SectorLoop(n, SectorArea(m, c, atan2Deg, pixelSizeM), LitArea(m, pixelSizeM), year);
    return Some(records);
  }

  /** The `for sector in range(num_sectors)` loop, one row per sector. */
  method SectorLoop(n: nat, sectorArea: (real, real) -> real, total: real, year: Option<int>)
    returns (records: seq<SectorRecord>)
    requires n > 0
    ensures records == SectorRows(n, sectorArea, total, year, n)
  {
    records := [];
    var k := 0;
    while k < n
      invariant 0 <= k <= n
      invariant records == SectorRows(n, sectorArea, total, year, k)
    {
      records := records + [SectorRow(n, sectorArea, total, year, k)];
      k := k + 1;
    }
  }

  /** A shorter sector table is a prefix of a longer one. */
  lemma {:induction false} SectorRowsPrefix(n: nat, sectorArea: (real, real) -> real, total: real, year: Option<int>,
                                            k: nat, l: nat)
    requires 0 < n && l < k
    ensures SectorRows(n, sectorArea, total, year, k)[l] == SectorRow(n, sectorArea, total, year, l)
  {
    if l < k - 1 {
      SectorRowsPrefix(n, sectorArea, total, year, k - 1, l);
    }
  }

  /**
   * Sector `l` of `n` spans `[l * 360 / n, (l + 1) * 360 / n)`: it lies
   * within [0, 360], so the wrap-around branch never applies, and the last
   * sector ends at 360.
   */
  lemma SectorBounds(n: nat, l: nat)
    requires l < n
    ensures SectorStart(n, l) * n as real == l as real * 360.0
    ensures 0.0 <= SectorStart(n, l) < SectorStart(n, l) + AngleStep(n) <= 360.0
    ensures l == n - 1 ==> SectorStart(n, l) + AngleStep(n) == 360.0
  {
    SectorStartFacts(n, l);
    SectorStartFacts(n, l + 1);
    assert SectorStart(n, l) * n as real == l as real * 360.0 by {
      assert AngleStep(n) * n as real == 360.0;
    }
  }

  /**
   * Row `l` is sector `l`, starting where the previous row ends, with the
   * label, area, percent and year column of that sector.
   */
  lemma SectorRowsShape(n: nat, sectorArea: (real, real) -> real, total: real, year: Option<int>, l: nat)
    requires l < n
    ensures var t := SectorRows(n, sectorArea, total, year, n);
      && t[l].sector == l
      && t[l].angleMin == SectorStart(n, l)
      && t[l].angleMax == t[l].angleMin + AngleStep(n)
      && (l > 0 ==> t[l].angleMin == t[l - 1].angleMax)
      && t[l].direction == SectorDirection(n, l)
      && t[l].areaKm2 == sectorArea(t[l].angleMin, t[l].angleMax)
      && t[l].percentOfTotal == Percent(t[l].areaKm2, total)
      && t[l].year == YearColumn(year)
  {
    SectorRowsPrefix(n, sectorArea, total, year, n, l);
    if l > 0 {
      SectorRowsPrefix(n, sectorArea, total, year, n, l - 1);
      SectorStartFacts(n, l - 1);
    }
  }

  /** With eight sectors the labels are N, NE, E, SE, S, SW, W, NW in sector order. */
  lemma OctantLabels()
    ensures SectorDirection(8, 0) == "N" && SectorDirection(8, 1) == "NE"
    ensures SectorDirection(8, 2) == "E" && SectorDirection(8, 3) == "SE"
    ensures SectorDirection(8, 4) == "S" && SectorDirection(8, 5) == "SW"
    ensures SectorDirection(8, 6) == "W" && SectorDirection(8, 7) == "NW"
  {
    assert Directions[0] == "N" && Directions[2] == "NE" && Directions[4] == "E" && Directions[6] == "SE";
    assert Directions[8] == "S" && Directions[10] == "SW" && Directions[12] == "W" && Directions[14] == "NW";
  }

  // Sectors tile the circle

  /** Cell predicate: the cell's angle is below `b`. */
  function AngleBelow(c: Centroid, atan2Deg: (real, real) -> real, b: real): (int, int) -> bool {
    (i, j) => AngleAt(i, j, c, atan2Deg) < b
  }

  /** Lit cells of `m` in the sector `[lo, hi)` around `c`, as a function of the bounds. */
  function SectorCounter(m: Mask, c: Centroid, atan2Deg: (real, real) -> real): (real, real) -> nat {
    (lo, hi) => Count(Select(m, SectorAt(c, atan2Deg, lo, hi)))
  }

  /** Sum of `count` over the first `k` of `n` sectors. */
  function SectorCountSum(count: (real, real) -> nat, n: nat, k: nat): nat
    requires n > 0
  {
    if k == 0 then 0
    else SectorCountSum(count, n, k - 1) + count(SectorStart(n, k - 1), SectorStart(n, k - 1) + AngleStep(n))
  }

  /** For an angle `a >= 0` and a sector ending by 360, "below the end" is "below the start" or "in the sector", not both. */
  lemma SectorSplit(a: real, lo: real, step: real)
    requires 0.0 <= a && 0.0 < step && lo + step <= 360.0
    ensures (a < lo + step) == (a < lo || InSector(a, lo, lo + step))
    ensures !(a < lo && InSector(a, lo, lo + step))
  {
  }

  /** Lit cells of `m` whose angle is below `b`, as a function of `b`. */
  function BelowCounter(m: Mask, c: Centroid, atan2Deg: (real, real) -> real): real -> nat {
    b => Count(Select(m, AngleBelow(c, atan2Deg, b)))
  }

  /** No angle is below 0. */
  lemma NothingBelowZero(m: Mask, c: Centroid, atan2Deg: (real, real) -> real)
    ensures BelowCounter(m, c, atan2Deg)(0.0) == 0
  {
    CountZeroIff(Select(m, AngleBelow(c, atan2Deg, 0.0)));
  }

  /** Below the end of sector `k` is below its start, plus sector `k`. */
  lemma SectorTileStep(m: Mask, c: Centroid, atan2Deg: (real, real) -> real, n: nat, k: nat)
    requires k < n
    ensures BelowCounter(m, c, atan2Deg)(SectorStart(n, k) + AngleStep(n))
      == BelowCounter(m, c, atan2Deg)(SectorStart(n, k))
       + SectorCounter(m, c, atan2Deg)(SectorStart(n, k), SectorStart(n, k) + AngleStep(n))
  {
    var lo, hi := SectorStart(n, k), SectorStart(n, k) + AngleStep(n);
    SectorStartFacts(n, k);
    SectorStartFacts(n, k + 1);
    var below := Select(m, AngleBelow(c, atan2Deg, hi));
    var inner := Select(m, AngleBelow(c, atan2Deg, lo));
    var sector := Select(m, SectorAt(c, atan2Deg, lo, hi));
    forall i, j | 0 <= i < |below| && 0 <= j < |below[i]|
      ensures below[i][j] == (inner[i][j] || sector[i][j]) && !(inner[i][j] && sector[i][j])
    {
      SectorSplit(AngleAt(i, j, c, atan2Deg), lo, AngleStep(n));
    }
    CountSplit(below, inner, sector);
  }

  /**
   * Counting by sectors: when nothing is below 0 and each sector adds to
   * "below its start" exactly "below its end", the first `k` sectors add up
   * to "below the `k`-th bound".
   */
  lemma {:induction false} TileSum(count: (real, real) -> nat, below: real -> nat, n: nat, k: nat)
    requires 0 < n && k <= n
    requires below(0.0) == 0
    requires forall l | 0 <= l < n ::
      below(SectorStart(n, l) + AngleStep(n)) == below(SectorStart(n, l)) + count(SectorStart(n, l), SectorStart(n, l) + AngleStep(n))
    ensures SectorCountSum(count, n, k) == below(SectorStart(n, k))
  {
    SectorStartFacts(n, k);
    if k > 0 {
      TileSum(count, below, n, k - 1);
      SectorStartFacts(n, k - 1);
    }
  }

  /**
   * The first `k` sectors are disjoint and together hold exactly the lit
   * cells whose angle is below the `k`-th bound.
   */
  lemma SectorsTile(m: Mask, c: Centroid, atan2Deg: (real, real) -> real, n: nat, k: nat)
    requires 0 < n && k <= n
    ensures SectorCountSum(SectorCounter(m, c, atan2Deg), n, k) == BelowCounter(m, c, atan2Deg)(SectorStart(n, k))
  {
    NothingBelowZero(m, c, atan2Deg);
    forall l | 0 <= l < n
      ensures BelowCounter(m, c, atan2Deg)(SectorStart(n, l) + AngleStep(n))
        == BelowCounter(m, c, atan2Deg)(SectorStart(n, l))
         + SectorCounter(m, c, atan2Deg)(SectorStart(n, l), SectorStart(n, l) + AngleStep(n))
    {
      SectorTileStep(m, c, atan2Deg, n, l);
    }
    TileSum(SectorCounter(m, c, atan2Deg), BelowCounter(m, c, atan2Deg), n, k);
  }

  /** All `n` sectors together hold every lit cell exactly once. */
  lemma SectorsCoverAll(m: Mask, c: Centroid, atan2Deg: (real, real) -> real, n: nat)
    requires 0 < n
    ensures SectorCountSum(SectorCounter(m, c, atan2Deg), n, n) == Count(m)
  {
    SectorsTile(m, c, atan2Deg, n, n);
    SectorStartFacts(n, n);
    assert BelowCounter(m, c, atan2Deg)(360.0) == Count(Select(m, AngleBelow(c, atan2Deg, 360.0)));
    CountExt(Select(m, AngleBelow(c, atan2Deg, 360.0)), m);
  }

  function SumSectorAreas(t: seq<SectorRecord>): real {
    if |t| == 0 then 0.0 else SumSectorAreas(t[..|t| - 1]) + t[|t| - 1].areaKm2
  }

  function SumSectorPercents(t: seq<SectorRecord>): real {
    if |t| == 0 then 0.0 else SumSectorPercents(t[..|t| - 1]) + t[|t| - 1].percentOfTotal
  }

  /** When every sector's area is that of its pixel count, so is the rows' total; percents add up likewise. */
  lemma SectorRowsSums(n: nat, sectorArea: (real, real) -> real, count: (real, real) -> nat,
                       pixelSizeM: real, total: real, year: Option<int>, k: nat)
    requires 0 < n
    requires forall lo, hi :: sectorArea(lo, hi) == AreaKm2(count(lo, hi), pixelSizeM)
    ensures SumSectorAreas(SectorRows(n, sectorArea, total, year, k)) == AreaKm2(SectorCountSum(count, n, k), pixelSizeM)
    ensures SumSectorPercents(SectorRows(n, sectorArea, total, year, k))
      == Percent(SumSectorAreas(SectorRows(n, sectorArea, total, year, k)), total)
  {
    SectorRowsAreaSum(n, sectorArea, count, pixelSizeM, total, year, k);
    SectorRowsPercentSum(n, sectorArea, total, year, k);
  }

  lemma {:induction false} SectorRowsAreaSum(n: nat, sectorArea: (real, real) -> real, count: (real, real) -> nat,
                                             pixelSizeM: real, total: real, year: Option<int>, k: nat)
    requires 0 < n
    requires forall lo, hi :: sectorArea(lo, hi) == AreaKm2(count(lo, hi), pixelSizeM)
    ensures SumSectorAreas(SectorRows(n, sectorArea, total, year, k)) == AreaKm2(SectorCountSum(count, n, k), pixelSizeM)
  {
    if k > 0 {
      SectorRowsAreaSum(n, sectorArea, count, pixelSizeM, total, year, k - 1);
      var t' := SectorRows(n, sectorArea, total, year, k - 1);
      var r := SectorRow(n, sectorArea, total, year, k - 1);
      SumSectorAreasAppend(t', r);
      var lo := SectorStart(n, k - 1);
      assert r.areaKm2 == AreaKm2(count(lo, lo + AngleStep(n)), pixelSizeM);
      AreaKm2Add(SectorCountSum(count, n, k - 1), count(lo, lo + AngleStep(n)), pixelSizeM);
    }
  }

  lemma SumSectorAreasAppend(t: seq<SectorRecord>, r: SectorRecord)
    ensures SumSectorAreas(t + [r]) == SumSectorAreas(t) + r.areaKm2
  {
    assert (t + [r])[..|t|] == t;
  }

  lemma SectorRowsPercentSum(n: nat, sectorArea: (real, real) -> real, total: real, year: Option<int>, k: nat)
    requires 0 < n
    ensures SumSectorPercents(SectorRows(n, sectorArea, total, year, k))
      == Percent(SumSectorAreas(SectorRows(n, sectorArea, total, year, k)), total)
  {
    var t := SectorRows(n, sectorArea, total, year, k);
    forall l | 0 <= l < |t| ensures t[l].percentOfTotal == Percent(t[l].areaKm2, total) {
      SectorRowsPrefix(n, sectorArea, total, year, k, l);
    }
    PercentsSum(t, total);
  }

  /** Percents of one total add up to the percent of the summed areas. */
  lemma {:induction false} PercentsSum(t: seq<SectorRecord>, total: real)
    requires forall l | 0 <= l < |t| :: t[l].percentOfTotal == Percent(t[l].areaKm2, total)
    ensures SumSectorPercents(t) == Percent(SumSectorAreas(t), total)
  {
    if |t| > 0 {
      var init := t[..|t| - 1];
      assert forall l | 0 <= l < |init| :: init[l] == t[l];
      PercentsSum(init, total);
      PercentAdd(SumSectorAreas(init), t[|t| - 1].areaKm2, total);
    }
  }

  /** Every sector's area is that of its lit count. */
  lemma SectorAreaScaled(m: Mask, c: Centroid, atan2Deg: (real, real) -> real, pixelSizeM: real)
    ensures forall lo, hi ::
      SectorArea(m, c, atan2Deg, pixelSizeM)(lo, hi) == AreaKm2(SectorCounter(m, c, atan2Deg)(lo, hi), pixelSizeM)
  {
  }

  /** The sectors partition the circle: their areas add up to the total lit area. */
  lemma SectorTableArea(m: Mask, c: Centroid, n: nat, pixelSizeM: real, year: Option<int>, atan2Deg: (real, real) -> real)
    requires 0 < n
    ensures SumSectorAreas(SectorTable(m, c, n, pixelSizeM, year, atan2Deg)) == LitArea(m, pixelSizeM)
  {
    SectorAreaScaled(m, c, atan2Deg, pixelSizeM);
    SectorRowsSums(n, SectorArea(m, c, atan2Deg, pixelSizeM), SectorCounter(m, c, atan2Deg), pixelSizeM,
                   LitArea(m, pixelSizeM), year, n);
    SectorsCoverAll(m, c, atan2Deg, n);
  }

  /** The whole is 100 percent of itself. */
  lemma PercentWhole(total: real)
    requires total > 0.0
    ensures Percent(total, total) == 100.0
  {
  }

  /** So the sectors' percents add up to 100, or to 0 when nothing is lit. */
  lemma SectorTableSums(m: Mask, c: Centroid, n: nat, pixelSizeM: real, year: Option<int>, atan2Deg: (real, real) -> real)
    requires 0 < n
    ensures LitArea(m, pixelSizeM) > 0.0 ==> SumSectorPercents(SectorTable(m, c, n, pixelSizeM, year, atan2Deg)) == 100.0
    ensures LitArea(m, pixelSizeM) <= 0.0 ==> SumSectorPercents(SectorTable(m, c, n, pixelSizeM, year, atan2Deg)) == 0.0
  {
    SectorAreaScaled(m, c, atan2Deg, pixelSizeM);
    SectorRowsSums(n, SectorArea(m, c, atan2Deg, pixelSizeM), SectorCounter(m, c, atan2Deg), pixelSizeM,
                   LitArea(m, pixelSizeM), year, n);
    SectorTableArea(m, c, n, pixelSizeM, year, atan2Deg);
    if LitArea(m, pixelSizeM) > 0.0 {
      PercentWhole(LitArea(m, pixelSizeM));
    }
  }

  // Axis conventions as written

  /** `arctan2(y, x)` in degrees on the four half-axes. */
  ghost predicate Atan2OnAxes(atan2Deg: (real, real) -> real) {
    && (forall x: real | x > 0.0 :: atan2Deg(0.0, x) == 0.0)
    && (forall y: real | y > 0.0 :: atan2Deg(y, 0.0) == 90.0)
    && (forall x: real | x < 0.0 :: atan2Deg(0.0, x) == 180.0)
    && (forall y: real | y < 0.0 :: atan2Deg(y, 0.0) == -90.0)
  }

  /**
   * The sector angle map runs counter-clockwise from north on a grid whose
   * rows grow southward, while the labels run clockwise: with eight
   * sectors a lit cell due north is in sector 0 ("N") and one due south in
   * sector 4 ("S"), but one due west is in sector 2, labelled "E", and one
   * due east in sector 6, labelled "W".
   */
  lemma SectorAxes(c: Centroid, atan2Deg: (real, real) -> real, i: int, j: int)
    requires Atan2OnAxes(atan2Deg)
    ensures i as real < c.row && j as real == c.col ==> AngleAt(i, j, c, atan2Deg) == 0.0 && SectorDirection(8, 0) == "N"
    ensures i as real > c.row && j as real == c.col ==> AngleAt(i, j, c, atan2Deg) == 180.0 && SectorDirection(8, 4) == "S"
    ensures i as real == c.row && j as real < c.col ==> AngleAt(i, j, c, atan2Deg) == 90.0 && SectorDirection(8, 2) == "E"
    ensures i as real == c.row && j as real > c.col ==> AngleAt(i, j, c, atan2Deg) == 270.0 && SectorDirection(8, 6) == "W"
    ensures SectorStart(8, 0) == 0.0 && SectorStart(8, 2) == 90.0 && SectorStart(8, 4) == 180.0 && SectorStart(8, 6) == 270.0
    ensures AngleStep(8) == 45.0
  {
    assert Mod360(360.0) == 0.0;
  }

  /**
   * The displacement bearing is `arctan2(dcol, drow)`: on a grid whose rows
   * grow southward a move due south has bearing 0 ("N") and one due north
   * bearing 180 ("S"); moves due east and west get 90 ("E") and 270 ("W").
   */
  lemma ShiftAxes(c1: Centroid, c2: Centroid, atan2Deg: (real, real) -> real)
    requires Atan2OnAxes(atan2Deg)
    ensures c2.col == c1.col && c2.row > c1.row ==> (Shift(0, 1, c1, c2, atan2Deg).bearing == 0.0
                                                        && Shift(0, 1, c1, c2, atan2Deg).direction == "N")
    ensures c2.col == c1.col && c2.row < c1.row ==> (Shift(0, 1, c1, c2, atan2Deg).bearing == 180.0
                                                        && Shift(0, 1, c1, c2, atan2Deg).direction == "S")
    ensures c2.row == c1.row && c2.col > c1.col ==> (Shift(0, 1, c1, c2, atan2Deg).bearing == 90.0
                                                        && Shift(0, 1, c1, c2, atan2Deg).direction == "E")
    ensures c2.row == c1.row && c2.col < c1.col ==> (Shift(0, 1, c1, c2, atan2Deg).bearing == 270.0
                                                        && Shift(0, 1, c1, c2, atan2Deg).direction == "W")
  {
    CompassPoints();
  }
}
