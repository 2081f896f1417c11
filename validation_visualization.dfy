/**
 * The visualisation variant of the validation: a fixed block-averaging
 * factor followed by the crop, the joint classification map written by
 * masked assignment into a zero-initialised array, and the summary counts
 * and metrics read back from that map.
 */
module ValidationVisualization {
  import opened Grids
  import opened Validation

  /** About 463 m / 30 m, fixed whatever the rasters' pixel sizes. */
  const DownsampleFactor: nat := 15

  /** The NDBI threshold of the joint classification. */
  const NdbiThreshold: real := 0.1

  /**
   * `match_spatial_extent` of the visualisation: the fine grid block-averaged
   * by 15, then both grids cropped to their common top-left extent.
   */
  method MatchSpatialExtentFixed(coarse: seq<seq<int>>, ndbi: CellGrid) returns (c: seq<seq<int>>, f: CellGrid)
    requires Rect(coarse) && Rect(ndbi)
    ensures (c, f) == CropToCommonExtent(coarse, Downsample(ndbi, DownsampleFactor))
  {
    var ds := BlockAverage(ndbi, DownsampleFactor);
    var r := CropToCommonExtent(coarse, GridOf(ds));
    c, f := r.0, r.1;
  }

  // ---------------------------------------------------------------------
  // Joint classification
  // ---------------------------------------------------------------------

  /**
   * The documented joint class: 3 both urban, 1 coarse urban only, 2 fine
   * urban only, 0 both non-urban.  A coarse value outside {0, 1} matches no
   * case and keeps the initial 0.
   */
  function JointCode(v: int, urban: bool): int {
    if v == 1 && urban then 3
    else if v == 1 then 1
    else if v == 0 && urban then 2
    else 0
  }

  /** The joint classification map of a coarse mask and an NDBI grid. */
  function JointGrid(coarse: seq<seq<int>>, ndbi: CellGrid, threshold: real): (joint: seq<seq<int>>)
    requires SameShape(coarse, ndbi)
    ensures SameShape(joint, coarse)
    ensures forall i, j | 0 <= i < |coarse| && 0 <= j < |coarse[i]| ::
      joint[i][j] == JointCode(coarse[i][j], Urban(ndbi[i][j], threshold))
  {
    seq(|coarse|, i requires 0 <= i < |coarse| =>
      seq(|coarse[i]|, j requires 0 <= j < |coarse[i]| => JointCode(coarse[i][j], Urban(ndbi[i][j], threshold))))
  }

  /** `joint[(coarse == v) & (fine == urban)] = code`. */
  method AssignWhere(joint: array2<int>, coarse: seq<seq<int>>, fine: Mask, v: int, urban: bool, code: int)
    requires Rect(coarse) && Congruent(coarse, fine)
    requires joint.Length0 == |coarse| && joint.Length1 == Cols(coarse)
    modifies joint
    ensures forall i, j | 0 <= i < joint.Length0 && 0 <= j < joint.Length1 ::
      joint[i, j] == if coarse[i][j] == v && fine[i][j] == urban then code else old(joint[i, j])
  {
    for i := 0 to joint.Length0
      invariant forall i', j | 0 <= i' < i && 0 <= j < joint.Length1 ::
        joint[i', j] == if coarse[i'][j] == v && fine[i'][j] == urban then code else old(joint[i', j])
      invariant forall i', j | i <= i' < joint.Length0 && 0 <= j < joint.Length1 :: joint[i', j] == old(joint[i', j])
    {
      for j := 0 to joint.Length1
        invariant forall i', j' | 0 <= i' < i && 0 <= j' < joint.Length1 ::
          joint[i', j'] == if coarse[i'][j'] == v && fine[i'][j'] == urban then code else old(joint[i', j'])
        invariant forall j' | 0 <= j' < j ::
          joint[i, j'] == if coarse[i][j'] == v && fine[i][j'] == urban then code else old(joint[i, j'])
        invariant forall i', j' | i <= i' < joint.Length0 && 0 <= j' < joint.Length1 && (i' > i || j' >= j) ::
          joint[i', j'] == old(joint[i', j'])
      {
        if coarse[i][j] == v && fine[i][j] == urban {
          joint[i, j] := code;
        }
      }
    }
  }

  /**
   * `create_joint_classification`: a zero array, then the four masked
   * assignments; the result is the documented joint class of every cell.
   */
  method CreateJointClassification(coarse: seq<seq<int>>, ndbi: CellGrid, threshold: real) returns (joint: array2<int>)
    requires SameShape(coarse, ndbi)
    ensures fresh(joint)
    ensures GridOf(joint) == JointGrid(coarse, ndbi, threshold)
  {
    var fine := FineMask(ndbi, threshold);
    joint := new int[|coarse|, Cols(coarse)]((_, _) => 0);
    AssignWhere(joint, coarse, fine, 0, false, 0);
    AssignWhere(joint, coarse, fine, 1, false, 1);
    AssignWhere(joint, coarse, fine, 0, true, 2);
    AssignWhere(joint, coarse, fine, 1, true, 3);
    var expected := JointGrid(coarse, ndbi, threshold);
    forall i | 0 <= i < |coarse| ensures GridOf(joint)[i] == expected[i] {
    }
  }

  /** On a binary coarse mask the joint class is `coarse + 2 * fine`. */
  lemma JointIsSum(coarse: seq<seq<int>>, ndbi: CellGrid, threshold: real)
    requires SameShape(coarse, ndbi) && Binary(coarse)
    ensures var joint := JointGrid(coarse, ndbi, threshold);
      forall i, j | 0 <= i < |coarse| && 0 <= j < |coarse[i]| ::
        joint[i][j] == coarse[i][j] + 2 * (if FineMask(ndbi, threshold)[i][j] then 1 else 0)
  {
  }

  // ---------------------------------------------------------------------
  // Summary counts and metrics
  // ---------------------------------------------------------------------

  /** TP, FP, FN and TN as the cells of joint class 3, 1, 2 and 0. */
  function SummaryCounts(joint: seq<seq<int>>): Confusion {
    Confusion(Count(CoarseIs(joint, 3)), Count(CoarseIs(joint, 1)), Count(CoarseIs(joint, 2)), Count(CoarseIs(joint, 0)))
  }

  /** Every cell of the joint map is counted exactly once. */
  lemma SummaryTotal(coarse: seq<seq<int>>, ndbi: CellGrid, threshold: real)
    requires SameShape(coarse, ndbi)
    ensures Total(SummaryCounts(JointGrid(coarse, ndbi, threshold))) == |coarse| * Cols(coarse)
  {
    var joint := JointGrid(coarse, ndbi, threshold);
    CoarsePartition(joint);
    CountSplit(NonBinary(joint), CoarseIs(joint, 2), CoarseIs(joint, 3));
  }

  /**
   * The summary counts are the confusion counts, except that a coarse value
   * outside {0, 1} keeps joint class 0 and is counted as TN.
   */
  lemma SummaryVersusConfusion(coarse: seq<seq<int>>, ndbi: CellGrid, threshold: real)
    requires SameShape(coarse, ndbi)
    ensures var s, c := SummaryCounts(JointGrid(coarse, ndbi, threshold)), ConfusionMatrix(coarse, ndbi, threshold);
      s.tp == c.tp && s.fp == c.fp && s.fn == c.fn && s.tn == c.tn + Count(NonBinary(coarse))
    ensures Binary(coarse) ==> SummaryCounts(JointGrid(coarse, ndbi, threshold)) == ConfusionMatrix(coarse, ndbi, threshold)
  {
    ClassCount(coarse, ndbi, threshold, 3, 1, true);
    ClassCount(coarse, ndbi, threshold, 1, 1, false);
    ClassCount(coarse, ndbi, threshold, 2, 0, true);
    NeitherCount(coarse, ndbi, threshold);
    CountZeroIff(NonBinary(coarse));
  }

  /** Classes 3, 1 and 2 are exactly the cells of one confusion count each. */
  lemma ClassCount(coarse: seq<seq<int>>, ndbi: CellGrid, threshold: real, code: int, v: int, urban: bool)
    requires SameShape(coarse, ndbi)
    requires (code, v, urban) == (3, 1, true) || (code, v, urban) == (1, 1, false) || (code, v, urban) == (2, 0, true)
    ensures Count(CoarseIs(JointGrid(coarse, ndbi, threshold), code)) == Count(Where(coarse, FineMask(ndbi, threshold), v, urban))
  {
    CountExt(CoarseIs(JointGrid(coarse, ndbi, threshold), code), Where(coarse, FineMask(ndbi, threshold), v, urban));
  }

  /** Class 0 holds the TN cells and the cells whose coarse value is outside {0, 1}. */
  lemma NeitherCount(coarse: seq<seq<int>>, ndbi: CellGrid, threshold: real)
    requires SameShape(coarse, ndbi)
    ensures Count(CoarseIs(JointGrid(coarse, ndbi, threshold), 0))
      == Count(Where(coarse, FineMask(ndbi, threshold), 0, false)) + Count(NonBinary(coarse))
  {
    CountSplit(CoarseIs(JointGrid(coarse, ndbi, threshold), 0), Where(coarse, FineMask(ndbi, threshold), 0, false), NonBinary(coarse));
  }

  datatype Summary = Summary(overallAccuracy: real, sensitivity: real, precision: real)

  /** The summary panel's OA, sensitivity and precision. */
  function SummaryMetrics(c: Confusion): Summary {
    Summary(Ratio(c.tp + c.tn, Total(c)), Ratio(c.tp, c.tp + c.fn), Ratio(c.tp, c.tp + c.fp))
  }

  /** The panel's three figures are OA, PA and UA of the validation metrics. */
  lemma SummaryIsAccuracy(c: Confusion)
    ensures var m := AccuracyMetrics(c);
      SummaryMetrics(c) == Summary(m.overallAccuracy, m.producersAccuracy, m.usersAccuracy)
  {
  }

  /** On a binary coarse mask the panel agrees with the validation metrics of the same grids. */
  lemma SummaryAgreesWithValidation(coarse: seq<seq<int>>, ndbi: CellGrid, threshold: real)
    requires SameShape(coarse, ndbi) && Binary(coarse)
    ensures var m := AccuracyMetrics(ConfusionMatrix(coarse, ndbi, threshold));
      SummaryMetrics(SummaryCounts(JointGrid(coarse, ndbi, threshold)))
        == Summary(m.overallAccuracy, m.producersAccuracy, m.usersAccuracy)
  {
    SummaryVersusConfusion(coarse, ndbi, threshold);
    SummaryIsAccuracy(ConfusionMatrix(coarse, ndbi, threshold));
  }
}
