/** Resolving a spot label to the pixels of its region of interest
    (scripts/spot_distance_calculation.py, lines 39-42): the ROI index
    table is searched for rows whose `Name` equals the label, the `Index`
    of the first such row names the pixel file `<Index>.csv`, and that
    file's `X`, `Y` columns are the ROI's pixels. */
module Rois {
  import opened Types

  /** One row of the ROI index table; `index` is already text. */
  datatype RoiEntry = RoiEntry(name: string, index: string)

  /** Pixel files of the experiment folder, keyed by their stem `<Index>`. */
  type PixelFiles = map<string, seq<Point>>

  ghost predicate IsFirstMatch(rois: seq<RoiEntry>, spotLabel: string, j: int) {
    && 0 <= j < |rois|
    && rois[j].name == spotLabel
    && forall i :: 0 <= i < j ==> rois[i].name != spotLabel
  }

  /** The position of the first row named exactly `spotLabel`, which is the
      one `values[0]` picks from the selection. */
  function FirstMatch(rois: seq<RoiEntry>, spotLabel: string): (r: Option<nat>)
    ensures r.Some? ==> IsFirstMatch(rois, spotLabel, r.value)
    ensures r.None? <==> forall j :: 0 <= j < |rois| ==> rois[j].name != spotLabel
    decreases |rois|
  {
    if rois == [] then None
    else if rois[0].name == spotLabel then Some(0)
    else match FirstMatch(rois[1..], spotLabel)
      case None => None
      case Some(j) => Some(j + 1)
  }

  /** The ROI pixels of a spot, or why they cannot be read. */
  function ResolveRoi(rois: seq<RoiEntry>, files: PixelFiles, spotLabel: string): (r: Result<seq<Point>>)
    ensures r.Failure? ==> r.error.NoRoi? || r.error.MissingRoiFile?
    ensures r == Failure(NoRoi(spotLabel)) <==> forall j :: 0 <= j < |rois| ==> rois[j].name != spotLabel
    ensures r.Success? ==>
      exists j :: IsFirstMatch(rois, spotLabel, j) && rois[j].index in files && r.value == files[rois[j].index]
    ensures r.Failure? && r.error.MissingRoiFile? ==>
      exists j :: IsFirstMatch(rois, spotLabel, j) && r.error.index == rois[j].index && rois[j].index !in files
  {
    match FirstMatch(rois, spotLabel)
    case None => Failure(NoRoi(spotLabel))
    case Some(j) =>
      var index := rois[j].index;
      if index in files then Success(files[index]) else Failure(MissingRoiFile(index))
  }

  /** With duplicate names the first row wins: rows after a match never
      change what a label resolves to. */
  lemma {:induction false} LaterRowsIgnored(rois: seq<RoiEntry>, more: seq<RoiEntry>, files: PixelFiles, spotLabel: string)
    requires FirstMatch(rois, spotLabel).Some?
    ensures FirstMatch(rois + more, spotLabel) == FirstMatch(rois, spotLabel)
    ensures ResolveRoi(rois + more, files, spotLabel) == ResolveRoi(rois, files, spotLabel)
    decreases |rois|
  {
    assert (rois + more)[0] == rois[0];
    if rois[0].name != spotLabel {
      assert (rois + more)[1..] == rois[1..] + more;
      LaterRowsIgnored(rois[1..], more, files, spotLabel);
    }
  }
}
