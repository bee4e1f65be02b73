/** The per-spot loop of scripts/spot_distance_calculation.py (lines 27-66):
    every spot with a track ID is resolved to its ROI pixels, measured
    against the foreground of its frame's mitochondria mask (or of the
    latest earlier frame that has foreground), and appended to the two
    result lists as its cleaned numeric ID and its closest approach.
    The first error stops the whole run, as the uncaught exception does. */
module SpotDistance {
  import opened Types
  import opened Labels
  import opened Rois
  import opened Masks
  import opened Geometry

  /** One row of the spot table after parsing: `trackId` is None where the
      table has NaN. */
  datatype Spot = Spot(frame: int, trackId: Option<int>, spotLabel: string)

  /** Everything the experiment folder provides besides the spot table. */
  datatype Inputs = Inputs(rois: seq<RoiEntry>, pixelFiles: PixelFiles, masks: Masks)

  /** One line of the result table; the distance is kept squared. */
  datatype Row = Row(spotId: int, sqDist: nat)

  /** The work done for one tracked spot, in the order the script does it:
      ROI lookup and pixel file, mask with backward search, closest
      approach, then the ID. */
  function SpotRow(spot: Spot, inputs: Inputs): (r: Result<Row>)
    ensures r == Failure(NoRoi(spot.spotLabel)) <==>
      forall j :: 0 <= j < |inputs.rois| ==> inputs.rois[j].name != spot.spotLabel
    ensures r.Success? ==> CleanId(spot.spotLabel) == Success(r.value.spotId)
  {
    var pixels :- ResolveRoi(inputs.rois, inputs.pixelFiles, spot.spotLabel);
    var located :- LatestForeground(inputs.masks, spot.frame);
    if pixels == [] then Failure(EmptyRoi(spot.spotLabel))
    else
      var d := ClosestSq(pixels, located.points);
      var id :- CleanId(spot.spotLabel);
      Success(Row(id, d))
  }

  /** A successful row holds the closest approach between the spot's ROI and
      the foreground of the frame the backward search settled on. */
  lemma SpotRowIsClosestApproach(spot: Spot, inputs: Inputs)
    requires SpotRow(spot, inputs).Success?
    ensures ResolveRoi(inputs.rois, inputs.pixelFiles, spot.spotLabel).Success?
    ensures LatestForeground(inputs.masks, spot.frame).Success?
    ensures
      var d := SpotRow(spot, inputs).value.sqDist;
      var pixels := ResolveRoi(inputs.rois, inputs.pixelFiles, spot.spotLabel).value;
      var foreground := LatestForeground(inputs.masks, spot.frame).value.points;
      && pixels != []
      && (forall p, q :: p in pixels && q in foreground ==> d <= SqDist(p, q))
      && (exists p, q :: p in pixels && q in foreground && d == SqDist(p, q))
  {
  }

  /** When a tracked spot gets a row, and otherwise which error it stops
      with: the steps fail in the script's order, the ROI lookup and its
      pixel file first, then the mask search, then the empty minimum, then
      the ID. */
  lemma SpotRowOutcome(spot: Spot, inputs: Inputs)
    ensures
      var roi := ResolveRoi(inputs.rois, inputs.pixelFiles, spot.spotLabel);
      var located := LatestForeground(inputs.masks, spot.frame);
      && (SpotRow(spot, inputs).Success? <==>
           roi.Success? && located.Success? && roi.value != [] && !NoDigit(spot.spotLabel))
      && (roi.Failure? ==> SpotRow(spot, inputs) == Failure(roi.error))
      && (roi.Success? && located.Failure? ==> SpotRow(spot, inputs) == Failure(located.error))
      && (roi.Success? && located.Success? && roi.value == [] ==>
           SpotRow(spot, inputs) == Failure(EmptyRoi(spot.spotLabel)))
      && (roi.Success? && located.Success? && roi.value != [] && NoDigit(spot.spotLabel) ==>
           SpotRow(spot, inputs) == Failure(NoDigits(spot.spotLabel)))
  {
  }

  /** The spots that the loop does not skip, in order. */
  function Tracked(spots: seq<Spot>): (r: seq<Spot>)
    ensures |r| <= |spots|
    ensures forall i :: 0 <= i < |r| ==> r[i].trackId.Some?
    decreases |spots|
  {
    if spots == [] then []
    else
      var last := spots[|spots| - 1];
      Tracked(spots[..|spots| - 1]) + (if last.trackId.Some? then [last] else [])
  }

  /** A spot is kept exactly when it has a track ID. */
  lemma {:induction false} TrackedMembers(spots: seq<Spot>)
    ensures forall s :: s in Tracked(spots) <==> s in spots && s.trackId.Some?
    decreases |spots|
  {
    if spots != [] {
      var init := spots[..|spots| - 1];
      TrackedMembers(init);
      assert spots == init + [spots[|spots| - 1]];
    }
  }

  /** The whole loop: the rows appended, in iteration order, or the first
      failure. */
  function Process(spots: seq<Spot>, inputs: Inputs): (r: Result<seq<Row>>)
    ensures r.Success? ==> |r.value| == |Tracked(spots)|
    decreases |spots|
  {
    if spots == [] then Success([])
    else
      var rows :- Process(spots[..|spots| - 1], inputs);
      var spot := spots[|spots| - 1];
      if spot.trackId.None? then Success(rows)
      else
        var row :- SpotRow(spot, inputs);
        Success(rows + [row])
  }

  /** The result table as rows, from the two parallel lists. */
  function Rows(spotId: seq<int>, spotD: seq<nat>): (rows: seq<Row>)
    requires |spotId| == |spotD|
    ensures |rows| == |spotId|
    ensures forall k :: 0 <= k < |rows| ==> rows[k] == Row(spotId[k], spotD[k])
  {
    seq(|spotId|, k requires 0 <= k < |spotId| => Row(spotId[k], spotD[k]))
  }

  /** The ID and distance columns of a table of rows. */
  function Ids(rows: seq<Row>): (ids: seq<int>)
    ensures |ids| == |rows|
  {
    seq(|rows|, k requires 0 <= k < |rows| => rows[k].spotId)
  }

  function Dists(rows: seq<Row>): (dists: seq<nat>)
    ensures |dists| == |rows|
  {
    seq(|rows|, k requires 0 <= k < |rows| => rows[k].sqDist)
  }

  /** The two lists and the table of rows carry the same information:
      reading the columns of the rows gives back the lists, and pairing up
      the columns of a table gives back the table. */
  lemma RowsColumns(spotId: seq<int>, spotD: seq<nat>, rows: seq<Row>)
    requires |spotId| == |spotD|
    ensures Ids(Rows(spotId, spotD)) == spotId && Dists(Rows(spotId, spotD)) == spotD
    ensures Rows(Ids(rows), Dists(rows)) == rows
  {
  }

  lemma {:induction false} TrackedConcat(a: seq<Spot>, b: seq<Spot>)
    ensures Tracked(a + b) == Tracked(a) + Tracked(b)
    decreases |b|
  {
    if b == [] {
      assert a + b == a;
    } else {
      var init := b[..|b| - 1];
      assert (a + b)[..|a + b| - 1] == a + init;
      assert (a + b)[|a + b| - 1] == b[|b| - 1];
      TrackedConcat(a, init);
    }
  }

  /** Skipped spots play no part: the loop over all spots gives what the loop
      over the tracked ones gives. */
  lemma {:induction false} ProcessOnlyTracked(spots: seq<Spot>, inputs: Inputs)
    ensures Process(spots, inputs) == Process(Tracked(spots), inputs)
    decreases |spots|
  {
    if spots != [] {
      var init := spots[..|spots| - 1];
      var last := spots[|spots| - 1];
      ProcessOnlyTracked(init, inputs);
      if last.trackId.Some? {
        var t := Tracked(init) + [last];
        assert Tracked(spots) == t;
        assert Process(t, inputs) == Process(spots, inputs) by {
          assert t[..|t| - 1] == Tracked(init);
        }
      } else {
        assert Tracked(spots) == Tracked(init);
      }
    }
  }

  /** A spot without a track ID changes nothing about the others' results. */
  lemma SkipUntracked(before: seq<Spot>, spot: Spot, after: seq<Spot>, inputs: Inputs)
    requires spot.trackId.None?
    ensures Process(before + [spot] + after, inputs) == Process(before + after, inputs)
  {
    ProcessOnlyTracked(before + [spot] + after, inputs);
    ProcessOnlyTracked(before + after, inputs);
    TrackedConcat(before + [spot], after);
    TrackedConcat(before, [spot]);
    TrackedConcat(before, after);
    assert [spot][..0] == [];
    assert Tracked([spot]) == [];
    assert Tracked(before + [spot]) == Tracked(before);
    assert Tracked(before + [spot] + after) == Tracked(before + after);
  }

  /** The loop succeeds exactly when every tracked spot does, and then it has
      one row per tracked spot, in the order of the spots. */
  lemma {:induction false} ProcessSuccess(spots: seq<Spot>, inputs: Inputs)
    ensures Process(spots, inputs).Success? <==>
      forall k :: 0 <= k < |Tracked(spots)| ==> SpotRow(Tracked(spots)[k], inputs).Success?
    ensures Process(spots, inputs).Success? ==>
      && |Process(spots, inputs).value| == |Tracked(spots)|
      && forall k :: 0 <= k < |Tracked(spots)| ==>
           SpotRow(Tracked(spots)[k], inputs) == Success(Process(spots, inputs).value[k])
    decreases |spots|
  {
    if spots != [] {
      var init := spots[..|spots| - 1];
      var last := spots[|spots| - 1];
      ProcessSuccess(init, inputs);
      var t := Tracked(init);
      assert Tracked(spots) == t + (if last.trackId.Some? then [last] else []);
      assert forall k :: 0 <= k < |t| ==> Tracked(spots)[k] == t[k];
      if last.trackId.Some? {
        assert Tracked(spots)[|t|] == last;
      }
    }
  }

  /** A failing loop fails with the error of its first failing tracked spot. */
  lemma {:induction false} ProcessFirstFailure(spots: seq<Spot>, inputs: Inputs) returns (k: nat)
    requires Process(spots, inputs).Failure?
    ensures k < |Tracked(spots)|
    ensures SpotRow(Tracked(spots)[k], inputs) == Failure(Process(spots, inputs).error)
    ensures forall j :: 0 <= j < k ==> SpotRow(Tracked(spots)[j], inputs).Success?
    decreases |spots|
  {
    var init := spots[..|spots| - 1];
    var last := spots[|spots| - 1];
    var t := Tracked(init);
    assert Tracked(spots) == t + (if last.trackId.Some? then [last] else []);
    if Process(init, inputs).Failure? {
      k := ProcessFirstFailure(init, inputs);
    } else {
      ProcessSuccess(init, inputs);
      k := |t|;
    }
  }

  /** Once a prefix of the spots fails, the whole loop fails the same way. */
  lemma {:induction false} ProcessPrefixFailure(spots: seq<Spot>, n: nat, inputs: Inputs)
    requires n <= |spots|
    requires Process(spots[..n], inputs).Failure?
    ensures Process(spots, inputs) == Process(spots[..n], inputs)
    decreases |spots|
  {
    if n == |spots| {
      assert spots[..n] == spots;
    } else {
      var init := spots[..|spots| - 1];
      assert init[..n] == spots[..n];
      ProcessPrefixFailure(init, n, inputs);
    }
  }

  /** Lines 36-62 for one tracked spot, with the backward search as a loop. */
  method MeasureSpot(spot: Spot, inputs: Inputs) returns (r: Result<Row>)
    ensures r == SpotRow(spot, inputs)
  {
    var time := spot.frame;
    var targetLabel := spot.spotLabel;
    var roi := ResolveRoi(inputs.rois, inputs.pixelFiles, targetLabel);
    if roi.Failure? {
      return Failure(roi.error);
    }
    var pixels := roi.value;
    var located := LoadForeground(inputs.masks, time);
    if located.Failure? {
      return Failure(located.error);
    }
    if pixels == [] {
      return Failure(EmptyRoi(targetLabel));
    }
    var minDist := ClosestSq(pixels, located.value.points);
    var id := CleanId(targetLabel);
    if id.Failure? {
      return Failure(id.error);
    }
    r := Success(Row(id.value, minDist));
  }

  /** One more spot, tracked or not, extends the loop's result as the
      loop body does. */
  lemma ProcessStep(spots: seq<Spot>, idx: nat, inputs: Inputs, rows: seq<Row>)
    requires idx < |spots|
    requires Process(spots[..idx], inputs) == Success(rows)
    ensures spots[idx].trackId.None? ==> Process(spots[..idx + 1], inputs) == Success(rows)
    ensures spots[idx].trackId.Some? && SpotRow(spots[idx], inputs).Success? ==>
      Process(spots[..idx + 1], inputs) == Success(rows + [SpotRow(spots[idx], inputs).value])
    ensures spots[idx].trackId.Some? && SpotRow(spots[idx], inputs).Failure? ==>
      Process(spots, inputs) == Failure(SpotRow(spots[idx], inputs).error)
  {
    assert spots[..idx + 1][..idx] == spots[..idx];
    if spots[idx].trackId.Some? && SpotRow(spots[idx], inputs).Failure? {
      ProcessPrefixFailure(spots, idx + 1, inputs);
    }
  }

  lemma RowsSnoc(spotId: seq<int>, spotD: seq<nat>, row: Row)
    requires |spotId| == |spotD|
    ensures Rows(spotId + [row.spotId], spotD + [row.sqDist]) == Rows(spotId, spotD) + [row]
  {
  }

  /** The script's loop: the two result lists grow together, one entry per
      tracked spot, until the end or the first failure. */
  method SpotDistances(spots: seq<Spot>, inputs: Inputs)
    returns (spotId: seq<int>, spotD: seq<nat>, failure: Option<Failure>)
    ensures |spotId| == |spotD|
    ensures failure.None? ==> Process(spots, inputs) == Success(Rows(spotId, spotD))
    ensures failure.Some? ==> Process(spots, inputs) == Failure(failure.value)
    ensures failure.Some? ==>
      exists n :: 0 <= n < |spots| && spots[n].trackId.Some? &&
        SpotRow(spots[n], inputs) == Failure(failure.value) &&
        Process(spots[..n], inputs) == Success(Rows(spotId, spotD))
  {
    spotId, spotD := [], [];
    for idx := 0 to |spots|
      invariant |spotId| == |spotD|
      invariant Process(spots[..idx], inputs) == Success(Rows(spotId, spotD))
    {
      ProcessStep(spots, idx, inputs, Rows(spotId, spotD));
      var spot := spots[idx];
      if spot.trackId.None? {
        continue;
      }
      var row := MeasureSpot(spot, inputs);
      if row.Failure? {
        failure := Some(row.error);
        assert spots[idx].trackId.Some? && SpotRow(spots[idx], inputs) == Failure(failure.value);
        return;
      }
      RowsSnoc(spotId, spotD, row.value);
      spotId := spotId + [row.value.spotId];
      spotD := spotD + [row.value.sqDist];
    }
    assert spots[..|spots|] == spots;
    failure := None;
  }
}
