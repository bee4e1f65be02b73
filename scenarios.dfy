/** Two worked runs of the loop over a one-spot experiment: spot "id7" at
    frame 5, whose ROI file "3" holds the single pixel (10, 10). */
module Scenarios {
  import opened Types
  import opened Labels
  import opened Rois
  import opened Masks
  import opened Geometry
  import opened SpotDistance

  /** A `width` by `height` mask whose only pixel above zero is `q`. */
  function OnePixelMask(width: nat, height: nat, q: Point): (g: Grid)
    ensures |g| == height && forall y :: 0 <= y < height ==> |g[y]| == width
  {
    seq(height, y => seq(width, x => if x == q.x && y == q.y then 255 else 0))
  }

  /** A `width` by `height` mask with no pixel above zero. */
  function BlankMask(width: nat, height: nat): (g: Grid)
    ensures |g| == height && forall y :: 0 <= y < height ==> |g[y]| == width
  {
    seq(height, y => seq(width, x => 0))
  }

  function Id7Spot(): Spot {
    Spot(5, Some(1), "id7")
  }

  function Id7Inputs(masks: Masks): Inputs {
    Inputs([RoiEntry("id7", "3")], map["3" := [Point(10, 10)]], masks)
  }

  lemma Id7Resolves(masks: Masks)
    ensures ResolveRoi(Id7Inputs(masks).rois, Id7Inputs(masks).pixelFiles, "id7") == Success([Point(10, 10)])
  {
    assert FirstMatch([RoiEntry("id7", "3")], "id7") == Some(0);
  }

  /** Whatever frame the search settles on, spot "id7" gets ID 7 and the
      closest approach of (10, 10) to that frame's foreground. */
  lemma Id7Row(masks: Masks, located: Located)
    requires LatestForeground(masks, 5) == Success(located)
    ensures SpotRow(Id7Spot(), Id7Inputs(masks)) == Success(Row(7, ClosestSq([Point(10, 10)], located.points)))
  {
    Id7Resolves(masks);
    CleanIdId7();
  }

  lemma SingleSpot(spot: Spot, inputs: Inputs)
    requires spot.trackId.Some? && SpotRow(spot, inputs).Success?
    ensures Process([spot], inputs) == Success([SpotRow(spot, inputs).value])
  {
    assert Tracked([spot]) == [spot] by {
      assert [spot][..0] == [];
    }
    ProcessSuccess([spot], inputs);
    var rows := Process([spot], inputs).value;
    assert rows == [rows[0]];
  }

  lemma OnePixelForeground(width: nat, height: nat, q: Point)
    requires 0 <= q.x < width && 0 <= q.y < height
    ensures Foreground(OnePixelMask(width, height, q)) == [q]
  {
    SinglePixelForeground(OnePixelMask(width, height, q), q);
  }

  lemma DirectScenarioFor(g5: Grid)
    requires Foreground(g5) == [Point(10, 13)]
    ensures Process([Id7Spot()], Id7Inputs(map[5 := g5])) == Success([Row(7, 9)])
  {
    var masks := map[5 := g5];
    assert SpotRow(Id7Spot(), Id7Inputs(masks)) == Success(Row(7, 9)) by {
      var located := Located(5, [Point(10, 13)]);
      assert LatestForeground(masks, 5) == Success(located);
      Id7Row(masks, located);
      assert ClosestSq([Point(10, 10)], [Point(10, 13)]) == 9;
    }
    SingleSpot(Id7Spot(), Id7Inputs(masks));
  }

  lemma FallbackScenarioFor(g5: Grid, g4: Grid)
    requires Foreground(g5) == [] && Foreground(g4) == [Point(10, 10)]
    ensures Process([Id7Spot()], Id7Inputs(map[5 := g5, 4 := g4])) == Success([Row(7, 0)])
  {
    var masks := map[5 := g5, 4 := g4];
    assert SpotRow(Id7Spot(), Id7Inputs(masks)) == Success(Row(7, 0)) by {
      var located := Located(4, [Point(10, 10)]);
      assert LatestForeground(masks, 4) == Success(located);
      assert LatestForeground(masks, 5) == Success(located);
      Id7Row(masks, located);
      assert ClosestSq([Point(10, 10)], [Point(10, 10)]) == 0;
    }
    SingleSpot(Id7Spot(), Id7Inputs(masks));
  }

  /** The mask of frame 5 has one foreground pixel at (10, 13): the spot is
      three pixels away, nine in squared distance, and its ID is 7. */
  lemma DirectScenario()
    ensures Process([Id7Spot()], Id7Inputs(map[5 := OnePixelMask(11, 14, Point(10, 13))]))
         == Success([Row(7, 9)])
  {
    OnePixelForeground(11, 14, Point(10, 13));
    DirectScenarioFor(OnePixelMask(11, 14, Point(10, 13)));
  }

  /** The mask of frame 5 is blank and that of frame 4 has its one foreground
      pixel on the spot itself: the search falls back to frame 4 and the
      distance is zero. */
  lemma FallbackScenario()
    ensures Process([Id7Spot()], Id7Inputs(map[5 := BlankMask(11, 14), 4 := OnePixelMask(11, 14, Point(10, 10))]))
         == Success([Row(7, 0)])
  {
    ForegroundEmpty(BlankMask(11, 14));
    OnePixelForeground(11, 14, Point(10, 10));
    FallbackScenarioFor(BlankMask(11, 14), OnePixelMask(11, 14, Point(10, 10)));
  }
}
