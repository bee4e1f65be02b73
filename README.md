# Spot distance calculation, modelled in Dafny

This project models the per-spot loop of `scripts/spot_distance_calculation.py`.
For every TrackMate spot that has a track ID, the script works out the
closest approach between the spot's region of interest (ROI) and the
mitochondria in the mask image of the spot's frame:

- It finds the ROI whose `Name` equals the spot's `LABEL`.
- It reads that ROI's pixels from the pixel file `<Index>.csv`.
- It loads the mask `<frame>.bmp`, with the frame zero-padded to four
  digits. While the mask has no foreground, it steps back one frame.
- It takes the smallest distance from any ROI pixel to its nearest
  foreground pixel, as a k-d tree with k=1 reports it.
- It appends the spot's numeric ID, made from the digits of its label,
  and that distance to two parallel result lists.

The files are:

- `types.dfy`: points, `Option`, `Result` and the failure kinds. The script
  raises on each of these failures, and the model returns them.
- `decimal.dfy`: decimal spelling and reading of integers.
- `labels.dfy`: the ID cleaning of line 65.
- `rois.dfy`: the ROI lookup of lines 39-42.
- `masks.dfy`: three parts:
  - foreground extraction, line 50;
  - mask file names, lines 45 and 55;
  - the backward search of lines 53-57, once as a specification function
    and once as the `while` loop the script runs. Like the script, the
    search has no lower bound: it goes on into negative frames ("-001.bmp")
    until a mask has foreground or a mask file is missing.
- `geometry.dfy`: the nearest-neighbour query and minimum of lines 60-62.
- `spot_distance.dfy`: two parts:
  - the loop of lines 31-66, as a specification function `Process`;
  - the `for` loop the script runs, which grows `spotId` and `spotD`.
- `scenarios.dfy`: two worked one-spot runs.

Distances are squared, so they stay integers. `Geometry.SquareRootOrder`
shows that comparing squared distances picks the same closest pair as
comparing distances.

## Model

| member | source | states |
|---|---|---|
| Numerals.Decimal | scripts/spot_distance_calculation.py:45 | the spelling of a non-negative integer is a non-empty digit string, with no leading zero unless the integer is zero |
| Numerals.Value | scripts/spot_distance_calculation.py:65 | `int(s)` of a digit string is zero exactly when every digit is '0' |
| Numerals.ValueOfDecimal | scripts/spot_distance_calculation.py:45 | reading back the decimal spelling of n gives n |
| Numerals.PaddedValue | scripts/spot_distance_calculation.py:45 | zero-padding the spelling to a width keeps it all digits, and it still reads back as n |
| Labels.KeepDigits | scripts/spot_distance_calculation.py:65 | `re.sub(r'[^0-9]', '', s)` keeps only digits, is no longer than s, and is empty exactly when s has no digit |
| Labels.CleanId | scripts/spot_distance_calculation.py:65 | `int(...)` of the stripped label fails exactly when the label has no digit, and the failure names the label |
| Labels.KeepDigitsConcat | scripts/spot_distance_calculation.py:65 | stripping a concatenation gives the concatenation of the stripped parts, so digits keep their order |
| Labels.KeepDigitsOfDigits | scripts/spot_distance_calculation.py:65 | a string of digits is kept whole |
| Labels.CleanIdKeepsDigits | scripts/spot_distance_calculation.py:65 | the digits between two digit-free parts are read as the ID |
| Labels.CleanIdOfNumberedLabel | scripts/spot_distance_calculation.py:65 | a label made of a number between two digit-free parts gives back that number as its ID |
| Labels.CleanIdSpot42 | scripts/spot_distance_calculation.py:65 | "spot_42" gives ID 42 |
| Labels.CleanIdId7 | scripts/spot_distance_calculation.py:65 | "id7" gives ID 7 |
| Labels.CleanIdNoDigits | scripts/spot_distance_calculation.py:65 | "spot" has no digit, and cleaning it fails |
| Rois.FirstMatch | scripts/spot_distance_calculation.py:40-41 | the row that `values[0]` picks is the first row named exactly like the label; there is none exactly when no row has that name |
| Rois.ResolveRoi | scripts/spot_distance_calculation.py:39-42 | the ROI pixels are the pixel file `<Index>` of the first matching row. It fails with NoRoi exactly when no row matches, and with MissingRoiFile when that row's file is absent |
| Rois.LaterRowsIgnored | scripts/spot_distance_calculation.py:40-41 | once a label has a match, rows appended after it change neither the match nor the pixels resolved |
| Masks.Foreground | scripts/spot_distance_calculation.py:50 | `np.where(MT_image > 0)` lists a point (x, y) exactly when the pixel at row y and column x is above zero, in row-major order |
| Masks.ForegroundEmpty | scripts/spot_distance_calculation.py:50-53 | the loop test `x_coords.size == 0` holds exactly when no pixel of the mask is above zero |
| Masks.SinglePixelForeground | scripts/spot_distance_calculation.py:50 | a mask with one pixel above zero has exactly that pixel as foreground |
| Masks.FrameStem | scripts/spot_distance_calculation.py:45 | `f"{int(time):04d}"` has at least four characters: all digits for a frame of zero or more, a minus sign and then digits for a negative frame |
| Masks.FrameFileName | scripts/spot_distance_calculation.py:45 | the mask file name of a frame is at least eight characters long and ends in ".bmp" |
| Masks.FrameFileNameRoundTrip | scripts/spot_distance_calculation.py:45 | the name `f"{int(time):04d}.bmp"` reads back as the frame, including negative frames |
| Masks.FrameFileNameInjective | scripts/spot_distance_calculation.py:55 | two different frames never share a mask file name |
| Masks.PaddedDigitName | scripts/spot_distance_calculation.py:45 | a one-digit frame d is named "000d.bmp" |
| Masks.FrameFileNameExamples | scripts/spot_distance_calculation.py:45 | frames 5, 4 and -5 are named "0005.bmp", "0004.bmp" and "-005.bmp" |
| Masks.LatestForeground | scripts/spot_distance_calculation.py:53-57 | the backward search, with no lower bound, succeeds only with non-empty foreground and fails only on a missing mask file |
| Masks.LatestForegroundOutcome | scripts/spot_distance_calculation.py:53-57 | one of two outcomes. Success gives the latest frame at or before t whose mask has foreground, with every mask in between existing and empty. Otherwise MissingMask names the first absent file below a run of existing empty masks |
| Masks.FallbackReachesForeground | scripts/spot_distance_calculation.py:53-57 | if every mask from u to t exists and frame u has foreground, the search succeeds at frame u or later |
| Masks.PastFrameZero | scripts/spot_distance_calculation.py:53-57 | below a blank frame 0 the search loads frame -1 ("-001.bmp"): it fails there when that file is missing, and uses it when it has foreground |
| Masks.LoadForeground | scripts/spot_distance_calculation.py:45-57 | the load-then-step-back loop returns what the backward search specifies |
| Geometry.Square | scripts/spot_distance_calculation.py:61 | a square is zero exactly when its root is zero |
| Geometry.SqDistZero | scripts/spot_distance_calculation.py:61 | the squared distance is zero exactly when the two pixels coincide |
| Geometry.SquareRootOrder | scripts/spot_distance_calculation.py:61-62 | for non-negative reals, s <= t exactly when s*s <= t*t, so minimising squared distances minimises distances |
| Geometry.NearestSq | scripts/spot_distance_calculation.py:61 | the k=1 query answer is at most the distance to every foreground pixel and is attained by one of them |
| Geometry.ClosestSq | scripts/spot_distance_calculation.py:60-62 | `dists.min()` is at most the distance of every (ROI pixel, foreground pixel) pair and is attained by one pair |
| Geometry.ClosestSqZero | scripts/spot_distance_calculation.py:60-62 | the closest approach is zero exactly when the ROI and the foreground share a pixel |
| SpotDistance.SpotRow | scripts/spot_distance_calculation.py:36-66 | one tracked spot fails with NoRoi exactly when no ROI has its label; a row it produces carries the cleaned ID of its label |
| SpotDistance.SpotRowIsClosestApproach | scripts/spot_distance_calculation.py:39-62 | a row's distance is the closest approach between the spot's resolved ROI pixels, which are non-empty, and the foreground of the frame the backward search found |
| SpotDistance.SpotRowOutcome | scripts/spot_distance_calculation.py:39-65 | a tracked spot gets a row exactly when its ROI resolves to non-empty pixels, the mask search succeeds and its label has a digit. Otherwise it fails with the error of the first failing step: the ROI lookup or pixel file (lines 41-42), the mask search (lines 49-56), the empty minimum (lines 61-62), then the ID (line 65) |
| SpotDistance.RowsColumns | scripts/spot_distance_calculation.py:65-66 | the parallel lists `spot_id`, `spot_d` and the table of rows carry the same information: each can be read back from the other |
| SpotDistance.Tracked | scripts/spot_distance_calculation.py:31-34 | the spots the loop does not skip are no more than the spots given, and each of them has a track ID |
| SpotDistance.TrackedMembers | scripts/spot_distance_calculation.py:31-34 | a spot is kept exactly when it is among the spots given and has a track ID |
| SpotDistance.Process | scripts/spot_distance_calculation.py:31-66 | the whole loop: when it succeeds, it has one row per tracked spot |
| SpotDistance.ProcessStep | scripts/spot_distance_calculation.py:31-66 | one more spot extends the loop's result as the loop body does: an untracked spot leaves it unchanged, a tracked spot's row is appended, and a tracked spot's failure becomes the failure of the whole run |
| SpotDistance.TrackedConcat | scripts/spot_distance_calculation.py:31-34 | the spots kept from a concatenation are those kept from each part |
| SpotDistance.ProcessOnlyTracked | scripts/spot_distance_calculation.py:31-34 | the loop over all spots gives what the loop over the tracked spots alone gives |
| SpotDistance.SkipUntracked | scripts/spot_distance_calculation.py:33-34 | inserting a spot with a NaN track ID anywhere changes nothing about the result |
| SpotDistance.ProcessSuccess | scripts/spot_distance_calculation.py:31-66 | the loop succeeds exactly when every tracked spot does, and then gives one row per tracked spot, in order, each that spot's row |
| SpotDistance.ProcessFirstFailure | scripts/spot_distance_calculation.py:31-66 | a failing loop fails with the error of its first failing tracked spot; every tracked spot before it succeeds |
| SpotDistance.ProcessPrefixFailure | scripts/spot_distance_calculation.py:31-66 | once a prefix of the spots fails, the whole run fails with the same error |
| SpotDistance.MeasureSpot | scripts/spot_distance_calculation.py:36-62 | the straight-line code with its inner loop computes the spot's row or its failure, as SpotRow specifies |
| SpotDistance.SpotDistances | scripts/spot_distance_calculation.py:27-66 | `spot_id` and `spot_d` stay the same length. At the end they are exactly the rows the loop specifies. Or the run stopped at a tracked spot with the loop's first failure, and the lists hold the rows of the spots before it |
| Scenarios.DirectScenario | scripts/spot_distance_calculation.py:31-66 | spot "id7" at frame 5, with ROI pixel (10, 10) and mask foreground (10, 13), yields the single row (7, 9) |
| Scenarios.FallbackScenario | scripts/spot_distance_calculation.py:53-57 | with frame 5 blank and frame 4's only foreground on the ROI pixel, the search falls back to frame 4 and the row is (7, 0) |

## Left out

- The folder prompt (line 12) is not modelled. The experiment folder is the `Inputs` value.
- CSV parsing is not modelled, so `spots.csv`, `rois.csv` and the pixel files
  arrive already parsed. This covers:
  - the three header rows dropped at line 16;
  - `pd.to_numeric` at lines 18-20;
  - `astype(str)` at line 24.
  A NaN `TRACK_ID` is `None`. A NaN or fractional `FRAME`, which `int(time)`
  would reject or truncate, is not modelled; frames are integers.
- BMP decoding (`imageio`) is not modelled, so masks are integer grids.
  - Colour images are not modelled.
  - Masks are keyed by frame. `Masks.FrameFileNameInjective` shows that no
    two frames share a file name, so this loses nothing.
  - A missing file becomes a failure rather than an I/O exception.
- The k-d tree is not modelled. It is replaced by the contract of a
  k=1 query: the nearest foreground pixel, found by scanning.
- Distances are not square-rooted, and floating point is not modelled.
  `SpotDistance.Row.sqDist` is the square of the script's `min_dist`.
- Writing the Excel file (lines 69-70) is left out.
- On failure, the lists built so far are returned, but nothing is written.
- Every other file of the repository is not part of this model, including `trackmate_cost_threshold.java`.
- The script's backward search has no lower bound, and the model follows it:
  the search steps below frame 0 and stops at the first missing mask file.
  The folder holds finitely many masks, so it always stops.
- SpotDistance.SpotRow: lines 60-62 of the script are dedented to column 0.
  - As written, the file is not valid Python.
  - The model places those lines inside the loop, where the surrounding
    code evidently means them to be.
- Rois.ResolveRoi: when several ROI rows share a label, the first one is used,
  as `values[0]` does. Duplicate labels are not reported as an error.
- SpotDistance.SpotRow: an ROI with no pixels fails with `EmptyRoi`, because
  the k-d tree query, or the minimum over no distances, raises.
- Failures are values rather than exceptions. The first failure ends the
  run, as the uncaught exception does.
