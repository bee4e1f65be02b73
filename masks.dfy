/** Mitochondria masks (scripts/spot_distance_calculation.py, lines 44-57):
    the mask of frame t is the file named by t zero-padded to four digits
    plus ".bmp"; its foreground is every pixel with a value above zero,
    with the array's row as Y and its column as X; and when a frame's
    foreground is empty the previous frame's mask is loaded instead,
    again and again, until a mask has foreground or a mask file is
    missing. */
module Masks {
  import opened Types
  import opened Numerals

  /** A decoded mask image: `g[row][column]` is a pixel's intensity. */
  type Grid = seq<seq<int>>

  /** The mask images of the experiment folder, keyed by the frame that their
      file name spells: frame t is read from the file `FrameFileName(t)`,
      and `FrameFileNameInjective` shows that no two frames share a file. */
  type Masks = map<int, Grid>

  predicate IsForeground(g: Grid, p: Point) {
    0 <= p.y < |g| && 0 <= p.x < |g[p.y]| && g[p.y][p.x] > 0
  }

  /** Row-major order, the order in which `np.where` lists pixels. */
  predicate Before(p: Point, q: Point) {
    p.y < q.y || (p.y == q.y && p.x < q.x)
  }

  predicate RowMajor(ps: seq<Point>) {
    forall i, j :: 0 <= i < j < |ps| ==> Before(ps[i], ps[j])
  }

  /** The foreground pixels of row `y` from column `x` on, left to right. */
  function RowForeground(row: seq<int>, y: int, x: nat): (r: seq<Point>)
    requires x <= |row|
    ensures forall p :: p in r <==> p.y == y && x <= p.x < |row| && row[p.x] > 0
    ensures forall i :: 0 <= i < |r| ==> r[i].y == y
    ensures forall i, j :: 0 <= i < j < |r| ==> r[i].x < r[j].x
    decreases |row| - x
  {
    if x == |row| then []
    else
      var rest := RowForeground(row, y, x + 1);
      assert forall i :: 0 <= i < |rest| ==> rest[i] in rest;
      if row[x] > 0 then [Point(x, y)] + rest else rest
  }

  /** The foreground pixels of rows `y` and below, in row-major order. */
  function ForegroundFrom(g: Grid, y: nat): (r: seq<Point>)
    requires y <= |g|
    ensures forall p :: p in r <==> y <= p.y && IsForeground(g, p)
    ensures RowMajor(r)
    decreases |g| - y
  {
    if y == |g| then []
    else
      var here := RowForeground(g[y], y, 0);
      var rest := ForegroundFrom(g, y + 1);
      assert forall i :: 0 <= i < |rest| ==> rest[i] in rest;
      here + rest
  }

  /** `np.where(MT_image > 0)` stacked as (x, y) points: a point is listed
      exactly when the pixel at row y, column x is above zero. */
  function Foreground(g: Grid): (r: seq<Point>)
    ensures forall p :: p in r <==> IsForeground(g, p)
    ensures RowMajor(r)
  {
    ForegroundFrom(g, 0)
  }

  lemma {:induction false} BlankRow(row: seq<int>, y: int, x: nat)
    requires x <= |row|
    requires forall i :: x <= i < |row| ==> row[i] <= 0
    ensures RowForeground(row, y, x) == []
    decreases |row| - x
  {
    if x < |row| {
      BlankRow(row, y, x + 1);
    }
  }

  lemma {:induction false} BlankRowsFrom(g: Grid, y: nat)
    requires y <= |g|
    requires forall row, i :: y <= row < |g| && 0 <= i < |g[row]| ==> g[row][i] <= 0
    ensures ForegroundFrom(g, y) == []
    decreases |g| - y
  {
    if y < |g| {
      BlankRow(g[y], y, 0);
      BlankRowsFrom(g, y + 1);
    }
  }

  lemma {:induction false} SinglePixelRow(row: seq<int>, x: nat, q: Point)
    requires x <= q.x < |row| && row[q.x] > 0
    requires forall i :: x <= i < |row| && row[i] > 0 ==> i == q.x
    ensures RowForeground(row, q.y, x) == [q]
    decreases |row| - x
  {
    if x < q.x {
      SinglePixelRow(row, x + 1, q);
    } else {
      BlankRow(row, q.y, x + 1);
    }
  }

  lemma {:induction false} SinglePixelRowsFrom(g: Grid, y: nat, q: Point)
    requires y <= q.y && IsForeground(g, q)
    requires forall row, i :: y <= row < |g| && 0 <= i < |g[row]| && g[row][i] > 0 ==> i == q.x && row == q.y
    ensures ForegroundFrom(g, y) == [q]
    decreases |g| - y
  {
    if y < q.y {
      assert forall i :: 0 <= i < |g[y]| ==> g[y][i] <= 0;
      BlankRow(g[y], y, 0);
      SinglePixelRowsFrom(g, y + 1, q);
      assert ForegroundFrom(g, y) == [] + [q];
    } else {
      assert forall i :: 0 <= i < |g[y]| && g[y][i] > 0 ==> i == q.x;
      SinglePixelRow(g[y], 0, q);
      BlankRowsFrom(g, y + 1);
      assert ForegroundFrom(g, y) == [q] + [];
    }
  }

  /** A mask with a single pixel above zero has exactly that pixel as foreground. */
  lemma SinglePixelForeground(g: Grid, q: Point)
    requires IsForeground(g, q)
    requires forall y, x :: 0 <= y < |g| && 0 <= x < |g[y]| && g[y][x] > 0 ==> x == q.x && y == q.y
    ensures Foreground(g) == [q]
  {
    SinglePixelRowsFrom(g, 0, q);
  }

  /** The fallback's test `x_coords.size == 0` holds exactly when no pixel of
      the mask is above zero. */
  lemma ForegroundEmpty(g: Grid)
    ensures Foreground(g) == [] <==> forall y, x :: 0 <= y < |g| && 0 <= x < |g[y]| ==> g[y][x] <= 0
  {
    if forall y, x :: 0 <= y < |g| && 0 <= x < |g[y]| ==> g[y][x] <= 0 {
      BlankRowsFrom(g, 0);
    }
    forall y, x | 0 <= y < |g| && 0 <= x < |g[y]|
      ensures g[y][x] > 0 ==> Point(x, y) in Foreground(g)
    {
    }
  }

  /** The stem of a frame's mask file, as `f"{int(time):04d}"` spells it:
      at least four characters, zero-padded after the sign. */
  function FrameStem(t: int): (stem: string)
    ensures |stem| >= 4
    ensures t >= 0 ==> AllDigits(stem)
    ensures t < 0 ==> stem[0] == '-' && AllDigits(stem[1..])
  {
    if t >= 0 then PadLeft(Decimal(t), 4) else "-" + PadLeft(Decimal(-t), 3)
  }

  /** The mask file name of frame `t`: its stem followed by ".bmp". */
  function FrameFileName(t: int): (name: string)
    ensures |name| >= 8 && name[|name| - 4..] == ".bmp"
  {
    FrameStem(t) + ".bmp"
  }

  /** Reading a frame number back from a file stem, sign first. */
  function StemFrame(stem: string): Option<int> {
    if |stem| > 1 && stem[0] == '-' && AllDigits(stem[1..]) then Some(-(Value(stem[1..]) as int))
    else if |stem| > 0 && AllDigits(stem) then Some(Value(stem))
    else None
  }

  /** Reading a frame number back from a mask file name. */
  function FrameOfFileName(name: string): Option<int> {
    if |name| < 4 || name[|name| - 4..] != ".bmp" then None else StemFrame(name[..|name| - 4])
  }

  lemma StemRoundTrip(t: int)
    ensures StemFrame(FrameStem(t)) == Some(t)
  {
    if t >= 0 {
      NaturalStemRoundTrip(t);
    } else {
      NegativeStemRoundTrip(t);
    }
  }

  lemma NaturalStemRoundTrip(n: nat)
    ensures StemFrame(FrameStem(n)) == Some(n)
  {
    var stem := PadLeft(Decimal(n), 4);
    PaddedValue(n, 4);
    assert stem[0] != '-';
    assert StemFrame(stem) == Some(Value(stem));
  }

  lemma NegativeStemRoundTrip(t: int)
    requires t < 0
    ensures StemFrame(FrameStem(t)) == Some(t)
  {
    var n: nat := -t;
    var digits := PadLeft(Decimal(n), 3);
    assert AllDigits(digits) && |digits| > 0 && Value(digits) == n by {
      PaddedValue(n, 3);
    }
    assert FrameStem(t) == "-" + digits;
    SignedStem(digits);
  }

  lemma SignedStem(digits: string)
    requires |digits| > 0 && AllDigits(digits)
    ensures StemFrame("-" + digits) == Some(-(Value(digits) as int))
  {
    assert ("-" + digits)[1..] == digits;
  }

  /** Every frame's file name reads back as that frame. */
  lemma FrameFileNameRoundTrip(t: int)
    ensures FrameOfFileName(FrameFileName(t)) == Some(t)
  {
    var stem := FrameStem(t);
    assert FrameFileName(t)[..|FrameFileName(t)| - 4] == stem by {
      var name := stem + ".bmp";
      assert name[..|name| - 4] == stem;
    }
    StemRoundTrip(t);
  }

  /** Different frames never share a mask file. */
  lemma FrameFileNameInjective(t: int, u: int)
    requires FrameFileName(t) == FrameFileName(u)
    ensures t == u
  {
    FrameFileNameRoundTrip(t);
    FrameFileNameRoundTrip(u);
  }

  lemma FrameFileNameExamples()
    ensures FrameFileName(5) == "0005.bmp"
    ensures FrameFileName(4) == "0004.bmp"
    ensures FrameFileName(-5) == "-005.bmp"
  {
    PaddedDigitName(5);
    PaddedDigitName(4);
    assert FrameFileName(-5) == "-005.bmp" by {
      assert Decimal(5) == "5";
      assert PadLeft("5", 3) == "005";
    }
  }

  /** A one-digit frame is padded with three zeros. */
  lemma PaddedDigitName(d: nat)
    requires d < 10
    ensures FrameFileName(d) == ['0', '0', '0', DigitChar(d)] + ".bmp"
  {
    assert Decimal(d) == [DigitChar(d)];
    assert PadLeft([DigitChar(d)], 4) == ['0', '0', '0', DigitChar(d)];
  }

  /** The mask of frame `t` exists and has no foreground pixel. */
  predicate EmptyAt(masks: Masks, t: int) {
    t in masks && Foreground(masks[t]) == []
  }

  /** The frames at or below `t` that have a mask file: the search from `t`
      can only load these, and each step down leaves one fewer. */
  ghost function FramesUpTo(masks: Masks, t: int): set<int> {
    set u | u in masks && u <= t
  }

  lemma FewerFramesBelow(masks: Masks, t: int)
    requires t in masks
    ensures |FramesUpTo(masks, t - 1)| < |FramesUpTo(masks, t)|
  {
    assert FramesUpTo(masks, t) == FramesUpTo(masks, t - 1) + {t};
  }

  /** A frame and the foreground pixels of its mask. */
  datatype Located = Located(frame: int, points: seq<Point>)

  /** The backward search from frame `t`: load frame `t`, and while its
      foreground is empty step back one frame, past frame 0 into negative
      frames if need be. Only a missing mask file stops it without
      foreground, and since the folder holds finitely many masks it always
      stops. */
  function LatestForeground(masks: Masks, t: int): (r: Result<Located>)
    ensures r.Success? ==> r.value.points != []
    ensures r.Failure? ==> r.error.MissingMask?
    decreases |FramesUpTo(masks, t)|
  {
    if t !in masks then Failure(MissingMask(t))
    else
      var points := Foreground(masks[t]);
      if points != [] then Success(Located(t, points))
      else
        FewerFramesBelow(masks, t);
        LatestForeground(masks, t - 1)
  }

  /** What the backward search from `t` can end with: the latest frame at or
      before `t` whose mask has foreground, every frame in between having a
      mask with none; or the first missing mask file below a run of empty
      masks. */
  ghost predicate FallbackOutcome(masks: Masks, t: int, r: Result<Located>) {
    && (r.Success? ==>
      && r.value.frame <= t
      && r.value.frame in masks
      && r.value.points == Foreground(masks[r.value.frame])
      && forall u :: r.value.frame < u <= t ==> EmptyAt(masks, u))
    && (r.Failure? ==>
      && r.error.MissingMask?
      && r.error.frame <= t
      && r.error.frame !in masks
      && forall u :: r.error.frame < u <= t ==> EmptyAt(masks, u))
  }

  lemma {:induction false} LatestForegroundOutcome(masks: Masks, t: int)
    ensures FallbackOutcome(masks, t, LatestForeground(masks, t))
    decreases |FramesUpTo(masks, t)|
  {
    if t in masks && Foreground(masks[t]) == [] {
      FewerFramesBelow(masks, t);
      LatestForegroundOutcome(masks, t - 1);
      assert EmptyAt(masks, t);
    }
  }

  /** When every mask from frame `u` up to `t` exists and frame `u` has
      foreground, the search succeeds at `u` or later. */
  lemma FallbackReachesForeground(masks: Masks, t: int, u: int)
    requires u <= t
    requires forall v :: u <= v <= t ==> v in masks
    requires Foreground(masks[u]) != []
    ensures LatestForeground(masks, t).Success?
    ensures u <= LatestForeground(masks, t).value.frame
  {
    LatestForegroundOutcome(masks, t);
    assert !EmptyAt(masks, u);
  }

  /** Below a blank frame 0 the search goes on to frame -1, whose file is
      "-001.bmp": it fails there when that file is missing, and uses it when
      it is present and has foreground. */
  lemma PastFrameZero(blank: Grid, lit: Grid)
    requires Foreground(blank) == [] && Foreground(lit) != []
    ensures LatestForeground(map[0 := blank], 0) == Failure(MissingMask(-1))
    ensures LatestForeground(map[0 := blank, -1 := lit], 0) == Success(Located(-1, Foreground(lit)))
    ensures FrameFileName(-1) == "-001.bmp"
  {
    assert LatestForeground(map[0 := blank], -1) == Failure(MissingMask(-1));
    assert LatestForeground(map[0 := blank, -1 := lit], -1) == Success(Located(-1, Foreground(lit)));
  }

  /** The loop of lines 45-57: load the spot's frame, then step back one
      frame at a time while the foreground is empty. */
  method LoadForeground(masks: Masks, frame: int) returns (r: Result<Located>)
    ensures r == LatestForeground(masks, frame)
  {
    var time := frame;
    if time !in masks {
      return Failure(MissingMask(time));
    }
    var points := Foreground(masks[time]);
    while points == []
      invariant LatestForeground(masks, time) == LatestForeground(masks, frame)
      invariant time in masks && points == Foreground(masks[time])
      decreases |FramesUpTo(masks, time)|
    {
      FewerFramesBelow(masks, time);
      time := time - 1;
      if time !in masks {
        return Failure(MissingMask(time));
      }
      points := Foreground(masks[time]);
    }
    r := Success(Located(time, points));
  }
}
