/** The closest approach between a spot's ROI pixels and the foreground
    pixels of a mask (scripts/spot_distance_calculation.py, lines 60-62):
    a k-d tree over the foreground answers, for each ROI pixel, the
    distance to its single nearest foreground pixel, and the minimum of
    those answers is the spot's distance. The tree is replaced by its
    k=1 contract, a scan over all foreground pixels, and distances are
    kept squared so that they stay integers. */
module Geometry {
  import opened Types

  /** The squared Euclidean distance between two pixels. */
  function SqDist(p: Point, q: Point): nat {
    var dx, dy := p.x - q.x, p.y - q.y;
    Square(dx) + Square(dy)
  }

  function Square(d: int): (s: nat)
    ensures s == 0 <==> d == 0
  {
    d * d
  }

  lemma SqDistZero(p: Point, q: Point)
    ensures SqDist(p, q) == 0 <==> p == q
  {
  }

  /** Comparing squared distances compares the distances themselves, so the
      pair that is closest in squared distance is the closest pair. */
  lemma SquareRootOrder(s: real, t: real)
    requires 0.0 <= s && 0.0 <= t
    ensures s <= t <==> s * s <= t * t
  {
    if s > t {
      MulPositive(s - t, s);
      MulNonNegative(t, s - t);
      assert s * s - t * t == (s - t) * s + t * (s - t);
    } else {
      MulNonNegative(t - s, s);
      MulNonNegative(t, t - s);
      assert t * t - s * s == (t - s) * s + t * (t - s);
    }
  }

  /** The sign facts about products that the order proof needs; the solver
      knows them about two variables but not about compound factors. */
  lemma MulNonNegative(a: real, b: real)
    requires 0.0 <= a && 0.0 <= b
    ensures 0.0 <= a * b
  {
  }

  lemma MulPositive(a: real, b: real)
    requires 0.0 < a && 0.0 < b
    ensures 0.0 < a * b
  {
  }

  /** What `tree.query(p, k=1)` answers: the squared distance from `p` to
      its nearest foreground pixel. */
  function NearestSq(p: Point, foreground: seq<Point>): (d: nat)
    requires foreground != []
    ensures forall q :: q in foreground ==> d <= SqDist(p, q)
    ensures exists q :: q in foreground && d == SqDist(p, q)
    decreases |foreground|
  {
    var here := SqDist(p, foreground[0]);
    if |foreground| == 1 then here
    else
      var rest := NearestSq(p, foreground[1..]);
      assert forall q :: q in foreground ==> q == foreground[0] || q in foreground[1..];
      if here <= rest then here else rest
  }

  /** `dists.min()` over the answers for all ROI pixels: the smallest squared
      distance between any ROI pixel and any foreground pixel. */
  function ClosestSq(pixels: seq<Point>, foreground: seq<Point>): (d: nat)
    requires pixels != [] && foreground != []
    ensures forall p, q :: p in pixels && q in foreground ==> d <= SqDist(p, q)
    ensures exists p, q :: p in pixels && q in foreground && d == SqDist(p, q)
    decreases |pixels|
  {
    var here := NearestSq(pixels[0], foreground);
    if |pixels| == 1 then here
    else
      var rest := ClosestSq(pixels[1..], foreground);
      assert forall p :: p in pixels ==> p == pixels[0] || p in pixels[1..];
      if here <= rest then here else rest
  }

  /** The closest approach is zero exactly when the ROI touches the foreground. */
  lemma ClosestSqZero(pixels: seq<Point>, foreground: seq<Point>)
    requires pixels != [] && foreground != []
    ensures ClosestSq(pixels, foreground) == 0 <==> exists p :: p in pixels && p in foreground
  {
    var d := ClosestSq(pixels, foreground);
    if d == 0 {
      var p, q :| p in pixels && q in foreground && d == SqDist(p, q);
      SqDistZero(p, q);
    }
    if exists p :: p in pixels && p in foreground {
      var p :| p in pixels && p in foreground;
      assert SqDist(p, p) == 0;
    }
  }
}
