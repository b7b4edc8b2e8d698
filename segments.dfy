/**
 * make_segments of the track plots: a track's coordinates turned into the
 * line segments a LineCollection draws, one segment per pair of
 * consecutive points.
 */
module Tracks {
  import opened Numeric

  type Point = (real, real)

  /** A segment from its first point to its second. */
  type Segment = (Point, Point)

  /** np.array([x, y]).T: the points of a track, one per coordinate pair. */
  function Points(x: seq<real>, y: seq<real>): (r: seq<Point>)
    requires |x| == |y|
    ensures |r| == |x|
    ensures forall k :: 0 <= k < |r| ==> r[k] == (x[k], y[k])
  {
    seq(|x|, k requires 0 <= k < |x| => (x[k], y[k]))
  }

  /**
   * make_segments: points[:-1] and points[1:] joined side by side, so that
   * segment k runs from point k to point k + 1.
   */
  function MakeSegments(x: seq<real>, y: seq<real>): (r: seq<Segment>)
    requires |x| == |y|
    ensures |r| == if |x| == 0 then 0 else |x| - 1
    ensures forall k :: 0 <= k < |r| ==> r[k].0 == (x[k], y[k]) && r[k].1 == (x[k + 1], y[k + 1])
  {
    var points := Points(x, y);
    var starts, ends := Init(points), Tail(points);
    seq(|starts|, k requires 0 <= k < |starts| => (starts[k], ends[k]))
  }

  /** The end of each segment is the start of the next: the segments draw one unbroken line. */
  lemma SegmentsChain(x: seq<real>, y: seq<real>, k: nat)
    requires |x| == |y| && k + 1 < |MakeSegments(x, y)|
    ensures MakeSegments(x, y)[k].1 == MakeSegments(x, y)[k + 1].0
  {
  }

  /** The points a chain of segments passes through: the first start, then every end. */
  function Vertices(segs: seq<Segment>): (r: seq<Point>)
    ensures |r| == if segs == [] then 0 else |segs| + 1
  {
    if segs == [] then [] else [segs[0].0] + seq(|segs|, k requires 0 <= k < |segs| => segs[k].1)
  }

  /** Walking the segments of a track of two or more points gives back its points, in order. */
  lemma SegmentsRoundTrip(x: seq<real>, y: seq<real>)
    requires |x| == |y| && |x| >= 2
    ensures Vertices(MakeSegments(x, y)) == Points(x, y)
  {
    var segs, points := MakeSegments(x, y), Points(x, y);
    var v := Vertices(segs);
    forall k | 0 <= k < |points|
      ensures v[k] == points[k]
    {
      if k > 0 {
        assert v[k] == segs[k - 1].1;
      }
    }
  }

  /** A track of fewer than two points has no segment. */
  lemma ShortTrackNoSegments(x: seq<real>, y: seq<real>)
    requires |x| == |y| && |x| < 2
    ensures MakeSegments(x, y) == []
  {
  }
}
