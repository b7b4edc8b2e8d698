/**
 * The track-data reductions inside the statistics plots: the lag-1 pair
 * filter that drops sys.maxint sentinels (linreg, scatterHistogram,
 * plotRegression), the longitude/latitude steps of plotLonLat with their
 * +360 correction, and the per-track minimum-pressure loop shared by
 * minPressureHist and plotMinPressure.
 */
module PlotStats {
  import opened Common
  import opened Numeric

  /** sys.maxint on a 64-bit Python 2: the sentinel for a missing observation. */
  const MaxInt: real := 9223372036854775807.0

  type Pair = (real, real)

  // ---------------------------------------------------------------------
  // Sentinel filters
  // ---------------------------------------------------------------------

  function Zip(x: seq<real>, y: seq<real>): (r: seq<Pair>)
    requires |x| == |y|
    ensures |r| == |x|
    ensures forall i :: 0 <= i < |r| ==> r[i] == (x[i], y[i])
  {
    seq(|x|, i requires 0 <= i < |x| => (x[i], y[i]))
  }

  /** The lag-1 pairs (data[i+1], data[i]) of a series, in index order. */
  function LagPairs(data: seq<real>): (r: seq<Pair>)
    ensures |r| == if |data| == 0 then 0 else |data| - 1
    ensures forall i :: 0 <= i < |r| ==> r[i] == (data[i + 1], data[i])
  {
    var later, earlier := Tail(data), Init(data);
    var r := Zip(later, earlier);
    assert forall i :: 0 <= i < |r| ==> r[i] == (later[i], earlier[i]);
    r
  }

  /** Neither coordinate of the pair is the sentinel (or above it). */
  predicate Both(p: Pair) {
    p.0 < MaxInt && p.1 < MaxInt
  }

  /**
   * The reference filter: the pairs of ps with both values below sys.maxint,
   * in their original order.
   */
  function Keep(ps: seq<Pair>): (r: seq<Pair>)
    ensures |r| <= |ps|
    ensures forall t :: 0 <= t < |r| ==> Both(r[t]) && r[t] in ps
    ensures forall t :: 0 <= t < |ps| && Both(ps[t]) ==> ps[t] in r
  {
    if ps == [] then []
    else
      var front := Keep(ps[..|ps| - 1]);
      assert forall t :: 0 <= t < |ps| - 1 ==> ps[t] == ps[..|ps| - 1][t];
      if Both(ps[|ps| - 1]) then front + [ps[|ps| - 1]] else front
  }

  /** The elementwise mask (x < maxint) & (y < maxint). */
  function BothMask(x: seq<real>, y: seq<real>): (r: seq<bool>)
    requires |x| == |y|
    ensures |r| == |x|
    ensures forall i :: 0 <= i < |r| ==> (r[i] <==> Both((x[i], y[i])))
  {
    seq(|x|, i requires 0 <= i < |x| => x[i] < MaxInt && y[i] < MaxInt)
  }

  lemma TakeSnoc(x: seq<real>, w: seq<nat>, k: nat)
    requires forall t :: 0 <= t < |w| ==> w[t] < |x|
    requires k < |x|
    ensures Take(x, w + [k]) == Take(x, w) + [x[k]]
  {
    assert forall t :: 0 <= t < |w| ==> (w + [k])[t] == w[t];
  }

  lemma TakePrefix(x: seq<real>, w: seq<nat>, m: nat)
    requires m <= |x|
    requires forall t :: 0 <= t < |w| ==> w[t] < m
    ensures Take(x, w) == Take(x[..m], w)
  {
  }

  lemma ZipSnoc(a: seq<real>, b: seq<real>, u: real, v: real)
    requires |a| == |b|
    ensures Zip(a + [u], b + [v]) == Zip(a, b) + [(u, v)]
  {
  }

  /** x[i] and y[i] at i = where((x < maxint) & (y < maxint)), paired up. */
  function Selected(x: seq<real>, y: seq<real>): seq<Pair>
    requires |x| == |y|
  {
    var i := Where(BothMask(x, y));
    Zip(Take(x, i), Take(y, i))
  }

  /** Dropping the last position of both series drops at most the last selected pair. */
  lemma SelectedSnoc(x: seq<real>, y: seq<real>)
    requires |x| == |y| > 0
    ensures var n := |x|;
            Selected(x, y) == Selected(x[..n - 1], y[..n - 1]) +
              if Both((x[n - 1], y[n - 1])) then [(x[n - 1], y[n - 1])] else []
  {
    var n := |x|;
    var x', y' := x[..n - 1], y[..n - 1];
    var mask := BothMask(x, y);
    assert mask[..n - 1] == BothMask(x', y');
    var front := Where(BothMask(x', y'));
    TakePrefix(x, front, n - 1);
    TakePrefix(y, front, n - 1);
    if mask[n - 1] {
      assert Where(mask) == front + [n - 1];
      TakeSnoc(x, front, n - 1);
      TakeSnoc(y, front, n - 1);
      ZipSnoc(Take(x, front), Take(y, front), x[n - 1], y[n - 1]);
    } else {
      assert Where(mask) == front;
    }
  }

  lemma KeepSnoc(x: seq<real>, y: seq<real>)
    requires |x| == |y| > 0
    ensures var n := |x|;
            Keep(Zip(x, y)) == Keep(Zip(x[..n - 1], y[..n - 1])) +
              if Both((x[n - 1], y[n - 1])) then [(x[n - 1], y[n - 1])] else []
  {
    var n := |x|;
    assert Zip(x, y)[..n - 1] == Zip(x[..n - 1], y[..n - 1]);
  }

  /**
   * Selecting x[i] and y[i] at i = where(mask) and pairing them up is the
   * reference filter on the zipped series.
   */
  lemma {:induction false} SelectIsKeep(x: seq<real>, y: seq<real>)
    requires |x| == |y|
    ensures Selected(x, y) == Keep(Zip(x, y))
  {
    if |x| > 0 {
      var n := |x|;
      SelectIsKeep(x[..n - 1], y[..n - 1]);
      SelectedSnoc(x, y);
      KeepSnoc(x, y);
    }
  }

  /**
   * linreg: the columns of tData = [data[1:], data[:-1]] at the indices
   * where both rows are below sys.maxint.
   */
  function LinregPairs(data: seq<real>): (r: seq<Pair>)
    ensures r == Keep(LagPairs(data))
  {
    var i := Where(BothMask(Tail(data), Init(data)));
    SelectIsKeep(Tail(data), Init(data));
    Zip(Take(Tail(data), i), Take(Init(data), i))
  }

  /** scatterHistogram: x[i] and y[i] at i = where((x < maxint) & (y < maxint)). */
  function ScatterFilter(x: seq<real>, y: seq<real>): (r: (seq<real>, seq<real>))
    requires |x| == |y|
    ensures |r.0| == |r.1|
    ensures Zip(r.0, r.1) == Keep(Zip(x, y))
  {
    var i := Where(BothMask(x, y));
    SelectIsKeep(x, y);
    (Take(x, i), Take(y, i))
  }

  /** ndarray.compress(condition): the entries where the condition holds. */
  function Compress(a: seq<real>, condition: seq<bool>): (r: seq<real>)
    requires |condition| == |a|
    ensures |r| == |Where(condition)|
    ensures forall t :: 0 <= t < |r| ==> condition[Where(condition)[t]] && r[t] == a[Where(condition)[t]]
  {
    Take(a, Where(condition))
  }

  /**
   * plotRegression: skip = (x_t >= maxint) | (x_tm >= maxint) with
   * x_t = x[1:], x_tm = x[:-1]; both series are compressed on skip == False.
   * The pairs it keeps are exactly those linreg keeps.
   */
  function RegressionFilter(x: seq<real>): (r: (seq<real>, seq<real>))
    ensures |r.0| == |r.1|
    ensures Zip(r.0, r.1) == Keep(LagPairs(x))
  {
    var xt, xtm := Tail(x), Init(x);
    var skip := seq(|xt|, i requires 0 <= i < |xt| => xt[i] >= MaxInt || xtm[i] >= MaxInt);
    var keep := seq(|skip|, i requires 0 <= i < |skip| => skip[i] == false);
    assert keep == BothMask(xt, xtm);
    SelectIsKeep(xt, xtm);
    (Compress(xt, keep), Compress(xtm, keep))
  }

  // ---------------------------------------------------------------------
  // plotLonLat
  // ---------------------------------------------------------------------

  /** The mask indicator[1:] == 0: the step into position i+1 stays on the same track. */
  function SameTrack(indicator: seq<int>): (r: seq<bool>)
    ensures |r| == |Tail(indicator)|
    ensures forall i :: 0 <= i < |r| ==> (r[i] <==> indicator[i + 1] == 0)
  {
    seq(|Tail(indicator)|, i requires 0 <= i < |Tail(indicator)| => indicator[i + 1] == 0)
  }

  /** dlon[j] (or dlat[j]) with j = where(indicator[1:] == 0). */
  function Steps(a: seq<real>, indicator: seq<int>): (r: seq<real>)
    requires |indicator| <= |a|
    ensures |r| == |Where(SameTrack(indicator))|
  {
    Take(Diffs(a), Where(SameTrack(indicator)))
  }

  /**
   * dlon and dlat are taken at the same positions: the t-th of each is the
   * step into a position i+1 with indicator[i+1] == 0.
   */
  lemma StepsAligned(lon: seq<real>, lat: seq<real>, indicator: seq<int>, t: nat)
    requires |indicator| <= |lon| && |indicator| <= |lat|
    requires t < |Steps(lon, indicator)|
    ensures t < |Steps(lat, indicator)|
    ensures exists i :: 0 <= i < |indicator| - 1 && indicator[i + 1] == 0 &&
              Steps(lon, indicator)[t] == lon[i + 1] - lon[i] &&
              Steps(lat, indicator)[t] == lat[i + 1] - lat[i]
  {
    var j := Where(SameTrack(indicator));
    var i := j[t];
    assert SameTrack(indicator)[i];
    assert Steps(lon, indicator)[t] == lon[i + 1] - lon[i];
    assert Steps(lat, indicator)[t] == lat[i + 1] - lat[i];
  }

  /** Every step into a position that continues a track is kept. */
  lemma StepsComplete(a: seq<real>, indicator: seq<int>, i: nat)
    requires |indicator| <= |a|
    requires i + 1 < |indicator| && indicator[i + 1] == 0
    ensures exists t :: 0 <= t < |Steps(a, indicator)| && Steps(a, indicator)[t] == a[i + 1] - a[i]
  {
    var j := Where(SameTrack(indicator));
    var t := WhereFind(SameTrack(indicator), i);
    var steps := Steps(a, indicator);
    assert steps[t] == a[i + 1] - a[i] by {
      assert Take(Diffs(a), j)[t] == Diffs(a)[i];
    }
  }

  /** The correction for a step that jumps across the meridian. */
  function Wrap(d: real): (r: real)
    ensures r == d || r == d + 360.0
    ensures r >= -180.0 || d < -540.0
  {
    if d < -180.0 then d + 360.0 else d
  }

  function WrapAll(s: seq<real>): (r: seq<real>)
    ensures |r| == |s|
  {
    seq(|s|, i requires 0 <= i < |s| => Wrap(s[i]))
  }

  /** k = where(dlon < -180.); dlon[k] += 360. */
  method WrapLongitudes(dlon: array<real>)
    modifies dlon
    ensures dlon[..] == WrapAll(old(dlon[..]))
  {
    var before := dlon[..];
    var k := Where(seq(|before|, i requires 0 <= i < |before| => before[i] < -180.0));
    for t := 0 to |k|
      invariant forall i :: 0 <= i < dlon.Length ==>
                  dlon[i] == if i in k[..t] then before[i] + 360.0 else before[i]
    {
      assert k[t] !in k[..t];
      dlon[k[t]] := dlon[k[t]] + 360.0;
      assert k[..t + 1] == k[..t] + [k[t]];
    }
    assert k[..|k|] == k;
  }

  /** Every kept step below -180 gains exactly 360; all others are unchanged. */
  lemma WrapAllChanges(s: seq<real>, i: nat)
    requires i < |s|
    ensures s[i] < -180.0 ==> WrapAll(s)[i] == s[i] + 360.0
    ensures s[i] >= -180.0 ==> WrapAll(s)[i] == s[i]
  {
  }

  /** plotLonLat: the lagged longitude and latitude steps within tracks. */
  method LonLatSteps(lon: seq<real>, lat: seq<real>, indicator: seq<int>)
      returns (dlon: array<real>, dlat: seq<real>)
    requires |indicator| <= |lon| && |indicator| <= |lat|
    ensures fresh(dlon)
    ensures dlon[..] == WrapAll(Steps(lon, indicator))
    ensures dlat == Steps(lat, indicator)
  {
    var steps := Steps(lon, indicator);
    dlon := new real[|steps|](i requires 0 <= i < |steps| => steps[i]);
    assert dlon[..] == steps;
    dlat := Steps(lat, indicator);
    WrapLongitudes(dlon);
  }

  // ---------------------------------------------------------------------
  // Per-track minimum pressure (minPressureHist, plotMinPressure)
  // ---------------------------------------------------------------------

  /**
   * Keep the running minimum unless the reading is a number below it. In
   * Python 2 a number is never less than None, so a track whose start
   * pressure is None keeps None.
   */
  function Py2Min(current: Option<real>, reading: Option<real>): (r: Option<real>)
    ensures current.None? ==> r.None?
    ensures reading.None? ==> r == current
    ensures current.Some? && reading.Some? ==>
              r.Some? && r.value <= current.value && r.value <= reading.value &&
              (r.value == current.value || r.value == reading.value)
  {
    if reading.Some? && current.Some? && reading.value < current.value then reading else current
  }

  /**
   * The minimum the loop records for the track that starts at s and runs up
   * to (not including) e.
   */
  function MinOfTrack(p: seq<Option<real>>, s: nat, e: nat): (r: Option<real>)
    requires s < e <= |p|
    ensures r.None? <==> p[s].None?
    ensures r.Some? ==> forall j :: s <= j < e && p[j].Some? ==> r.value <= p[j].value
    decreases e
  {
    if e == s + 1 then p[s] else Py2Min(MinOfTrack(p, s, e - 1), p[e - 1])
  }

  /** The recorded minimum is one of the track's own readings. */
  lemma {:induction false} MinOfTrackAttained(p: seq<Option<real>>, s: nat, e: nat)
    requires s < e <= |p|
    ensures exists j :: s <= j < e && MinOfTrack(p, s, e) == p[j]
    decreases e
  {
    if e == s + 1 {
      assert MinOfTrack(p, s, e) == p[s];
    } else {
      MinOfTrackAttained(p, s, e - 1);
      var j :| s <= j < e - 1 && MinOfTrack(p, s, e - 1) == p[j];
      if MinOfTrack(p, s, e) == p[j] {
        assert s <= j < e;
      } else {
        assert MinOfTrack(p, s, e) == p[e - 1];
      }
    }
  }

  /** The positions the loop visits: range(len(index) - 1). */
  function Visited(index: seq<int>): nat {
    if |index| == 0 then 0 else |index| - 1
  }

  /** index[i] == 1 for the first n positions: where a track starts. */
  function StartMask(index: seq<int>, n: nat): (r: seq<bool>)
    requires n <= |index|
    ensures |r| == n
    ensures forall i :: 0 <= i < n ==> (r[i] <==> index[i] == 1)
  {
    seq(n, i requires 0 <= i < n => index[i] == 1)
  }

  function TrackEnd(starts: seq<nat>, t: nat, n: nat): nat
    requires t < |starts|
  {
    if t + 1 < |starts| then starts[t + 1] else n
  }

  /**
   * The per-track minima over the first n positions: one entry per track
   * start, in order, each the minimum of that track up to the next start.
   */
  function Tracks(index: seq<int>, p: seq<Option<real>>, n: nat): (r: seq<Option<real>>)
    requires n <= |index| && n <= |p|
    ensures |r| == |Where(StartMask(index, n))|
  {
    var starts := Where(StartMask(index, n));
    seq(|starts|, t requires 0 <= t < |starts| =>
      assert starts[t] < TrackEnd(starts, t, n) <= n;
      MinOfTrack(p, starts[t], TrackEnd(starts, t, n)))
  }

  /** A reading that is not None at position j, with no track started before it. */
  predicate Orphan(index: seq<int>, p: seq<Option<real>>, j: nat) {
    j < |index| && j < |p| && index[j] != 1 && p[j].Some? &&
    forall k :: 0 <= k < j ==> index[k] != 1
  }

  /** The loop raises IndexError: p is too short, or a reading precedes every start. */
  predicate MinimaFail(index: seq<int>, p: seq<Option<real>>) {
    |p| < Visited(index) || exists j :: 0 <= j < Visited(index) && Orphan(index, p, j)
  }

  lemma WhereExtend(index: seq<int>, i: nat)
    requires i < |index|
    ensures Where(StartMask(index, i + 1)) ==
            Where(StartMask(index, i)) + if index[i] == 1 then [i] else []
  {
    assert StartMask(index, i + 1) == StartMask(index, i) + [index[i] == 1];
    WhereSnoc(StartMask(index, i), index[i] == 1);
  }

  /** A start at position i opens a new track whose minimum so far is p[i]. */
  lemma {:induction false} TracksStart(index: seq<int>, p: seq<Option<real>>, i: nat)
    requires i < |index| && i < |p| && index[i] == 1
    ensures Tracks(index, p, i + 1) == Tracks(index, p, i) + [p[i]]
  {
    WhereExtend(index, i);
    var s0 := Where(StartMask(index, i));
    var s1 := Where(StartMask(index, i + 1));
    var a, b := Tracks(index, p, i), Tracks(index, p, i + 1);
    forall t | 0 <= t < |s0|
      ensures b[t] == a[t]
    {
      assert TrackEnd(s1, t, i + 1) == TrackEnd(s0, t, i);
    }
    assert b[|s0|] == MinOfTrack(p, i, i + 1);
  }

  /** Any other position folds its reading into the last track's minimum. */
  lemma {:induction false} TracksContinue(index: seq<int>, p: seq<Option<real>>, i: nat)
    requires i < |index| && i < |p| && index[i] != 1
    ensures var a := Tracks(index, p, i);
            Tracks(index, p, i + 1) ==
              if a == [] then [] else a[..|a| - 1] + [Py2Min(a[|a| - 1], p[i])]
  {
    WhereExtend(index, i);
    var s := Where(StartMask(index, i));
    assert Where(StartMask(index, i + 1)) == s;
    var a, b := Tracks(index, p, i), Tracks(index, p, i + 1);
    if a != [] {
      var last := |s| - 1;
      forall t | 0 <= t < last
        ensures b[t] == a[t]
      {
        assert TrackEnd(s, t, i + 1) == TrackEnd(s, t, i);
      }
      assert s[last] < i;
      assert b[last] == MinOfTrack(p, s[last], i + 1);
      assert a[last] == MinOfTrack(p, s[last], i);
      assert b == a[..last] + [Py2Min(a[last], p[i])];
    }
  }

  /** With no track started, the first n positions hold no start. */
  lemma NoStartsBefore(index: seq<int>, n: nat)
    requires n <= |index| && Where(StartMask(index, n)) == []
    ensures forall k :: 0 <= k < n ==> index[k] != 1
  {
    forall k | 0 <= k < n
      ensures index[k] != 1
    {
      assert StartMask(index, n)[k] == (index[k] == 1);
    }
  }

  /** Once a track has started, no later reading is an orphan. */
  lemma StartedNotOrphan(index: seq<int>, p: seq<Option<real>>, i: nat)
    requires i < |index| && i <= |p| && Where(StartMask(index, i)) != []
    ensures !Orphan(index, p, i)
  {
    var k := Where(StartMask(index, i))[0];
    assert StartMask(index, i)[k] && index[k] == 1;
  }

  /**
   * A position that does not start a track: a reading that is not None
   * replaces the last track's minimum when it is smaller, and raises
   * IndexError when no track has started yet.
   */
  method FoldReading(index: seq<int>, p: seq<Option<real>>, i: nat, pcarray: seq<Option<real>>)
    returns (r: Result<seq<Option<real>>>)
    requires i < |index| && i < |p| && index[i] != 1
    requires pcarray == Tracks(index, p, i)
    ensures r.Err? <==> Orphan(index, p, i)
    ensures r.Err? ==> r.error == IndexError
    ensures r.Ok? ==> r.value == Tracks(index, p, i + 1)
  {
    TracksContinue(index, p, i);
    if pcarray != [] {
      StartedNotOrphan(index, p, i);
    }
    if p[i].Some? {
      if pcarray == [] {
        NoStartsBefore(index, i);
        assert Orphan(index, p, i);
        return Err(IndexError);
      }
      var last := pcarray[|pcarray| - 1];
      if last.Some? && p[i].value < last.value {
        return Ok(pcarray[..|pcarray| - 1] + [p[i]]);
      }
    }
    if pcarray != [] {
      SplitLast(pcarray);
    }
    return Ok(pcarray);
  }

  /**
   * The loop of plotMinPressure (and the identical one of minPressureHist):
   * for each visited position, a start appends its pressure, any other
   * non-None reading lowers the last track's minimum.
   */
  method TrackMinima(index: seq<int>, p: seq<Option<real>>) returns (r: Result<seq<Option<real>>>)
    ensures r.Err? <==> MinimaFail(index, p)
    ensures r.Err? ==> r.error == IndexError
    ensures r.Ok? ==> r.value == Tracks(index, p, Visited(index))
  {
    var pcarray: seq<Option<real>> := [];
    var i := 0;
    while i < Visited(index)
      invariant i <= Visited(index) && i <= |p|
      invariant forall j :: 0 <= j < i ==> !Orphan(index, p, j)
      invariant pcarray == Tracks(index, p, i)
    {
      if i >= |p| {
        return Err(IndexError);
      }
      if index[i] == 1 {
        TracksStart(index, p, i);
        pcarray := pcarray + [p[i]];
      } else {
        var folded := FoldReading(index, p, i, pcarray);
        if folded.Err? {
          return Err(folded.error);
        }
        pcarray := folded.value;
      }
      i := i + 1;
    }
    return Ok(pcarray);
  }

  lemma SplitLast<T>(s: seq<T>)
    requires s != []
    ensures s == s[..|s| - 1] + [s[|s| - 1]]
  {
  }

  /** The track minima read only the first n positions of either array. */
  lemma {:induction false} MinOfTrackPrefix(p: seq<Option<real>>, s: nat, e: nat, n: nat)
    requires s < e <= n <= |p|
    ensures MinOfTrack(p, s, e) == MinOfTrack(p[..n], s, e)
    decreases e
  {
    if e > s + 1 {
      MinOfTrackPrefix(p, s, e - 1, n);
    }
  }

  /**
   * The last element of index and of p is never examined: the minima depend
   * only on the visited positions.
   */
  lemma TracksIgnoreLast(index: seq<int>, p: seq<Option<real>>, n: nat)
    requires n <= |index| && n <= |p|
    ensures Tracks(index, p, n) == Tracks(index[..n], p[..n], n)
  {
    assert StartMask(index, n) == StartMask(index[..n], n);
    var starts := Where(StartMask(index, n));
    forall t | 0 <= t < |starts|
      ensures Tracks(index, p, n)[t] == Tracks(index[..n], p[..n], n)[t]
    {
      MinOfTrackPrefix(p, starts[t], TrackEnd(starts, t, n), n);
    }
  }
}
