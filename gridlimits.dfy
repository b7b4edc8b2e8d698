/**
 * The choice of the computation window inside the wind-field grid: the
 * first and last longitude (and latitude) indices whose coordinate lies in
 * the configured bounding box.
 */
module GridLimits {
  import opened Common
  import opened Numeric

  /** The configured bounding box (the 'gridLimit' setting). */
  datatype Limits = Limits(xMin: real, xMax: real, yMin: real, yMax: real)

  /** Inclusive index bounds of the window: longitudes imin..imax, latitudes jmin..jmax. */
  datatype Window = Window(imin: nat, imax: nat, jmin: nat, jmax: nat)

  /** The boolean mask (v >= lo) & (v <= hi). */
  function Between(v: seq<real>, lo: real, hi: real): (mask: seq<bool>)
    ensures |mask| == |v|
    ensures forall k :: 0 <= k < |v| ==> (mask[k] <==> lo <= v[k] <= hi)
  {
    seq(|v|, k requires 0 <= k < |v| => lo <= v[k] && v[k] <= hi)
  }

  /** ii[0] and ii[-1] of an index array; an empty array raises IndexError. */
  function Ends(ii: seq<nat>): Result<(nat, nat)> {
    if ii == [] then Err(IndexError) else Ok((ii[0], ii[|ii| - 1]))
  }

  /** Some coordinate of v lies in [lo, hi]. */
  predicate Meets(v: seq<real>, lo: real, hi: real) {
    exists k :: 0 <= k < |v| && lo <= v[k] <= hi
  }

  /**
   * first..last is the tightest index range holding every coordinate of v
   * in [lo, hi], and both ends lie in [lo, hi].
   */
  predicate Covers(v: seq<real>, lo: real, hi: real, first: nat, last: nat) {
    && first <= last < |v|
    && lo <= v[first] <= hi && lo <= v[last] <= hi
    && (forall k :: 0 <= k < |v| && lo <= v[k] <= hi ==> first <= k <= last)
  }

  /** The first and last index of v whose value lies in [lo, hi]. */
  function Span(v: seq<real>, lo: real, hi: real): (r: Result<(nat, nat)>)
    ensures r.Err? <==> !Meets(v, lo, hi)
    ensures r.Err? ==> r.error == IndexError
    ensures r.Ok? ==> Covers(v, lo, hi, r.value.0, r.value.1)
  {
    WhereBetween(v, lo, hi);
    Ends(Where(Between(v, lo, hi)))
  }

  /** The indices np.where reports for the in-range mask are empty exactly when no coordinate is in range, and otherwise their ends cover it. */
  lemma WhereBetween(v: seq<real>, lo: real, hi: real)
    ensures var r := Ends(Where(Between(v, lo, hi)));
            && (r.Err? <==> !Meets(v, lo, hi))
            && (r.Err? ==> r.error == IndexError)
            && (r.Ok? ==> Covers(v, lo, hi, r.value.0, r.value.1))
  {
    var mask := Between(v, lo, hi);
    var ii := Where(mask);
    WhereEnds(mask);
    if Meets(v, lo, hi) {
      var k :| 0 <= k < |v| && lo <= v[k] <= hi;
      assert mask[k];
      assert k in ii;
    }
    if ii != [] {
      assert mask[ii[0]] && mask[ii[|ii| - 1]];
      forall k | 0 <= k < |v| && lo <= v[k] <= hi
        ensures ii[0] <= k <= ii[|ii| - 1]
      {
        assert mask[k];
      }
    }
  }

  /** Every index np.where reports lies between the first and the last one it reports. */
  lemma WhereEnds(mask: seq<bool>)
    ensures var ii := Where(mask);
            forall k :: 0 <= k < |mask| && mask[k] ==> ii[0] <= k <= ii[|ii| - 1]
  {
    var ii := Where(mask);
    forall k | 0 <= k < |mask| && mask[k]
      ensures ii[0] <= k <= ii[|ii| - 1]
    {
      var t :| 0 <= t < |ii| && ii[t] == k;
      if t > 0 { assert ii[0] < ii[t]; }
      if t < |ii| - 1 { assert ii[t] < ii[|ii| - 1]; }
    }
  }

  /**
   * The window of the wind-field grid that the hazard is computed on
   * from the configured bounding box. An empty overlap of either axis raises IndexError
   * before any tile is processed.
   */
  function SelectWindow(lon: seq<real>, lat: seq<real>, gL: Limits): (r: Result<Window>)
    ensures r.Ok? <==> Meets(lon, gL.xMin, gL.xMax) && Meets(lat, gL.yMin, gL.yMax)
    ensures r.Err? ==> r.error == IndexError
    ensures r.Ok? ==>
              && Covers(lon, gL.xMin, gL.xMax, r.value.imin, r.value.imax)
              && Covers(lat, gL.yMin, gL.yMax, r.value.jmin, r.value.jmax)
  {
    var ii := Span(lon, gL.xMin, gL.xMax);
    var jj := Span(lat, gL.yMin, gL.yMax);
    if ii.Err? then Err(ii.error)
    else if jj.Err? then Err(jj.error)
    else
      var (imin, imax) := ii.value;
      var (jmin, jmax) := jj.value;
      Ok(Window(imin, imax, jmin, jmax))
  }

  /** self.lon = wf_lon[imin:imax+1]: the coordinates of the window's columns. */
  function WindowCoords(v: seq<real>, first: nat, last: nat): (r: seq<real>)
    requires first <= last < |v|
    ensures |r| == last - first + 1
    ensures r[0] == v[first] && r[|r| - 1] == v[last]
    ensures forall k :: 0 <= k < |r| ==> r[k] == v[first + k]
  {
    v[first..last + 1]
  }
}
