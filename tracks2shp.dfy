/**
 * Writing cyclone tracks to a shapefile: the record-array field filter
 * recdropfields, and the choice of points, segments, parts and records that
 * tracks2point and tracks2line hand to the shapefile writer.
 */
module Tracks2Shp {
  import opened Common
  import opened Numeric

  // ---------------------------------------------------------------------
  // Record arrays
  // ---------------------------------------------------------------------

  /**
   * The value of a numpy record array: its field names in dtype order, one
   * column per field, and its number of records.
   */
  datatype Table = Table(names: seq<string>, columns: map<string, seq<real>>, size: nat)

  predicate WellFormed(tb: Table) {
    forall n :: n in tb.names ==> n in tb.columns && |tb.columns[n]| == tb.size
  }

  /** The dtype comprehension: the names not in drop, in their original order. */
  function KeptNames(names: seq<string>, drop: set<string>): (r: seq<string>)
    ensures |r| <= |names|
  {
    if names == [] then []
    else (if names[0] in drop then [] else [names[0]]) + KeptNames(names[1..], drop)
  }

  /** A name survives exactly when it is a field and is not dropped. */
  lemma {:induction false} KeptNamesMembers(names: seq<string>, drop: set<string>)
    ensures forall n :: n in KeptNames(names, drop) <==> n in names && n !in drop
  {
    if names != [] {
      KeptNamesMembers(names[1..], drop);
      assert names == [names[0]] + names[1..];
    }
  }

  /** The comprehension keeps order: it distributes over concatenation. */
  lemma {:induction false} KeptNamesAppend(a: seq<string>, b: seq<string>, drop: set<string>)
    ensures KeptNames(a + b, drop) == KeptNames(a, drop) + KeptNames(b, drop)
  {
    if a != [] {
      var head := if a[0] in drop then [] else [a[0]];
      assert (a + b)[0] == a[0];
      assert (a + b)[1..] == a[1..] + b;
      KeptNamesAppend(a[1..], b, drop);
      calc {
        KeptNames(a + b, drop);
        head + KeptNames(a[1..] + b, drop);
        head + (KeptNames(a[1..], drop) + KeptNames(b, drop));
        (head + KeptNames(a[1..], drop)) + KeptNames(b, drop);
      }
    } else {
      assert a + b == b;
    }
  }

  /** Dropping the same names a second time changes nothing. */
  lemma {:induction false} KeptNamesTwice(names: seq<string>, drop: set<string>)
    ensures KeptNames(KeptNames(names, drop), drop) == KeptNames(names, drop)
  {
    if names != [] {
      KeptNamesTwice(names[1..], drop);
      KeptNamesAppend(if names[0] in drop then [] else [names[0]], KeptNames(names[1..], drop), drop);
    }
  }

  /** Names to drop that are not fields of the array are ignored. */
  lemma {:induction false} KeptNamesIgnoresAbsent(names: seq<string>, drop: set<string>)
    ensures KeptNames(names, drop) == KeptNames(names, drop * (set n | n in names))
  {
    if names != [] {
      KeptNamesIgnoresAbsent(names[1..], drop);
      assert forall n :: n in names[1..] ==> n in names;
      assert KeptNames(names[1..], drop * (set n | n in names[1..])) ==
             KeptNames(names[1..], drop * (set n | n in names)) by {
        KeptNamesSameOnNames(names[1..], drop * (set n | n in names[1..]), drop * (set n | n in names));
      }
    }
  }

  lemma {:induction false} KeptNamesSameOnNames(names: seq<string>, d1: set<string>, d2: set<string>)
    requires forall n :: n in names ==> (n in d1 <==> n in d2)
    ensures KeptNames(names, d1) == KeptNames(names, d2)
  {
    if names != [] {
      KeptNamesSameOnNames(names[1..], d1, d2);
    }
  }

  /** The value recdropfields produces: the kept fields, each column copied unchanged. */
  function DropTable(tb: Table, drop: set<string>): (r: Table)
    requires WellFormed(tb)
    ensures WellFormed(r)
    ensures r.size == tb.size
    ensures forall n :: n in r.names <==> n in tb.names && n !in drop
    ensures forall n :: n in r.names ==> r.columns[n] == tb.columns[n]
  {
    KeptNamesMembers(tb.names, drop);
    var kept := KeptNames(tb.names, drop);
    Table(kept, map n | n in kept :: tb.columns[n], tb.size)
  }

  /** Dropping a field set twice is dropping it once. */
  lemma DropTwice(tb: Table, drop: set<string>)
    requires WellFormed(tb)
    ensures DropTable(DropTable(tb, drop), drop) == DropTable(tb, drop)
  {
    KeptNamesTwice(tb.names, drop);
  }

  /** A numpy record array, filled in place field by field. */
  class RecArray {
    var names: seq<string>
    var columns: map<string, seq<real>>
    const size: nat

    constructor (names: seq<string>, size: nat)
      ensures this.names == names && this.size == size && columns == map[]
    {
      this.names := names;
      this.size := size;
      columns := map[];
    }

    function Value(): Table
      reads this
    {
      Table(names, columns, size)
    }

    predicate Valid()
      reads this
    {
      WellFormed(Value())
    }
  }

  /**
   * recdropfields: a new record array of the same shape whose dtype keeps the
   * fields not named in names, each filled from the old array.
   */
  method RecDropFields(rec: RecArray, names: seq<string>) returns (newrec: RecArray)
    requires rec.Valid()
    ensures fresh(newrec) && newrec.Valid()
    ensures newrec.Value() == DropTable(rec.Value(), set n | n in names)
  {
    var drop := set n | n in names;
    var newnames := KeptNames(rec.names, drop);
    KeptNamesMembers(rec.names, drop);
    newrec := new RecArray(newnames, rec.size);
    for c := 0 to |newnames|
      invariant newrec.names == newnames && newrec.size == rec.size
      invariant newrec.columns == map n | n in newnames[..c] :: rec.columns[n]
    {
      CopyColumn(newnames, c, rec.columns);
      newrec.columns := newrec.columns[newnames[c] := rec.columns[newnames[c]]];
    }
    assert newnames[..|newnames|] == newnames;
  }

  /** Copying column c extends the columns copied so far by that one name. */
  lemma CopyColumn(names: seq<string>, c: nat, columns: map<string, seq<real>>)
    requires c < |names| && forall n :: n in names ==> n in columns
    ensures (map n | n in names[..c] :: columns[n])[names[c] := columns[names[c]]] ==
            map n | n in names[..c + 1] :: columns[n]
  {
    assert names[..c + 1] == names[..c] + [names[c]];
  }

  // ---------------------------------------------------------------------
  // Tracks and the shapefile writer
  // ---------------------------------------------------------------------

  const Datetime: set<string> := {"Datetime"}

  /** The fields the writers read from a track's data. */
  const TrackFields: seq<string> :=
    ["CycloneNumber", "Year", "Month", "Day", "Hour", "Minute", "TimeElapsed",
     "Longitude", "Latitude"]

  predicate IsTrackTable(tb: Table) {
    WellFormed(tb) && forall n :: n in TrackFields ==> n in tb.names
  }

  /** Dropping Datetime keeps every field the writers read. */
  lemma DropKeepsTrack(tb: Table)
    requires IsTrackTable(tb)
    ensures IsTrackTable(DropTable(tb, Datetime))
  {
    assert forall n :: n in TrackFields ==> n !in Datetime;
  }

  /** A cyclone track: its observations and the two per-track summaries. */
  class Track {
    var data: RecArray
    const trackMinPressure: real
    const trackMaxWind: real

    constructor (data: RecArray, trackMinPressure: real, trackMaxWind: real)
      ensures this.data == data
      ensures this.trackMinPressure == trackMinPressure && this.trackMaxWind == trackMaxWind
    {
      this.data := data;
      this.trackMinPressure := trackMinPressure;
      this.trackMaxWind := trackMaxWind;
    }
  }

  type Vertex = (real, real)

  datatype Shape = PointShape(x: real, y: real) | LineShape(parts: seq<seq<Vertex>>)

  /** shapefile.Writer: the shapes and the records appended so far. */
  class Writer {
    var shapes: seq<Shape>
    var records: seq<seq<real>>

    constructor ()
      ensures shapes == [] && records == []
    {
      shapes, records := [], [];
    }

    method Point(x: real, y: real)
      modifies this
      ensures shapes == old(shapes) + [PointShape(x, y)] && records == old(records)
    {
      shapes := shapes + [PointShape(x, y)];
    }

    method Line(parts: seq<seq<Vertex>>)
      modifies this
      ensures shapes == old(shapes) + [LineShape(parts)] && records == old(records)
    {
      shapes := shapes + [LineShape(parts)];
    }

    method Record(values: seq<real>)
      modifies this
      ensures records == old(records) + [values] && shapes == old(shapes)
    {
      records := records + [values];
    }
  }

  /** The column of one of the fields the writers read. */
  function Field(tb: Table, name: string): (r: seq<real>)
    requires IsTrackTable(tb) && name in TrackFields
    ensures |r| == tb.size
  {
    tb.columns[name]
  }

  /** Record i of the array: the i-th value of every field, in dtype order. */
  function Row(tb: Table, i: nat): (r: seq<real>)
    requires WellFormed(tb) && i < tb.size
    ensures |r| == |tb.names|
  {
    seq(|tb.names|, c requires 0 <= c < |tb.names| => tb.columns[tb.names[c]][i])
  }

  function Rows(tb: Table): (r: seq<seq<real>>)
    requires WellFormed(tb)
    ensures |r| == tb.size
  {
    seq(tb.size, i requires 0 <= i < tb.size => Row(tb, i))
  }

  // ---------------------------------------------------------------------
  // The tracks' own state across the writers
  // ---------------------------------------------------------------------

  function Tables(tracks: seq<Track>): (r: seq<Table>)
    reads set t | t in tracks
    reads set t | t in tracks :: t.data
    ensures |r| == |tracks|
  {
    seq(|tracks|, j requires 0 <= j < |tracks| reads tracks, set t | t in tracks :: t.data =>
      tracks[j].data.Value())
  }

  /** Every track's data is a record array holding the fields the writers read. */
  predicate TrackTables(tbs: seq<Table>) {
    forall j :: 0 <= j < |tbs| ==> IsTrackTable(tbs[j])
  }

  /** A track object listed twice has the same data at both positions. */
  predicate SameObjectSameData(tracks: seq<Track>, tbs: seq<Table>) {
    |tbs| == |tracks| &&
    forall j, k :: 0 <= j < |tracks| && 0 <= k < |tracks| && tracks[j] == tracks[k] ==> tbs[j] == tbs[k]
  }

  /**
   * The first i tracks (and every later listing of the same objects) have had
   * Datetime dropped from their data; the others still hold their original data.
   */
  predicate DroppedUpTo(tracks: seq<Track>, orig: seq<Table>, i: nat)
    requires |orig| == |tracks| && i <= |tracks| && TrackTables(orig)
    reads set t | t in tracks
    reads set t | t in tracks :: t.data
  {
    forall j :: 0 <= j < |tracks| ==>
      tracks[j].data.Value() ==
        if tracks[j] in tracks[..i] then DropTable(orig[j], Datetime) else orig[j]
  }

  /** track.data = recdropfields(track.data, ['Datetime']) */
  method DropDatetime(track: Track)
    requires track.data.Valid()
    modifies track
    ensures fresh(track.data) && track.data.Valid()
    ensures track.data.Value() == DropTable(old(track.data.Value()), Datetime)
  {
    var newrec := RecDropFields(track.data, ["Datetime"]);
    assert (set n | n in ["Datetime"]) == Datetime;
    track.data := newrec;
  }

  /** Dropping Datetime from track i keeps DroppedUpTo, however often the object is listed. */
  method DropNext(tracks: seq<Track>, ghost orig: seq<Table>, i: nat)
    requires i < |tracks| && TrackTables(orig) && SameObjectSameData(tracks, orig)
    requires DroppedUpTo(tracks, orig, i)
    modifies tracks[i]
    ensures DroppedUpTo(tracks, orig, i + 1)
    ensures tracks[i].data.Value() == DropTable(orig[i], Datetime)
  {
    ghost var before := tracks[i].data.Value();
    if tracks[i] in tracks[..i] {
      DropTwice(orig[i], Datetime);
    }
    DropDatetime(tracks[i]);
    assert tracks[..i + 1] == tracks[..i] + [tracks[i]];
    forall j | 0 <= j < |tracks|
      ensures tracks[j].data.Value() ==
        if tracks[j] in tracks[..i + 1] then DropTable(orig[j], Datetime) else orig[j]
    {
      if tracks[j] == tracks[i] {
        assert orig[j] == orig[i];
      }
    }
  }

  // ---------------------------------------------------------------------
  // tracks2point
  // ---------------------------------------------------------------------

  /** One point per observation, at (Longitude[i], Latitude[i]). */
  function Points(tb: Table): (r: seq<Shape>)
    requires IsTrackTable(tb)
    ensures |r| == tb.size
  {
    seq(tb.size, i requires 0 <= i < tb.size => PointShape(Field(tb, "Longitude")[i], Field(tb, "Latitude")[i]))
  }

  /** The shapes tracks2point writes for the first i tracks. */
  function PointShapes(orig: seq<Table>, i: nat): seq<Shape>
    requires i <= |orig| && TrackTables(orig)
  {
    if i == 0 then [] else
      DropKeepsTrack(orig[i - 1]);
      PointShapes(orig, i - 1) + Points(DropTable(orig[i - 1], Datetime))
  }

  /** The records tracks2point writes for the first i tracks: every observation, Datetime dropped. */
  function PointRecords(orig: seq<Table>, i: nat): seq<seq<real>>
    requires i <= |orig| && TrackTables(orig)
  {
    if i == 0 then [] else PointRecords(orig, i - 1) + Rows(DropTable(orig[i - 1], Datetime))
  }

  /** The number of observations over the first i tracks. */
  function Observations(orig: seq<Table>, i: nat): nat
    requires i <= |orig|
  {
    if i == 0 then 0 else Observations(orig, i - 1) + orig[i - 1].size
  }

  /** tracks2point writes one point and one record per observation. */
  lemma {:induction false} PointsPerObservation(orig: seq<Table>, i: nat)
    requires i <= |orig| && TrackTables(orig)
    ensures |PointShapes(orig, i)| == Observations(orig, i)
    ensures |PointRecords(orig, i)| == Observations(orig, i)
  {
    if i > 0 {
      PointsPerObservation(orig, i - 1);
      DropKeepsTrack(orig[i - 1]);
      var tb := DropTable(orig[i - 1], Datetime);
      assert PointShapes(orig, i) == PointShapes(orig, i - 1) + Points(tb);
      assert PointRecords(orig, i) == PointRecords(orig, i - 1) + Rows(tb);
      assert tb.size == orig[i - 1].size;
    }
  }

  /** The inner loop: sf.point(lon, lat) and sf.record(*rec) for each observation. */
  method WritePoints(sf: Writer, tb: Table)
    requires IsTrackTable(tb)
    modifies sf
    ensures sf.shapes == old(sf.shapes) + Points(tb)
    ensures sf.records == old(sf.records) + Rows(tb)
  {
    for i := 0 to tb.size
      invariant sf.shapes == old(sf.shapes) + Points(tb)[..i]
      invariant sf.records == old(sf.records) + Rows(tb)[..i]
    {
      sf.Point(Field(tb, "Longitude")[i], Field(tb, "Latitude")[i]);
      sf.Record(Row(tb, i));
      assert Points(tb)[..i + 1] == Points(tb)[..i] + [Points(tb)[i]];
      assert Rows(tb)[..i + 1] == Rows(tb)[..i] + [Rows(tb)[i]];
    }
    assert Points(tb)[..tb.size] == Points(tb);
    assert Rows(tb)[..tb.size] == Rows(tb);
  }

  /** One pass of the tracks2point loop: drop Datetime from track i, then write its points. */
  method PointTrack(sf: Writer, tracks: seq<Track>, ghost orig: seq<Table>, i: nat)
    requires i < |tracks| && TrackTables(orig) && SameObjectSameData(tracks, orig)
    requires DroppedUpTo(tracks, orig, i)
    modifies sf, tracks[i]
    ensures DroppedUpTo(tracks, orig, i + 1)
    ensures IsTrackTable(DropTable(orig[i], Datetime))
    ensures sf.shapes == old(sf.shapes) + Points(DropTable(orig[i], Datetime))
    ensures sf.records == old(sf.records) + Rows(DropTable(orig[i], Datetime))
  {
    DropNext(tracks, orig, i);
    DropKeepsTrack(orig[i]);
    WritePoints(sf, tracks[i].data.Value());
  }

  /** tracks2point: every track's Datetime field dropped, then its observations written as points. */
  method Tracks2Point(tracks: seq<Track>) returns (sf: Writer)
    requires TrackTables(Tables(tracks))
    modifies set t | t in tracks
    ensures fresh(sf)
    ensures sf.shapes == PointShapes(old(Tables(tracks)), |tracks|)
    ensures sf.records == PointRecords(old(Tables(tracks)), |tracks|)
    ensures DroppedUpTo(tracks, old(Tables(tracks)), |tracks|)
  {
    ghost var orig := Tables(tracks);
    sf := new Writer();
    for i := 0 to |tracks|
      invariant fresh(sf)
      invariant DroppedUpTo(tracks, orig, i)
      invariant sf.shapes == PointShapes(orig, i)
      invariant sf.records == PointRecords(orig, i)
    {
      PointTrack(sf, tracks, orig, i);
      assert sf.shapes == PointShapes(orig, i + 1);
      assert sf.records == PointRecords(orig, i + 1);
    }
  }

  // ---------------------------------------------------------------------
  // tracks2line, one feature per observation
  // ---------------------------------------------------------------------

  function At(lon: seq<real>, lat: seq<real>, k: nat): Vertex
    requires |lon| == |lat| && k < |lon|
  {
    (lon[k], lat[k])
  }

  /** A zero-length line at point k. */
  function Degenerate(lon: seq<real>, lat: seq<real>, k: nat): Shape
    requires |lon| == |lat| && k < |lon|
  {
    LineShape([[At(lon, lat, k), At(lon, lat, k)]])
  }

  /** Line k: from point k to point k+1, or degenerate at k where the step crosses 0E. */
  function Segment(lon: seq<real>, lat: seq<real>, k: nat): Shape
    requires |lon| == |lat| && k + 1 < |lon|
  {
    if lon[k + 1] - lon[k] < -180.0 then Degenerate(lon, lat, k)
    else LineShape([[At(lon, lat, k), At(lon, lat, k + 1)]])
  }

  /**
   * The lines of one track when segments are not dissolved: one per pair of
   * consecutive points, then a degenerate line at the last point. A track of
   * one point gives a single degenerate line.
   */
  function SegmentLines(lon: seq<real>, lat: seq<real>): (r: seq<Shape>)
    requires |lon| == |lat| > 0
    ensures |r| == |lon|
  {
    if |lon| == 1 then [Degenerate(lon, lat, 0)]
    else seq(|lon| - 1, k requires 0 <= k < |lon| - 1 => Segment(lon, lat, k)) +
         [Degenerate(lon, lat, |lon| - 1)]
  }

  /** Where line k ends: at point k+1 unless k is last or the step crosses 0E. */
  function SegmentEnd(lon: seq<real>, lat: seq<real>, k: nat): Vertex
    requires |lon| == |lat| && k < |lon|
  {
    if k + 1 < |lon| && lon[k + 1] - lon[k] >= -180.0 then At(lon, lat, k + 1) else At(lon, lat, k)
  }

  /**
   * Line k of a track is a single part that starts at point k and ends at
   * point k+1, except at the last point and across 0E where it stays at k.
   */
  lemma SegmentLinesAre(lon: seq<real>, lat: seq<real>, k: nat)
    requires |lon| == |lat| && k < |lon|
    ensures SegmentLines(lon, lat)[k] == LineShape([[At(lon, lat, k), SegmentEnd(lon, lat, k)]])
  {
    if |lon| > 1 && k + 1 < |lon| {
      assert SegmentLines(lon, lat)[k] == Segment(lon, lat, k);
    }
  }

  /** Lines that do not cross 0E join up: each ends where the next one starts. */
  lemma SegmentLinesConnect(lon: seq<real>, lat: seq<real>, k: nat)
    requires |lon| == |lat| && k + 1 < |lon| && lon[k + 1] - lon[k] >= -180.0
    ensures SegmentLines(lon, lat)[k].parts[0][1] == SegmentLines(lon, lat)[k + 1].parts[0][0]
  {
    SegmentLinesAre(lon, lat, k);
    SegmentLinesAre(lon, lat, k + 1);
  }

  /**
   * The inner loops of the non-dissolved branch: one line and one record per
   * observation, the last point's line degenerate.
   */
  method WriteSegments(sf: Writer, tb: Table)
    requires IsTrackTable(tb) && tb.size > 0
    modifies sf
    ensures sf.shapes == old(sf.shapes) + SegmentLines(Field(tb, "Longitude"), Field(tb, "Latitude"))
    ensures sf.records == old(sf.records) + Rows(tb)
  {
    var lon, lat := Field(tb, "Longitude"), Field(tb, "Latitude");
    if tb.size == 1 {
      sf.Line([[At(lon, lat, 0), At(lon, lat, 0)]]);
      sf.Record(Row(tb, 0));
      assert Rows(tb) == [Row(tb, 0)];
    } else {
      var last := tb.size - 1;
      WritePairs(sf, tb, lon, lat);
      sf.Line([[At(lon, lat, last), At(lon, lat, last)]]);
      sf.Record(Row(tb, last));
      var lines := SegmentLines(lon, lat);
      assert lines == lines[..last] + [lines[last]];
      assert Rows(tb) == Rows(tb)[..last] + [Rows(tb)[last]];
    }
  }

  /** The loop over consecutive pairs: a line and a record for every observation but the last. */
  method WritePairs(sf: Writer, tb: Table, lon: seq<real>, lat: seq<real>)
    requires IsTrackTable(tb) && tb.size > 1
    requires lon == Field(tb, "Longitude") && lat == Field(tb, "Latitude")
    modifies sf
    ensures sf.shapes == old(sf.shapes) + SegmentLines(lon, lat)[..tb.size - 1]
    ensures sf.records == old(sf.records) + Rows(tb)[..tb.size - 1]
  {
    var lines := SegmentLines(lon, lat);
    for n := 0 to tb.size - 1
      invariant sf.shapes == old(sf.shapes) + lines[..n]
      invariant sf.records == old(sf.records) + Rows(tb)[..n]
    {
      WriteSegment(sf, lon, lat, n);
      sf.Record(Row(tb, n));
      assert lines[n] == Segment(lon, lat, n);
      assert lines[..n + 1] == lines[..n] + [lines[n]];
      assert Rows(tb)[..n + 1] == Rows(tb)[..n] + [Rows(tb)[n]];
    }
  }

  /** One pass of the segment loop: line n, degenerate where the step crosses 0E. */
  method WriteSegment(sf: Writer, lon: seq<real>, lat: seq<real>, n: nat)
    requires |lon| == |lat| && n + 1 < |lon|
    modifies sf
    ensures sf.shapes == old(sf.shapes) + [Segment(lon, lat, n)] && sf.records == old(sf.records)
  {
    if lon[n + 1] - lon[n] < -180.0 {
      sf.Line([[At(lon, lat, n), At(lon, lat, n)]]);
    } else {
      sf.Line([[At(lon, lat, n), At(lon, lat, n + 1)]]);
    }
  }

  // ---------------------------------------------------------------------
  // tracks2line, one feature per track (dissolve)
  // ---------------------------------------------------------------------

  /** np.argmin: the first index holding the smallest value. */
  function ArgMin(s: seq<real>): (r: nat)
    requires |s| > 0
    ensures r < |s|
    ensures forall j :: 0 <= j < |s| ==> s[r] <= s[j]
    ensures forall j :: 0 <= j < r ==> s[r] < s[j]
  {
    if |s| == 1 then 0
    else
      var m := ArgMin(s[..|s| - 1]);
      assert forall j :: 0 <= j < |s| - 1 ==> s[..|s| - 1][j] == s[j];
      if s[|s| - 1] < s[m] then |s| - 1 else m
  }

  /** izip(lon[lo:hi], lat[lo:hi]): the points lo .. hi-1 of the track. */
  function Polyline(lon: seq<real>, lat: seq<real>, lo: nat, hi: nat): (r: seq<Vertex>)
    requires |lon| == |lat| && lo <= hi <= |lon|
    ensures |r| == hi - lo
    ensures forall j :: 0 <= j < |r| ==> r[j] == At(lon, lat, lo + j)
  {
    seq(hi - lo, j requires 0 <= j < hi - lo => At(lon, lat, lo + j))
  }

  /** Two adjacent stretches of a track joined are the stretch they span. */
  lemma PolylineSplit(lon: seq<real>, lat: seq<real>, lo: nat, mid: nat, hi: nat)
    requires |lon| == |lat| && lo <= mid <= hi <= |lon|
    ensures Polyline(lon, lat, lo, mid) + Polyline(lon, lat, mid, hi) == Polyline(lon, lat, lo, hi)
  {
    var first, second, all := Polyline(lon, lat, lo, mid), Polyline(lon, lat, mid, hi), Polyline(lon, lat, lo, hi);
    forall j | 0 <= j < hi - lo
      ensures (first + second)[j] == all[j]
    {
      if j >= mid - lo {
        assert (first + second)[j] == second[j - (mid - lo)];
      }
    }
  }

  /** The track crosses 0E: some step is below -180 degrees. */
  predicate Crosses(lon: seq<real>) {
    |lon| > 1 && Diffs(lon)[ArgMin(Diffs(lon))] < -180.0
  }

  /** Where the split falls: the step with the smallest (most negative) dlon. */
  function SplitAt(lon: seq<real>): (idx: nat)
    requires Crosses(lon)
    ensures idx + 1 < |lon| && lon[idx + 1] - lon[idx] < -180.0
    ensures forall k :: 0 <= k < |lon| - 1 ==> lon[idx + 1] - lon[idx] <= lon[k + 1] - lon[k]
  {
    ArgMin(Diffs(lon))
  }

  /**
   * The parts of a dissolved track as written: one part with every point, or,
   * across 0E, the points before idx and the points after idx.
   */
  function AsWrittenParts(lon: seq<real>, lat: seq<real>): seq<seq<Vertex>>
    requires |lon| == |lat|
  {
    if Crosses(lon) then
      var idx := SplitAt(lon);
      [Polyline(lon, lat, 0, idx), Polyline(lon, lat, idx + 1, |lon|)]
    else [Polyline(lon, lat, 0, |lon|)]
  }

  /** Across 0E the written parts hold one point fewer than the track: point idx is lost. */
  lemma AsWrittenDropsPoint(lon: seq<real>, lat: seq<real>)
    requires |lon| == |lat| && Crosses(lon)
    ensures var parts := AsWrittenParts(lon, lat);
            |parts| == 2 && |parts[0]| + |parts[1]| == |lon| - 1 &&
            parts[0] + [At(lon, lat, SplitAt(lon))] + parts[1] == Polyline(lon, lat, 0, |lon|)
  {
    var idx := SplitAt(lon);
    var first, second := Polyline(lon, lat, 0, idx), Polyline(lon, lat, idx + 1, |lon|);
    assert AsWrittenParts(lon, lat) == [first, second];
    assert first + [At(lon, lat, idx)] + second == Polyline(lon, lat, 0, |lon|) by {
      var point := Polyline(lon, lat, idx, idx + 1);
      assert point == [At(lon, lat, idx)];
      PolylineSplit(lon, lat, idx, idx + 1, |lon|);
      PolylineSplit(lon, lat, 0, idx, |lon|);
      AppendAssoc(first, point, second);
    }
  }

  lemma AppendAssoc<T>(a: seq<T>, b: seq<T>, c: seq<T>)
    ensures a + b + c == a + (b + c)
  {
  }

  /** A track from 350E through 355E to 5E: the point at 355E belongs to neither part. */
  lemma AsWrittenExample()
    ensures var lon, lat := [350.0, 355.0, 5.0], [-10.0, -11.0, -12.0];
            AsWrittenParts(lon, lat) == [[(350.0, -10.0)], [(5.0, -12.0)]]
  {
    var lon, lat := [350.0, 355.0, 5.0], [-10.0, -11.0, -12.0];
    assert Diffs(lon) == [5.0, -350.0];
    assert ArgMin(Diffs(lon)) == 1 by {
      assert ArgMin(Diffs(lon)[..1]) == 0;
    }
    assert Crosses(lon) && SplitAt(lon) == 1;
    assert Polyline(lon, lat, 0, 1) == [(350.0, -10.0)];
    assert Polyline(lon, lat, 2, 3) == [(5.0, -12.0)];
  }

  /**
   * The evidently intended parts of a dissolved track: one part with every
   * point, or, across 0E, the points up to and including idx (`[:idx+1]`)
   * and the points after it. The writer above emits AsWrittenParts instead.
   */
  function DissolvedParts(lon: seq<real>, lat: seq<real>): seq<seq<Vertex>>
    requires |lon| == |lat|
  {
    if Crosses(lon) then
      var idx := SplitAt(lon);
      [Polyline(lon, lat, 0, idx + 1), Polyline(lon, lat, idx + 1, |lon|)]
    else [Polyline(lon, lat, 0, |lon|)]
  }

  /**
   * The dissolved parts hold every point of the track exactly once, in order;
   * across 0E the split step lies between the two parts.
   */
  lemma DissolvedPartsCover(lon: seq<real>, lat: seq<real>)
    requires |lon| == |lat|
    ensures var parts := DissolvedParts(lon, lat);
            (if Crosses(lon) then parts[0] + parts[1] else parts[0]) == Polyline(lon, lat, 0, |lon|)
    ensures Crosses(lon) ==>
              var parts := DissolvedParts(lon, lat);
              |parts| == 2 && parts[0][|parts[0]| - 1] == At(lon, lat, SplitAt(lon)) &&
              parts[1][0] == At(lon, lat, SplitAt(lon) + 1)
    ensures !Crosses(lon) ==> |DissolvedParts(lon, lat)| == 1
  {
    if Crosses(lon) {
      PolylineSplit(lon, lat, 0, SplitAt(lon) + 1, |lon|);
    }
  }

  /** The intended split differs from the written one only by point idx at the end of the first part. */
  lemma CorrectedAddsSplitPoint(lon: seq<real>, lat: seq<real>)
    requires |lon| == |lat| && Crosses(lon)
    ensures DissolvedParts(lon, lat)[0] == AsWrittenParts(lon, lat)[0] + [At(lon, lat, SplitAt(lon))]
    ensures DissolvedParts(lon, lat)[1] == AsWrittenParts(lon, lat)[1]
  {
    var idx := SplitAt(lon);
    var before, point := Polyline(lon, lat, 0, idx), Polyline(lon, lat, idx, idx + 1);
    assert AsWrittenParts(lon, lat)[0] == before;
    assert DissolvedParts(lon, lat)[0] == Polyline(lon, lat, 0, idx + 1);
    PolylineSplit(lon, lat, 0, idx, idx + 1);
    assert point == [At(lon, lat, idx)];
  }

  /**
   * The one record of a dissolved track: the first observation's cyclone
   * number and start time, the track's age, minimum pressure and maximum wind.
   */
  function EventRecord(tb: Table, minPressure: real, maxWind: real): (r: seq<real>)
    requires IsTrackTable(tb) && tb.size > 0
    ensures |r| == 9
    ensures forall i :: 0 <= i < tb.size ==> Field(tb, "TimeElapsed")[i] <= r[6]
    ensures r[6] in Field(tb, "TimeElapsed")
  {
    var elapsed := Field(tb, "TimeElapsed");
    StartFields(tb) + [MaxOf(elapsed), minPressure, maxWind]
  }

  /** The cyclone number and start time, read from the first observation. */
  function StartFields(tb: Table): (r: seq<real>)
    requires IsTrackTable(tb) && tb.size > 0
    ensures |r| == 6
  {
    [Field(tb, "CycloneNumber")[0], Field(tb, "Year")[0], Field(tb, "Month")[0],
     Field(tb, "Day")[0], Field(tb, "Hour")[0], Field(tb, "Minute")[0]]
  }

  // ---------------------------------------------------------------------
  // tracks2line
  // ---------------------------------------------------------------------

  /** The lines tracks2line writes for one (non-empty, Datetime-dropped) track. */
  function TrackLines(tb: Table, dissolve: bool): (r: seq<Shape>)
    requires IsTrackTable(tb) && tb.size > 0
    ensures |r| == if dissolve then 1 else tb.size
  {
    if dissolve then [LineShape(AsWrittenParts(Field(tb, "Longitude"), Field(tb, "Latitude")))]
    else SegmentLines(Field(tb, "Longitude"), Field(tb, "Latitude"))
  }

  /** The records tracks2line writes for one track. */
  function TrackRecords(tb: Table, summary: (real, real), dissolve: bool): (r: seq<seq<real>>)
    requires IsTrackTable(tb) && tb.size > 0
    ensures |r| == if dissolve then 1 else tb.size
    ensures dissolve ==> |r[0]| == 9
  {
    if dissolve then [EventRecord(tb, summary.0, summary.1)] else Rows(tb)
  }

  /** tracks2line gives each track as many lines as records. */
  lemma LinesMatchRecords(tb: Table, summary: (real, real), dissolve: bool)
    requires IsTrackTable(tb) && tb.size > 0
    ensures |TrackLines(tb, dissolve)| == |TrackRecords(tb, summary, dissolve)|
    ensures |TrackLines(tb, dissolve)| == if dissolve then 1 else tb.size
  {
  }

  /** trackMinPressure and trackMaxWind of every track. */
  function Summaries(tracks: seq<Track>): (r: seq<(real, real)>)
    ensures |r| == |tracks|
  {
    seq(|tracks|, j requires 0 <= j < |tracks| => (tracks[j].trackMinPressure, tracks[j].trackMaxWind))
  }

  predicate NonEmptyUpTo(orig: seq<Table>, i: nat)
    requires i <= |orig|
  {
    forall j :: 0 <= j < i ==> orig[j].size > 0
  }

  /** The lines of track i of the call, once its Datetime field is dropped. */
  function LinesOf(orig: seq<Table>, i: nat, dissolve: bool): seq<Shape>
    requires i < |orig| && TrackTables(orig) && orig[i].size > 0
  {
    DropKeepsTrack(orig[i]);
    TrackLines(DropTable(orig[i], Datetime), dissolve)
  }

  /** The records of track i of the call, once its Datetime field is dropped. */
  function RecordsOf(orig: seq<Table>, summaries: seq<(real, real)>, i: nat, dissolve: bool): seq<seq<real>>
    requires i < |orig| == |summaries| && TrackTables(orig) && orig[i].size > 0
  {
    DropKeepsTrack(orig[i]);
    TrackRecords(DropTable(orig[i], Datetime), summaries[i], dissolve)
  }

  function LineShapes(orig: seq<Table>, i: nat, dissolve: bool): seq<Shape>
    requires i <= |orig| && TrackTables(orig) && NonEmptyUpTo(orig, i)
  {
    if i == 0 then [] else LineShapes(orig, i - 1, dissolve) + LinesOf(orig, i - 1, dissolve)
  }

  function LineRecords(orig: seq<Table>, summaries: seq<(real, real)>, i: nat, dissolve: bool): seq<seq<real>>
    requires i <= |orig| == |summaries| && TrackTables(orig) && NonEmptyUpTo(orig, i)
  {
    if i == 0 then []
    else LineRecords(orig, summaries, i - 1, dissolve) + RecordsOf(orig, summaries, i - 1, dissolve)
  }

  /** The first track with no observations. */
  function FirstEmpty(orig: seq<Table>): (e: nat)
    requires !NonEmptyUpTo(orig, |orig|)
    ensures e < |orig| && orig[e].size == 0 && NonEmptyUpTo(orig, e)
  {
    if orig[0].size == 0 then 0
    else
      assert !NonEmptyUpTo(orig[1..], |orig| - 1);
      1 + FirstEmpty(orig[1..])
  }

  /** Some track before position i has two or more observations. */
  predicate LongTrackBefore(orig: seq<Table>, i: nat)
    requires i <= |orig|
  {
    exists j :: 0 <= j < i && orig[j].size >= 2
  }

  /**
   * The exception an empty track raises. Dissolved: max() of an empty
   * TimeElapsed. Otherwise the final line reads the loop variable n, which
   * is unbound unless an earlier track of this call ran the segment loop, and
   * then indexes past the end of the empty track.
   */
  function EmptyTrackError(orig: seq<Table>, dissolve: bool): (r: Error)
    requires !NonEmptyUpTo(orig, |orig|)
    ensures r == ValueError <==> dissolve
    ensures !dissolve ==> (r == IndexError || r == NameError)
  {
    if dissolve then ValueError
    else if LongTrackBefore(orig, FirstEmpty(orig)) then IndexError
    else NameError
  }

  /**
   * The dissolved branch: the track as one polyline, split once across 0E
   * into the parts as written (point idx in neither), and one record.
   */
  method WriteDissolved(sf: Writer, tb: Table, minPressure: real, maxWind: real)
    requires IsTrackTable(tb) && tb.size > 0
    modifies sf
    ensures sf.shapes == old(sf.shapes) + [LineShape(AsWrittenParts(Field(tb, "Longitude"), Field(tb, "Latitude")))]
    ensures sf.records == old(sf.records) + [EventRecord(tb, minPressure, maxWind)]
  {
    var lon, lat := Field(tb, "Longitude"), Field(tb, "Latitude");
    if tb.size > 1 {
      var dlon := Diffs(lon);
      if dlon[ArgMin(dlon)] < -180.0 {
        var idx := ArgMin(dlon);
        sf.Line([Polyline(lon, lat, 0, idx), Polyline(lon, lat, idx + 1, |lon|)]);
      } else {
        sf.Line([Polyline(lon, lat, 0, |lon|)]);
      }
    } else {
      sf.Line([Polyline(lon, lat, 0, |lon|)]);
    }
    sf.Record(EventRecord(tb, minPressure, maxWind));
  }

  lemma LongTrackStep(orig: seq<Table>, i: nat)
    requires i < |orig|
    ensures LongTrackBefore(orig, i + 1) <==> LongTrackBefore(orig, i) || orig[i].size >= 2
  {
    if LongTrackBefore(orig, i + 1) && !LongTrackBefore(orig, i) {
      var j :| 0 <= j < i + 1 && orig[j].size >= 2;
      assert j == i;
    }
    if orig[i].size >= 2 {
      assert 0 <= i < i + 1 && orig[i].size >= 2;
    }
  }

  /** The first empty track met by the loop is the first empty track of all. */
  lemma EmptyTrackFound(orig: seq<Table>, i: nat)
    requires i < |orig| && NonEmptyUpTo(orig, i) && orig[i].size == 0
    ensures !NonEmptyUpTo(orig, |orig|) && FirstEmpty(orig) == i
  {
    var e := FirstEmpty(orig);
    assert e <= i by {
      assert !NonEmptyUpTo(orig, i + 1);
    }
    assert e >= i by {
      assert orig[e].size == 0;
    }
  }

  /** One pass of the tracks2line loop over a track with observations. */
  method LineTrack(sf: Writer, tracks: seq<Track>, ghost orig: seq<Table>, i: nat, dissolve: bool)
    requires i < |tracks| && TrackTables(orig) && SameObjectSameData(tracks, orig)
    requires DroppedUpTo(tracks, orig, i) && orig[i].size > 0
    modifies sf, tracks[i]
    ensures DroppedUpTo(tracks, orig, i + 1)
    ensures IsTrackTable(DropTable(orig[i], Datetime))
    ensures tracks[i].data.size == orig[i].size
    ensures sf.shapes == old(sf.shapes) + TrackLines(DropTable(orig[i], Datetime), dissolve)
    ensures sf.records == old(sf.records) +
              TrackRecords(DropTable(orig[i], Datetime), Summaries(tracks)[i], dissolve)
  {
    DropNext(tracks, orig, i);
    DropKeepsTrack(orig[i]);
    var tb := tracks[i].data.Value();
    if dissolve {
      WriteDissolved(sf, tb, tracks[i].trackMinPressure, tracks[i].trackMaxWind);
    } else {
      WriteSegments(sf, tb);
    }
  }

  /**
   * One iteration of the tracks2line loop: an empty track ends the call with
   * its exception, any other track is written. n is the segment loop's
   * variable, which outlives the loop.
   */
  method LineStep(sf: Writer, tracks: seq<Track>, ghost orig: seq<Table>, i: nat, dissolve: bool,
                  n: Option<nat>) returns (err: Option<Error>, n': Option<nat>)
    requires i < |tracks| && TrackTables(orig) && SameObjectSameData(tracks, orig)
    requires DroppedUpTo(tracks, orig, i) && NonEmptyUpTo(orig, i)
    requires !dissolve ==> (n.Some? <==> LongTrackBefore(orig, i))
    modifies sf, tracks[i]
    ensures err.Some? <==> orig[i].size == 0
    ensures err.Some? ==> !NonEmptyUpTo(orig, |orig|) && err.value == EmptyTrackError(orig, dissolve)
    ensures err.None? ==> DroppedUpTo(tracks, orig, i + 1) && NonEmptyUpTo(orig, i + 1)
    ensures err.None? ==> (!dissolve ==> (n'.Some? <==> LongTrackBefore(orig, i + 1)))
    ensures err.None? ==> sf.shapes == old(sf.shapes) + LinesOf(orig, i, dissolve)
    ensures err.None? ==> sf.records == old(sf.records) + RecordsOf(orig, Summaries(tracks), i, dissolve)
  {
    var size := tracks[i].data.size;
    assert size == orig[i].size by {
      assert tracks[i].data.Value() ==
        if tracks[i] in tracks[..i] then DropTable(orig[i], Datetime) else orig[i];
    }
    if size == 0 {
      EmptyTrackFound(orig, i);
      if dissolve {
        return Some(ValueError), n;
      } else if n.None? {
        return Some(NameError), n;
      } else {
        return Some(IndexError), n;
      }
    }
    assert NonEmptyUpTo(orig, i + 1);
    LongTrackStep(orig, i);
    LineTrack(sf, tracks, orig, i, dissolve);
    n' := if !dissolve && size >= 2 then Some(size - 2) else n;
    err := None;
  }

  /**
   * tracks2line: every track's Datetime field dropped, then its lines and
   * records written; an empty track raises before the file is saved.
   */
  method Tracks2Line(tracks: seq<Track>, dissolve: bool) returns (r: Result<Writer>)
    requires TrackTables(Tables(tracks))
    modifies set t | t in tracks
    ensures r.Ok? <==> NonEmptyUpTo(old(Tables(tracks)), |tracks|)
    ensures r.Err? ==> r.error == EmptyTrackError(old(Tables(tracks)), dissolve)
    ensures r.Ok? ==> fresh(r.value)
    ensures r.Ok? ==> r.value.shapes == LineShapes(old(Tables(tracks)), |tracks|, dissolve)
    ensures r.Ok? ==>
              r.value.records == LineRecords(old(Tables(tracks)), Summaries(tracks), |tracks|, dissolve)
    ensures r.Ok? ==> DroppedUpTo(tracks, old(Tables(tracks)), |tracks|)
  {
    ghost var orig := Tables(tracks);
    assert SameObjectSameData(tracks, orig) && DroppedUpTo(tracks, orig, 0);
    var sf := new Writer();
    var err := LineTracks(sf, tracks, orig, dissolve);
    if err.Some? {
      return Err(err.value);
    }
    return Ok(sf);
  }

  /** The loop of Tracks2Line: every track in turn, into the empty writer sf. */
  method LineTracks(sf: Writer, tracks: seq<Track>, ghost orig: seq<Table>, dissolve: bool)
    returns (err: Option<Error>)
    requires TrackTables(orig) && SameObjectSameData(tracks, orig) && DroppedUpTo(tracks, orig, 0)
    requires sf.shapes == [] && sf.records == []
    modifies sf, set t | t in tracks
    ensures err.None? <==> NonEmptyUpTo(orig, |tracks|)
    ensures err.Some? ==> err.value == EmptyTrackError(orig, dissolve)
    ensures err.None? ==> sf.shapes == LineShapes(orig, |tracks|, dissolve)
    ensures err.None? ==> sf.records == LineRecords(orig, Summaries(tracks), |tracks|, dissolve)
    ensures err.None? ==> DroppedUpTo(tracks, orig, |tracks|)
  {
    var n: Option<nat> := None;
    for i := 0 to |tracks|
      invariant DroppedUpTo(tracks, orig, i)
      invariant NonEmptyUpTo(orig, i)
      invariant !dissolve ==> (n.Some? <==> LongTrackBefore(orig, i))
      invariant sf.shapes == LineShapes(orig, i, dissolve)
      invariant sf.records == LineRecords(orig, Summaries(tracks), i, dissolve)
    {
      err, n := LineStep(sf, tracks, orig, i, dissolve, n);
      if err.Some? {
        return;
      }
      assert sf.shapes == LineShapes(orig, i + 1, dissolve);
      assert sf.records == LineRecords(orig, Summaries(tracks), i + 1, dissolve);
    }
    return None;
  }
}
