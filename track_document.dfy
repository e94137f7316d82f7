/** What the GPX upload handler extracts from the tree that xml2js builds:
    the first segment's trackpoints, the waypoint records and the bounds.

    The tree is modelled as xml2js lays it out with its default options: every
    child element name maps to an array of the children with that name, and the
    key is missing when there is no such child, so a missing key is an empty
    sequence here. Attributes live under `$`. */
module TrackDocument {
  import opened GeoTypes

  /** A `trkpt` element. A coordinate is None when its attribute (or the whole
      `$` object) is missing or not numeric: Leaflet's `LatLng` then throws. */
  datatype Trkpt = Trkpt(lat: Option<real>, lon: Option<real>)

  /** A `trkseg` element with its `trkpt` children. */
  datatype Trkseg = Trkseg(trkpt: seq<Trkpt>)

  /** A `trk` element with its `trkseg` children. */
  datatype Trk = Trk(trkseg: seq<Trkseg>)

  /** The `$` attribute object of a `wpt` element. */
  datatype WptAttrs = WptAttrs(lat: Option<string>, lon: Option<string>)

  /** A `wpt` element: its attributes (None when it has none, so that `wpt.$`
      is undefined) and the texts of its `name` and `time` children. */
  datatype Wpt = Wpt(attrs: Option<WptAttrs>, name: seq<string>, time: seq<string>)

  /** The `gpx` root element. */
  datatype Gpx = Gpx(trk: seq<Trk>, wpt: seq<Wpt>)

  /** What `parseString` hands to its callback: an error, or a result whose
      `gpx` property may be missing (an empty document yields a null result,
      a document with another root element has no `gpx`). */
  datatype ParseOutcome = ParseError | Parsed(gpx: Option<Gpx>)

  /** The trackpoint elements at `result.gpx.trk[0].trkseg[0].trkpt`, or None when
      that path is missing and reading it throws. */
  function FirstSegment(outcome: ParseOutcome): (r: Option<seq<Trkpt>>)
    ensures r.Some? <==>
              && outcome.Parsed? && outcome.gpx.Some?
              && |outcome.gpx.value.trk| > 0
              && |outcome.gpx.value.trk[0].trkseg| > 0
              && |outcome.gpx.value.trk[0].trkseg[0].trkpt| > 0
    ensures r.Some? ==> r.value == outcome.gpx.value.trk[0].trkseg[0].trkpt
  {
    match outcome
    case ParseError => None
    case Parsed(None) => None
    case Parsed(Some(gpx)) =>
      if |gpx.trk| == 0 || |gpx.trk[0].trkseg| == 0 || |gpx.trk[0].trkseg[0].trkpt| == 0 then None
      else Some(gpx.trk[0].trkseg[0].trkpt)
  }

  /** A trackpoint that carries both coordinates. */
  predicate HasCoordinates(pt: Trkpt) {
    pt.lat.Some? && pt.lon.Some?
  }

  /** `trkpt.map(pt => new LatLng(pt.$.lat, pt.$.lon))`: one LatLng per element,
      in document order; the map throws (None) at the first element without
      coordinates. */
  function MapTrackpoints(pts: seq<Trkpt>): (r: Option<seq<LatLng>>)
    ensures r.Some? <==> forall i :: 0 <= i < |pts| ==> HasCoordinates(pts[i])
    ensures r.Some? ==> |r.value| == |pts|
    ensures r.Some? ==> forall i :: 0 <= i < |pts| ==> r.value[i] == LatLng(pts[i].lat.value, pts[i].lon.value)
  {
    if |pts| == 0 then Some([])
    else if !HasCoordinates(pts[0]) then None
    else match MapTrackpoints(pts[1..])
      case None => None
      case Some(rest) => Some([LatLng(pts[0].lat.value, pts[0].lon.value)] + rest)
  }

  /** The points of the single track that a successful upload installs. */
  function TrackPoints(outcome: ParseOutcome): (r: Option<seq<LatLng>>)
    ensures r.Some? <==> FirstSegment(outcome).Some? &&
                         forall i :: 0 <= i < |FirstSegment(outcome).value| ==> HasCoordinates(FirstSegment(outcome).value[i])
    ensures r.Some? ==> r.value != []
    ensures r.Some? ==> |r.value| == |FirstSegment(outcome).value|
    ensures r.Some? ==> forall i :: 0 <= i < |r.value| ==>
              r.value[i] == LatLng(FirstSegment(outcome).value[i].lat.value, FirstSegment(outcome).value[i].lon.value)
  {
    match FirstSegment(outcome)
    case None => None
    case Some(pts) => MapTrackpoints(pts)
  }

  /** The record built for one `wpt` element, given that it has attributes:
      the first `name` child, else "Waypoint"; the `time` children, else the
      empty string. */
  function WaypointRecord(w: Wpt): (r: Waypoint)
    requires w.attrs.Some?
    ensures r.lat == w.attrs.value.lat && r.lon == w.attrs.value.lon
    ensures |w.name| > 0 ==> r.name == w.name[0]
    ensures |w.name| == 0 ==> r.name == "Waypoint"
    ensures r.time == if |w.time| > 0 then TimeChildren(w.time) else EmptyTime
  {
    Waypoint(w.attrs.value.lat, w.attrs.value.lon,
             if |w.time| > 0 then TimeChildren(w.time) else EmptyTime,
             if |w.name| > 0 then w.name[0] else "Waypoint")
  }

  /** `wpt.map(...)`: one record per `wpt` element, in order; the map throws (None)
      at the first element without attributes, whose `wpt.$.lat` is read from undefined. */
  function WaypointRecords(wpts: seq<Wpt>): (r: Option<seq<Waypoint>>)
    ensures r.Some? <==> forall i :: 0 <= i < |wpts| ==> wpts[i].attrs.Some?
    ensures r.Some? ==> |r.value| == |wpts|
    ensures r.Some? ==> forall i :: 0 <= i < |wpts| ==> r.value[i] == WaypointRecord(wpts[i])
  {
    if |wpts| == 0 then Some([])
    else if wpts[0].attrs.None? then None
    else match WaypointRecords(wpts[1..])
      case None => None
      case Some(rest) => Some([WaypointRecord(wpts[0])] + rest)
  }

  /** `LatLngBounds.extend(p)`: the first point sets both corners, later points
      push the corners outwards. */
  function Extend(b: Bounds, p: LatLng): (r: Bounds)
    ensures r.Box? && Contains(r, p)
    ensures forall q :: Contains(b, q) ==> Contains(r, q)
  {
    match b
    case EmptyBounds => Box(p.lat, p.lng, p.lat, p.lng)
    case Box(s, w, n, e) =>
      Box(if p.lat < s then p.lat else s, if p.lng < w then p.lng else w,
          if p.lat > n then p.lat else n, if p.lng > e then p.lng else e)
  }

  /** `new LatLngBounds(points)`: the points folded into an empty bounds in order.
      It is a box exactly when there are points, and it contains every one of them. */
  function Envelope(pts: seq<LatLng>): (b: Bounds)
    ensures b.Box? <==> |pts| > 0
    ensures forall i :: 0 <= i < |pts| ==> Contains(b, pts[i])
  {
    if |pts| == 0 then EmptyBounds
    else Extend(Envelope(pts[..|pts| - 1]), pts[|pts| - 1])
  }

  /** Every edge of the envelope is reached by one of the points, so no smaller box
      contains them all: the envelope is the smallest such box. */
  lemma {:induction false} EnvelopeIsTight(pts: seq<LatLng>)
    requires |pts| > 0
    ensures exists i :: 0 <= i < |pts| && pts[i].lat == Envelope(pts).south
    ensures exists i :: 0 <= i < |pts| && pts[i].lat == Envelope(pts).north
    ensures exists i :: 0 <= i < |pts| && pts[i].lng == Envelope(pts).west
    ensures exists i :: 0 <= i < |pts| && pts[i].lng == Envelope(pts).east
  {
    var n := |pts| - 1;
    var init := pts[..n];
    if n == 0 {
      assert pts[0].lat == Envelope(pts).south && pts[0].lng == Envelope(pts).west;
    } else {
      EnvelopeIsTight(init);
      var b := Envelope(init);
      var s :| 0 <= s < n && init[s].lat == b.south;
      var no :| 0 <= no < n && init[no].lat == b.north;
      var w :| 0 <= w < n && init[w].lng == b.west;
      var e :| 0 <= e < n && init[e].lng == b.east;
      var last := pts[n];
      var r := Envelope(pts);
      assert r == Extend(b, last);
      assert pts[if last.lat < b.south then n else s].lat == r.south;
      assert pts[if last.lat > b.north then n else no].lat == r.north;
      assert pts[if last.lng < b.west then n else w].lng == r.west;
      assert pts[if last.lng > b.east then n else e].lng == r.east;
    }
  }

  /** Any box that contains every point also contains the envelope's box. */
  lemma EnvelopeIsSmallest(pts: seq<LatLng>, c: Bounds)
    requires |pts| > 0 && c.Box?
    requires forall i :: 0 <= i < |pts| ==> Contains(c, pts[i])
    ensures c.south <= Envelope(pts).south && Envelope(pts).north <= c.north
    ensures c.west <= Envelope(pts).west && Envelope(pts).east <= c.east
  {
  }

  /** A document holding one track with one segment of the given points, and the
      given waypoints. */
  function SingleTrackDocument(pts: seq<LatLng>, wpts: seq<Wpt>): ParseOutcome {
    Parsed(Some(Gpx([Trk([Trkseg(seq(|pts|, i requires 0 <= i < |pts| => Trkpt(Some(pts[i].lat), Some(pts[i].lng))))])], wpts)))
  }

  /** Writing points into a document and extracting the track gives them back, in
      order; the bounds are then their envelope. */
  lemma TrackPointsRoundTrip(pts: seq<LatLng>, wpts: seq<Wpt>)
    requires pts != []
    ensures TrackPoints(SingleTrackDocument(pts, wpts)) == Some(pts)
  {
    var r := TrackPoints(SingleTrackDocument(pts, wpts));
    assert r.Some?;
    assert r.value == pts;
  }
}
