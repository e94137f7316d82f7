/** Values shared by the parts of the map component's data core. */
module GeoTypes {

  /** The usual Some/None wrapper; None stands for JavaScript's null/undefined. */
  datatype Option<+T> = None | Some(value: T)

  /** A Leaflet `LatLng`: one trackpoint in decimal degrees. */
  datatype LatLng = LatLng(lat: real, lng: real)

  /** A Leaflet `LatLngBounds`. Built from no points it has no corners (EmptyBounds);
      otherwise it is the box with south-west and north-east corners. */
  datatype Bounds = EmptyBounds | Box(south: real, west: real, north: real, east: real)

  /** `bounds.contains(p)` for a box. */
  predicate Contains(b: Bounds, p: LatLng) {
    b.Box? && b.south <= p.lat <= b.north && b.west <= p.lng <= b.east
  }

  /** The `time` of a waypoint record: xml2js's list of `time` children, or the
      empty string when the element has none. */
  datatype WaypointTime = TimeChildren(texts: seq<string>) | EmptyTime

  /** A waypoint record as listed in the waypoint table. Its coordinates stay the raw
      attribute strings (absent attributes are None). */
  datatype Waypoint = Waypoint(lat: Option<string>, lon: Option<string>, time: WaypointTime, name: string)

  /** A photo pin: decimal coordinates and the photo's file name. */
  datatype ImageMarker = ImageMarker(lat: real, lon: real, name: string)

  /** A loaded file: its name and its contents as a data URL. */
  datatype ImageAsset = ImageAsset(name: string, url: string)

  /** What a click highlights: a waypoint row, or a photo row (photo rows are
      passed to the same click handler). */
  datatype Highlight = HighlightWaypoint(waypoint: Waypoint) | HighlightMarker(marker: ImageMarker)

  /** A file of a directory selection: its name and MIME type. */
  datatype FileEntry = FileEntry(name: string, mimeType: string)

  /** No index occurs twice. */
  ghost predicate Distinct(s: seq<nat>) {
    forall p, q :: 0 <= p < q < |s| ==> s[p] != s[q]
  }
}
