# GPX map: data core

A Dafny model of the data logic inside the `MapWithGPX` React component. The component
loads a GPX track file and a folder of photos and shows them on a Leaflet map and in two
tables. The model covers the following parts:

- **Coordinates** (`coordinates.dfy`): `convertDMSToDD`, which turns an EXIF
  degrees/minutes/seconds triple and a hemisphere letter into signed decimal degrees.
  Its inverse `ToDms` splits a coordinate into a canonical triple and a letter, and a
  round-trip lemma connects the two.
- **TrackDocument** (`track_document.dfy`): the tree that xml2js builds from a GPX file,
  and what the upload callback takes from it. That is the points of
  `gpx.trk[0].trkseg[0].trkpt` in document order, one record per `wpt`, and the
  Leaflet bounds of the points. The bounds are shown to contain every point and to be
  the smallest box that does.
- **Geotag** (`geotag.dfy`): the EXIF callback's rule. A photo yields a pin only when
  both GPS angles are present. A missing or empty reference defaults to `N` for
  latitude and `W` for longitude.
- **Ordering** (`ordering.dfy`): JavaScript's string order. It also holds the in-place
  name sort that the upload applies to the selected files and the photo table applies
  to the photo list. With distinct names, the sorted list does not depend on the order
  in which the photos arrived.
- **Assets** (`assets.dfy`): `imageFiles.find(...)`, which returns the first file whose
  name matches, or nothing.
- **MapWithGpx** (`map_state.dfy`): class `GeoModel`, whose fields are the component's
  seven `useState` fields, and the handlers that overwrite them. Class `DirectoryBatch`
  holds one folder upload: its sorted files and the local `markers` and `fileList`
  arrays that the read callbacks push into. Each asynchronous callback is one method
  call, and calls arrive one after another.

Three behaviours of the code are worth knowing, and the model keeps them:

- A `wpt` element without attributes makes the waypoint mapping throw at line 74. By
  then `setTracks` and `setBounds` have already run. `HandleGpxParsed` therefore
  replaces the track and the bounds but keeps the old waypoints.
- A new folder upload does not clear the old photo pins or the old files. They change
  only when the new batch's first pin arrives, or when all of its reads have completed.
- No batch is tagged with a generation. A callback from an earlier upload can still
  overwrite the pins or the files.

## Model

| member | source | states |
|---|---|---|
| `Coordinates.ConvertDMSToDD` | src/components/MapWithGPX.js:126-135 | the result is degrees + minutes/60 + seconds/3600 when the reference is neither "S" nor "W", and exactly its negation when it is |
| `Coordinates.ToDms` | src/components/MapWithGPX.js:126-135 | inverse direction: a coordinate becomes a canonical triple (whole degrees and minutes, minutes and seconds below 60) with a negative letter exactly when the coordinate is negative |
| `Coordinates.ToDmsRoundTrip` | src/components/MapWithGPX.js:126-135 | converting the triple that `ToDms` produces gives back the original coordinate |
| `Coordinates.HemisphereFlip` | src/components/MapWithGPX.js:131-133 | for one triple, "S"/"W" give the negation of "N"/"E", and a non-negative triple is never positive in the south or west |
| `TrackDocument.FirstSegment` | src/components/MapWithGPX.js:62-67 | the trackpoints are found exactly when the parse succeeded and `gpx`, `trk[0]`, `trkseg[0]` and `trkpt` all exist |
| `TrackDocument.MapTrackpoints` | src/components/MapWithGPX.js:67 | one LatLng per `trkpt`, in document order, with that element's coordinates; the mapping fails exactly when some element lacks a coordinate |
| `TrackDocument.TrackPoints` | src/components/MapWithGPX.js:62-68 | a track exists exactly when the path exists and every point has coordinates; it is non-empty and holds the first segment's points in order |
| `TrackDocument.TrackPointsRoundTrip` | src/components/MapWithGPX.js:67-68 | points written into a one-track, one-segment document come back unchanged and in order |
| `TrackDocument.WaypointRecord` | src/components/MapWithGPX.js:73-78 | a record takes the raw lat/lon attributes, the first `name` child or else "Waypoint", and the `time` children or else the empty string |
| `TrackDocument.WaypointRecords` | src/components/MapWithGPX.js:73-79 | one record per `wpt`, in order, and an empty list when there is none; the mapping fails exactly when some `wpt` has no attributes |
| `TrackDocument.Extend` | src/components/MapWithGPX.js:71 | extending bounds by a point gives a box that contains the point and everything the old bounds contained |
| `TrackDocument.Envelope` | src/components/MapWithGPX.js:70-72 | the bounds are a box exactly when there are points, and contain every point |
| `TrackDocument.EnvelopeIsTight` | src/components/MapWithGPX.js:70-72 | each of the four edges of the bounds is reached by some point |
| `TrackDocument.EnvelopeIsSmallest` | src/components/MapWithGPX.js:70-72 | any box containing every point contains the bounds |
| `Geotag.IsImageType` | src/components/MapWithGPX.js:93 | a file's tags are read exactly when its type is at least six characters long and starts with "image/" |
| `Geotag.RefOrDefault` | src/components/MapWithGPX.js:99-100 | a present, non-empty reference tag is kept; a missing or empty one gives the default |
| `Geotag.MarkerFromExif` | src/components/MapWithGPX.js:97-104 | a pin exists exactly when both GPS angles exist; it is named after the file, and its coordinates are the converted angles with references defaulting to "N" and "W" |
| `Geotag.UntaggedDefaultsNorthWest` | src/components/MapWithGPX.js:99-103 | without reference tags the latitude is the angle itself and a non-negative longitude comes out non-positive |
| `Ordering.LexLess` | src/components/MapWithGPX.js:88 | the `>` comparison on names: a name never comes before itself, and a proper prefix comes before any longer name that extends it |
| `Ordering.LexLessFirstDifference` | src/components/MapWithGPX.js:223 | one name comes before another exactly when it is a proper prefix of it, or when at the first position where they differ its character is smaller |
| `Ordering.LexLessTotal` | src/components/MapWithGPX.js:87-89 | two different names are always ordered one way or the other by the `>` comparison |
| `Ordering.LexLessTransitive` | src/components/MapWithGPX.js:87-89 | the name order is transitive |
| `Ordering.LexLessAsymmetric` | src/components/MapWithGPX.js:223 | no two names each come before the other |
| `Ordering.SortByKey` | src/components/MapWithGPX.js:87-89 | the in-place sort leaves the array in ascending name order and holding the same elements (a permutation) |
| `Ordering.SortedArrangementIsUnique` | src/components/MapWithGPX.js:223 | two name-sorted lists with the same elements and distinct names are equal |
| `Ordering.DistinctKeysPermutation` | src/components/MapWithGPX.js:223 | rearranging a list keeps its names distinct |
| `Ordering.ArrivalOrderDoesNotMatter` | src/components/MapWithGPX.js:104-105 | sorting two arrival orders of the same distinctly named pins gives the same table |
| `Assets.FindAsset` | src/components/MapWithGPX.js:169 | the result is the asset at the first position holding the name, or nothing exactly when no asset has that name |
| `Assets.FindAssetInPrefix` | src/components/MapWithGPX.js:228 | entries appended after a match never change what a name resolves to: the first insertion wins |
| `MapWithGpx.GeoModel.constructor` | src/components/MapWithGPX.js:48-54 | all lists start empty and bounds, highlight and selection start null |
| `MapWithGpx.GeoModel.HandleGpxParsed` | src/components/MapWithGPX.js:62-79 | parse error or missing path: nothing changes; otherwise the track list becomes the one new track and the bounds its envelope, replacing earlier ones; the waypoints become the new records unless that mapping throws; the bounds contain every track point |
| `MapWithGpx.GeoModel.HandleWaypointClick` | src/components/MapWithGPX.js:137-139 | the highlight is the last clicked entry |
| `MapWithGpx.GeoModel.ShowImage` | src/components/MapWithGPX.js:168-171 | the selected image is the first loaded file with the pin's name, or nothing when there is none |
| `MapWithGpx.GeoModel.ClickImageRow` | src/components/MapWithGPX.js:226-230 | a photo row click highlights that photo and selects its first matching file |
| `MapWithGpx.GeoModel.SortImageTable` | src/components/MapWithGPX.js:223 | the pin list is reordered in place into ascending name order, as a permutation of itself |
| `MapWithGpx.GeoModel.HandleDirectoryUpload` | src/components/MapWithGPX.js:86-92 | a new batch holds the selection sorted by name (a permutation of it), with empty local lists and no file yet tagged or read; the state is not touched |
| `MapWithGpx.DirectoryBatch.constructor` | src/components/MapWithGPX.js:90-112 | a batch starts with no markers, no file entries, and no file tagged or read |
| `MapWithGpx.DirectoryBatch.OnImageLoaded` | src/components/MapWithGPX.js:93-107 | the file is recorded as tagged; an image with both angles appends exactly one pin and leaves earlier pins unchanged, and the state receives the whole list; otherwise the pins and the state do not change; every pin comes from a distinct image file and carries its name |
| `MapWithGpx.DirectoryBatch.OnDataUrlLoaded` | src/components/MapWithGPX.js:113-121 | each read appends one `{name, url}` entry and records the file as read; the list is published exactly when its length reaches the number of files, and then every file's name and every pin's name finds an entry |
| `MapWithGpx.CompleteListCovers` | src/components/MapWithGPX.js:118-119 | once the list has one entry per file, looking up any file's name or any pin's name in it finds an entry |
| `MapWithGpx.DistinctIndicesCover` | src/components/MapWithGPX.js:118-119 | as many distinct completed reads as files means every file was read |

## Left out

- Rendering: JSX, `MapContainer`, `TileLayer`, `Polyline`, `Marker`, `CircleMarker` and the icon setup, including `getIcon` (lines 9-35 and 146-251). This is presentation only.
- `FitBoundsControl` and `map.fitBounds` (lines 37-45). This is a side effect of the map renderer.
- `toLocalTime` (lines 141-144). It only formats dates for the current locale.
- The `FileReader` reads (lines 59, 82, 94, 109, 114, 122). Each `onload` is a method call that receives the result. The data URL is an opaque string parameter. The buffer read before the EXIF lookup is unused by the code and is not modelled.
- The upload handler's `if (file)` guard (line 58). With no file chosen, nothing happens and no callback is ever called.
- xml2js and exif-js internals. Their outputs are input datatypes. A missing child key is an empty sequence, because xml2js never creates an empty child array. A `name` child that is itself an object is not modelled.
- Leaflet's `LatLng` constructor. A trackpoint coordinate that is absent, or that `Number()` turns into NaN, makes it throw; such a coordinate is represented as None. An empty or blank attribute becomes 0 instead of throwing, and that case is not modelled, because no parsing from strings is modelled.
- Floating point. Coordinates are `real`, and IEEE rounding is not modelled.
- Waypoint coordinates stay the raw attribute strings, as in the code.
- React's update scheduling. Every setter takes effect at once, in call order.
- Concurrency. Callbacks are delivered one at a time. Each read fires its callback at most once, which the callbacks' preconditions state. A failed read never calls back, so its batch never publishes its file list.
- String order. JavaScript compares UTF-16 code units, while Dafny compares Unicode scalar values. The two orders differ only for characters outside the Basic Multilingual Plane.
- `Ordering.SortByKey`: does not say where entries with equal names end up. The comparator never returns 0, so the order of equal names depends on the engine. The contract promises only ascending order and a permutation.
