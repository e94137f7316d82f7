/** The state of the `MapWithGPX` component and the handlers that change it.

    Every asynchronous callback (a FileReader `onload`, the xml2js and exif-js
    callbacks) is one method call here, and calls arrive one after another. */
module MapWithGpx {
  import opened GeoTypes
  import opened TrackDocument
  import opened Geotag
  import opened Ordering
  import opened Assets

  /** The key both name sorts compare. */
  function MarkerName(m: ImageMarker): string { m.name }

  function FileName(f: FileEntry): string { f.name }

  /** The seven `useState` fields of the component. */
  class GeoModel {
    var tracks: seq<seq<LatLng>>
    var waypoints: seq<Waypoint>
    var bounds: Option<Bounds>
    var imageMarkers: seq<ImageMarker>
    var highlightedWaypoint: Option<Highlight>
    var selectedImage: Option<ImageAsset>
    var imageFiles: seq<ImageAsset>

    /** There is at most one track; the bounds are null until a track is loaded and
        from then on are the envelope of exactly that track's points. */
    ghost predicate Valid()
      reads this`tracks, this`bounds
    {
      || (tracks == [] && bounds == None)
      || (|tracks| == 1 && tracks[0] != [] && bounds == Some(Envelope(tracks[0])))
    }

    /** The initial state: empty lists and null everywhere. */
    constructor ()
      ensures Valid()
      ensures tracks == [] && waypoints == [] && bounds == None && imageMarkers == []
      ensures highlightedWaypoint == None && selectedImage == None && imageFiles == []
    {
      tracks, waypoints, bounds, imageMarkers := [], [], None, [];
      highlightedWaypoint, selectedImage, imageFiles := None, None, [];
    }

    /** The `parseString` callback of the GPX upload. A parse error returns before
        any setter, and so does a missing trackpoint path (the read throws). Otherwise
        the track and the bounds are replaced wholesale; then the waypoint records
        replace the old list, unless a `wpt` without attributes makes that map throw,
        which leaves the waypoints as they were. */
    method HandleGpxParsed(outcome: ParseOutcome)
      requires Valid()
      modifies this`tracks, this`bounds, this`waypoints
      ensures Valid()
      ensures TrackPoints(outcome).None? ==>
                tracks == old(tracks) && bounds == old(bounds) && waypoints == old(waypoints)
      ensures TrackPoints(outcome).Some? ==>
                && tracks == [TrackPoints(outcome).value]
                && bounds == Some(Envelope(TrackPoints(outcome).value))
                && waypoints == match WaypointRecords(outcome.gpx.value.wpt)
                                case Some(records) => records
                                case None => old(waypoints)
      ensures |tracks| == 1 ==> forall i :: 0 <= i < |tracks[0]| ==> Contains(bounds.value, tracks[0][i])
    {
      if outcome.ParseError? {
        return;
      }
      var points := TrackPoints(outcome);
      if points.None? {
        return;
      }
      tracks := [points.value];
      bounds := Some(Envelope(points.value));
      var records := WaypointRecords(outcome.gpx.value.wpt);
      if records.None? {
        return;
      }
      waypoints := records.value;
    }

    /** `handleWaypointClick`: the last click wins. */
    method HandleWaypointClick(h: Highlight)
      modifies this`highlightedWaypoint
      ensures highlightedWaypoint == Some(h)
    {
      highlightedWaypoint := Some(h);
    }

    /** Clicking a photo pin's popup: shows the first loaded file with the pin's name,
        or nothing when there is none. */
    method ShowImage(name: string)
      modifies this`selectedImage
      ensures selectedImage == FindAsset(imageFiles, name)
      ensures selectedImage.None? <==> forall i :: 0 <= i < |imageFiles| ==> imageFiles[i].name != name
      ensures selectedImage.Some? ==> selectedImage.value.name == name && selectedImage.value in imageFiles
    {
      selectedImage := FindAsset(imageFiles, name);
    }

    /** Clicking a row of the photo table: highlights the photo and shows its file. */
    method ClickImageRow(marker: ImageMarker)
      modifies this`highlightedWaypoint, this`selectedImage
      ensures highlightedWaypoint == Some(HighlightMarker(marker))
      ensures selectedImage == FindAsset(imageFiles, marker.name)
    {
      HandleWaypointClick(HighlightMarker(marker));
      ShowImage(marker.name);
    }

    /** The photo table's `imageMarkers.sort(...)`, which reorders the state list in
        place: afterwards it holds the same markers in ascending name order. */
    method SortImageTable()
      modifies this`imageMarkers
      ensures SortedBy(imageMarkers, MarkerName)
      ensures multiset(imageMarkers) == multiset(old(imageMarkers))
    {
      var current := imageMarkers;
      var a := new ImageMarker[|current|](i requires 0 <= i < |current| => current[i]);
      assert a[..] == current;
      SortByKey(a, MarkerName);
      imageMarkers := a[..];
    }

    /** `handleDirectoryUpload`: sorts the selection by name and starts one batch
        whose reads deliver into it. Nothing in the state changes yet. */
    method HandleDirectoryUpload(selected: seq<FileEntry>) returns (batch: DirectoryBatch)
      ensures fresh(batch) && batch.Valid() && batch.model == this
      ensures SortedBy(batch.files, FileName)
      ensures multiset(batch.files) == multiset(selected)
      ensures batch.markers == [] && batch.fileList == []
      ensures batch.tagged == {} && batch.markerSources == [] && batch.readSources == []
    {
      var a := new FileEntry[|selected|](i requires 0 <= i < |selected| => selected[i]);
      assert a[..] == selected;
      SortByKey(a, FileName);
      batch := new DirectoryBatch(this, a[..]);
    }
  }

  /** One directory upload: the sorted files and the local `markers` and `fileList`
      arrays its callbacks push into. The ghost fields record which file each
      callback was for. */
  class DirectoryBatch {
    const model: GeoModel
    const files: seq<FileEntry>
    var markers: seq<ImageMarker>
    var fileList: seq<ImageAsset>
    ghost var tagged: set<nat>
    ghost var markerSources: seq<nat>
    ghost var readSources: seq<nat>

    /** Each marker was pushed by the EXIF callback of a distinct image file and is
        named after it; each `fileList` entry was pushed by the read of a distinct
        file and is named after it. */
    ghost predicate Valid()
      reads this
    {
      && MarkersFrom(files, tagged, markers, markerSources)
      && EntriesFrom(files, fileList, readSources)
    }

    constructor (model: GeoModel, files: seq<FileEntry>)
      ensures Valid() && this.model == model && this.files == files
      ensures markers == [] && fileList == []
      ensures tagged == {} && markerSources == [] && readSources == []
    {
      this.model := model;
      this.files := files;
      markers, fileList := [], [];
      tagged, markerSources, readSources := {}, [], [];
    }

    /** The EXIF callback for image file i (each fires once). A photo with both GPS
        angles appends exactly one marker, and the state receives a copy of the whole
        list; a photo without them changes nothing. */
    method OnImageLoaded(i: nat, gps: ExifGps)
      requires Valid() && model.Valid()
      requires i < |files| && IsImageType(files[i].mimeType) && i !in tagged
      modifies this`markers, this`tagged, this`markerSources, model`imageMarkers
      ensures Valid() && model.Valid()
      ensures tagged == old(tagged) + {i}
      ensures MarkerFromExif(files[i], gps).Some? ==>
                && markers == old(markers) + [MarkerFromExif(files[i], gps).value]
                && model.imageMarkers == markers
      ensures MarkerFromExif(files[i], gps).None? ==>
                markers == old(markers) && model.imageMarkers == old(model.imageMarkers)
    {
      tagged := tagged + {i};
      var marker := MarkerFromExif(files[i], gps);
      if marker.Some? {
        markers := markers + [marker.value];
        markerSources := markerSources + [i];
        model.imageMarkers := markers;
      }
    }

    /** The data-URL read of file i, image or not (each fires once). Appends one
        entry; the list goes into the state only when it has as many entries as there
        are files, and then every file's name and every pin's name resolves in it. */
    method OnDataUrlLoaded(i: nat, url: string)
      requires Valid() && model.Valid()
      requires i < |files| && i !in readSources
      modifies this`fileList, this`readSources, model`imageFiles
      ensures Valid() && model.Valid()
      ensures fileList == old(fileList) + [ImageAsset(files[i].name, url)]
      ensures readSources == old(readSources) + [i]
      ensures model.imageFiles == if |fileList| == |files| then fileList else old(model.imageFiles)
      ensures |fileList| == |files| ==>
                forall j :: 0 <= j < |files| ==> FindAsset(model.imageFiles, files[j].name).Some?
      ensures |fileList| == |files| ==>
                forall k :: 0 <= k < |markers| ==> FindAsset(model.imageFiles, markers[k].name).Some?
    {
      EntryAppended(files, fileList, readSources, i, url);
      fileList := fileList + [ImageAsset(files[i].name, url)];
      readSources := readSources + [i];
      if |fileList| == |files| {
        model.imageFiles := fileList;
        CompleteListCovers(files, fileList, readSources, tagged, markers, markerSources);
      }
    }
  }

  /** Once a batch has one entry per file, every file has an entry, and so every
      marker's name resolves to one. */
  lemma CompleteListCovers(files: seq<FileEntry>, fileList: seq<ImageAsset>, readSources: seq<nat>,
                           tagged: set<nat>, markers: seq<ImageMarker>, markerSources: seq<nat>)
    requires EntriesFrom(files, fileList, readSources) && |fileList| == |files|
    requires MarkersFrom(files, tagged, markers, markerSources)
    ensures forall j :: 0 <= j < |files| ==> FindAsset(fileList, files[j].name).Some?
    ensures forall k :: 0 <= k < |markers| ==> FindAsset(fileList, markers[k].name).Some?
  {
    DistinctIndicesCover(readSources, |files|);
    forall j | 0 <= j < |files|
      ensures FindAsset(fileList, files[j].name).Some?
    {
      assert j in readSources;
      var k :| 0 <= k < |readSources| && readSources[k] == j;
      assert fileList[k].name == files[j].name;
    }
  }

  /** Each marker was pushed by the EXIF callback of a distinct tagged image file and
      is named after it. */
  ghost predicate MarkersFrom(files: seq<FileEntry>, tagged: set<nat>, markers: seq<ImageMarker>, markerSources: seq<nat>) {
    && (forall i :: i in tagged ==> i < |files| && IsImageType(files[i].mimeType))
    && |markerSources| == |markers|
    && Distinct(markerSources)
    && (forall k :: 0 <= k < |markers| ==>
          markerSources[k] in tagged && markers[k].name == files[markerSources[k]].name)
  }

  /** Each entry was pushed by the read of a distinct file and is named after it. */
  ghost predicate EntriesFrom(files: seq<FileEntry>, fileList: seq<ImageAsset>, readSources: seq<nat>) {
    && |readSources| == |fileList|
    && Distinct(readSources)
    && (forall k :: 0 <= k < |fileList| ==>
          readSources[k] < |files| && fileList[k].name == files[readSources[k]].name)
  }

  /** The read of a file not read before appends an entry that keeps EntriesFrom. */
  lemma EntryAppended(files: seq<FileEntry>, fileList: seq<ImageAsset>, readSources: seq<nat>, i: nat, url: string)
    requires EntriesFrom(files, fileList, readSources)
    requires i < |files| && i !in readSources
    ensures EntriesFrom(files, fileList + [ImageAsset(files[i].name, url)], readSources + [i])
  {
  }

  /** n distinct indices below n are all of them. */
  lemma DistinctIndicesCover(s: seq<nat>, n: nat)
    requires |s| == n && Distinct(s)
    requires forall k :: 0 <= k < |s| ==> s[k] < n
    ensures forall i :: 0 <= i < n ==> i in s
  {
    forall i | 0 <= i < n
      ensures i in s
    {
      if i !in s {
        DistinctWithin(s, IndicesBelow(n) - {i});
        assert false;
      }
    }
  }

  /** A sequence without repetitions drawn from u is no longer than u is large. */
  lemma {:induction false} DistinctWithin(s: seq<nat>, u: set<nat>)
    requires Distinct(s)
    requires forall k :: 0 <= k < |s| ==> s[k] in u
    ensures |s| <= |u|
  {
    if |s| > 0 {
      DistinctWithin(s[1..], u - {s[0]});
    }
  }

  /** The indices 0 .. n-1. */
  function IndicesBelow(n: nat): (r: set<nat>)
    ensures forall j: nat :: j in r <==> j < n
    ensures |r| == n
  {
    if n == 0 then {} else IndicesBelow(n - 1) + {n - 1}
  }
}
