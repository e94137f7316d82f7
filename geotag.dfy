/** The rule that turns a photo's EXIF GPS tags into a map pin. */
module Geotag {
  import opened GeoTypes
  import opened Coordinates

  /** The four tags read with `exif.getTag`; None where the tag is missing. */
  datatype ExifGps = ExifGps(
    latitude: Option<Dms>,
    longitude: Option<Dms>,
    latitudeRef: Option<string>,
    longitudeRef: Option<string>)

  /** `file.type.startsWith('image/')`: only such files get their tags read. */
  predicate IsImageType(mimeType: string)
    ensures IsImageType(mimeType) <==> |mimeType| >= 6 && mimeType[..6] == "image/"
  {
    "image/" <= mimeType
  }

  /** `tag || fallback`: a missing tag and an empty string both fall back. */
  function RefOrDefault(tag: Option<string>, fallback: string): (r: string)
    ensures tag.Some? && tag.value != "" ==> r == tag.value
    ensures tag.None? || tag.value == "" ==> r == fallback
  {
    match tag
    case Some(ref) => if ref != "" then ref else fallback
    case None => fallback
  }

  /** The marker the EXIF callback pushes for a photo, if any: one exactly when both
      GPS angles are present, named after the file, the latitude reference defaulting
      to "N" and the longitude reference to "W". */
  function MarkerFromExif(file: FileEntry, gps: ExifGps): (r: Option<ImageMarker>)
    ensures r.Some? <==> gps.latitude.Some? && gps.longitude.Some?
    ensures r.Some? ==> r.value.name == file.name
    ensures r.Some? ==> r.value.lat == ConvertDMSToDD(gps.latitude.value, RefOrDefault(gps.latitudeRef, "N"))
    ensures r.Some? ==> r.value.lon == ConvertDMSToDD(gps.longitude.value, RefOrDefault(gps.longitudeRef, "W"))
  {
    var latRef := RefOrDefault(gps.latitudeRef, "N");
    var lonRef := RefOrDefault(gps.longitudeRef, "W");
    if gps.latitude.Some? && gps.longitude.Some? then
      Some(ImageMarker(ConvertDMSToDD(gps.latitude.value, latRef),
                       ConvertDMSToDD(gps.longitude.value, lonRef),
                       file.name))
    else None
  }

  /** A non-negative angle without hemisphere tags lands north and west: its latitude
      is the angle itself and its longitude the negated angle, so never positive. */
  lemma UntaggedDefaultsNorthWest(file: FileEntry, lat: Dms, lon: Dms)
    requires lon.degrees >= 0.0 && lon.minutes >= 0.0 && lon.seconds >= 0.0
    ensures MarkerFromExif(file, ExifGps(Some(lat), Some(lon), None, None)).value.lat == Magnitude(lat)
    ensures MarkerFromExif(file, ExifGps(Some(lat), Some(lon), None, None)).value.lon == -Magnitude(lon)
    ensures MarkerFromExif(file, ExifGps(Some(lat), Some(lon), None, None)).value.lon <= 0.0
  {
  }
}
