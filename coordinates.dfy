/** Degrees/minutes/seconds to signed decimal degrees, and back. */
module Coordinates {

  /** An EXIF GPS angle: three rationals, read as reals. */
  datatype Dms = Dms(degrees: real, minutes: real, seconds: real)

  /** Which coordinate a hemisphere letter belongs to. */
  datatype Axis = Latitude | Longitude

  /** The unsigned angle the triple denotes. */
  function Magnitude(dms: Dms): real {
    dms.degrees + dms.minutes / 60.0 + dms.seconds / 3600.0
  }

  /** The hemisphere letters that make a coordinate negative. */
  predicate IsNegativeRef(ref: string) {
    ref == "S" || ref == "W"
  }

  /** `convertDMSToDD`: the magnitude, negated for the southern and western
      hemispheres; any other reference (including an unknown one) keeps it. */
  function ConvertDMSToDD(dms: Dms, ref: string): (dd: real)
    ensures IsNegativeRef(ref) ==> dd == -Magnitude(dms)
    ensures !IsNegativeRef(ref) ==> dd == Magnitude(dms)
  {
    var dd := dms.degrees + dms.minutes / 60.0 + dms.seconds / (60.0 * 60.0);
    if ref == "S" || ref == "W" then dd * -1.0 else dd
  }

  /** The letter written for a non-negative coordinate on the given axis. */
  function PositiveRef(axis: Axis): string {
    match axis
    case Latitude => "N"
    case Longitude => "E"
  }

  /** The letter written for a negative coordinate on the given axis. */
  function NegativeRef(axis: Axis): string {
    match axis
    case Latitude => "S"
    case Longitude => "W"
  }

  /** A DMS triple in canonical form: whole degrees and minutes, both
      minutes and seconds below sixty. */
  predicate Canonical(dms: Dms) {
    && dms.degrees == dms.degrees.Floor as real && dms.degrees >= 0.0
    && dms.minutes == dms.minutes.Floor as real && 0.0 <= dms.minutes < 60.0
    && 0.0 <= dms.seconds < 60.0
  }

  /** The inverse of ConvertDMSToDD: splits a decimal coordinate into a canonical
      triple and a hemisphere letter (as a camera writes an EXIF GPS tag). */
  function ToDms(dd: real, axis: Axis): (r: (Dms, string))
    ensures Canonical(r.0)
    ensures IsNegativeRef(r.1) <==> dd < 0.0
  {
    var a := if dd < 0.0 then -dd else dd;
    var d := a.Floor;
    var restMinutes := (a - d as real) * 60.0;
    var m := restMinutes.Floor;
    var s := (restMinutes - m as real) * 60.0;
    (Dms(d as real, m as real, s), if dd < 0.0 then NegativeRef(axis) else PositiveRef(axis))
  }

  /** Writing a coordinate as an EXIF triple and reading it back with
      ConvertDMSToDD gives the coordinate again. */
  lemma ToDmsRoundTrip(dd: real, axis: Axis)
    ensures ConvertDMSToDD(ToDms(dd, axis).0, ToDms(dd, axis).1) == dd
  {
  }

  /** For the same triple, "S"/"W" give exactly the negation of "N"/"E", so with a
      non-negative triple a southern or western reference never yields a positive value. */
  lemma HemisphereFlip(dms: Dms, axis: Axis)
    ensures ConvertDMSToDD(dms, NegativeRef(axis)) == -ConvertDMSToDD(dms, PositiveRef(axis))
    ensures dms.degrees >= 0.0 && dms.minutes >= 0.0 && dms.seconds >= 0.0 ==>
              ConvertDMSToDD(dms, NegativeRef(axis)) <= 0.0 <= ConvertDMSToDD(dms, PositiveRef(axis))
  {
  }
}
