/** AccessController: the fail-closed decision whether a reported location
    may use the application. */
module Access {
  import opened Wrappers
  import opened Values
  import opened Geometry

  datatype UserLocation = UserLocation(lat: real, lon: real)

  /** The `(is_valid, error_message)` pair. */
  datatype Decision = Decision(allowed: bool, message: string)

  const GpsUnavailable: string :=
    "GPS is not available. " + "This service is restricted to users physically within the MUT campus boundaries."
  const BoundaryUnavailable: string := "Campus boundary data is not available."
  const OutsideCampus: string :=
    "You are outside the MUT campus boundaries. " + "This application is only accessible from within campus."

  predicate IsDenial(message: string)
  {
    message == GpsUnavailable || message == BoundaryUnavailable || message == OutsideCampus
  }

  /** `is_location_valid`. The containment test is the even-odd rule of
      `point_in_polygon`, whose division by zero escapes as it does there. */
  function IsLocationValid(boundary: seq<Coord>, location: Option<UserLocation>): (r: Result<Decision, Exception>)
    // a missing location is refused first, whatever the boundary
    ensures location.None? ==> r == Ok(Decision(false, GpsUnavailable))
    // then a missing boundary, for every location
    ensures location.Some? && boundary == [] ==> r == Ok(Decision(false, BoundaryUnavailable))
    // an exception only where the containment test raises one
    ensures r.Err? <==> location.Some? && DividesByZeroSomewhere(location.value.lat, location.value.lon, boundary)
    // access is granted with an empty message and refused with one of three
    ensures r.Ok? ==> (r.value.allowed <==> r.value.message == "")
    ensures r.Ok? && !r.value.allowed ==> IsDenial(r.value.message)
    // granted only to a located point the ray crosses the boundary an odd number of times from
    ensures r.Ok? && r.value.allowed ==>
      location.Some? && boundary != [] &&
      CrossingCount(location.value.lat, location.value.lon, boundary, |boundary|) % 2 == 1
  {
    if location.None? then Ok(Decision(false, GpsUnavailable))
    else if boundary == [] then Ok(Decision(false, BoundaryUnavailable))
    else
      match RayCast(location.value.lat, location.value.lon, boundary)
      case Err(e) => Err(e)
      case Ok(inside) =>
        if !inside then Ok(Decision(false, OutsideCampus)) else Ok(Decision(true, ""))
  }

  /** Fail closed: access is granted exactly when there is a location and the
      containment test places it inside the boundary. */
  lemma AllowedExactlyInside(boundary: seq<Coord>, location: Option<UserLocation>)
    ensures IsLocationValid(boundary, location) == Ok(Decision(true, "")) <==>
      location.Some? && RayCast(location.value.lat, location.value.lon, boundary) == Ok(true)
  {
    if location.Some? && boundary == [] {
      assert CrossingCount(location.value.lat, location.value.lon, boundary, 0) == 0;
    }
  }

  /** The three reasons for refusal can be told apart, and a refusal for a
      point outside names neither missing GPS nor a missing boundary. */
  lemma DenialsDistinct(boundary: seq<Coord>, location: UserLocation)
    requires boundary != []
    requires RayCast(location.lat, location.lon, boundary) == Ok(false)
    ensures IsLocationValid(boundary, Some(location)) == Ok(Decision(false, OutsideCampus))
    ensures OutsideCampus != GpsUnavailable && OutsideCampus != BoundaryUnavailable
    ensures GpsUnavailable != BoundaryUnavailable
  {
    assert GpsUnavailable[0] == 'G' && BoundaryUnavailable[0] == 'C' && OutsideCampus[0] == 'Y';
  }
}
