/** The response-envelope part of RouteCalculator.get_walking_route: from the
    routing service's decoded JSON body to a RouteInfo or None. */
module Route {
  import opened Wrappers
  import opened Values
  import opened Text

  datatype RouteInfo = RouteInfo(distanceKm: real, durationMinutes: real, geometry: Json)

  function Pow10(d: nat): (p: nat)
    ensures p >= 1
  {
    if d == 0 then 1 else 10 * Pow10(d - 1)
  }

  /** Python's `round` to an integer: to the nearest integer, ties to the even
      one. */
  function RoundHalfEven(x: real): (n: int)
    ensures -1.0 / 2.0 <= n as real - x <= 1.0 / 2.0
    ensures (n as real - x == 1.0 / 2.0 || x - n as real == 1.0 / 2.0) ==> n % 2 == 0
  {
    var f := x.Floor;
    var frac := x - f as real;
    if frac < 1.0 / 2.0 then f
    else if frac > 1.0 / 2.0 then f + 1
    else if f % 2 == 0 then f
    else f + 1
  }

  /** Those two properties single the result out. */
  lemma RoundHalfEvenUnique(x: real, n: int)
    requires -1.0 / 2.0 <= n as real - x <= 1.0 / 2.0
    requires (n as real - x == 1.0 / 2.0 || x - n as real == 1.0 / 2.0) ==> n % 2 == 0
    ensures RoundHalfEven(x) == n
  {
    var m := RoundHalfEven(x);
    assert -1.0 <= (m - n) as real <= 1.0;
    if m != n {
      assert false;
    }
  }

  /** `round(x, digits)` with the scale `10 ** digits` given as `p`: within
      half a unit of the last kept digit. */
  function ScaledRound(x: real, p: real): (r: real)
    requires p >= 1.0
    ensures -1.0 / (2.0 * p) <= r - x <= 1.0 / (2.0 * p)
  {
    var n := RoundHalfEven(x * p) as real;
    ShiftOver(n, x, p);
    HalfOver(n - x * p, p);
    n / p
  }

  /** Python's `round(x, digits)` over exact reals, halves to even. */
  function Round(x: real, digits: nat): (r: real)
    ensures -1.0 / (2.0 * Pow10(digits) as real) <= r - x <= 1.0 / (2.0 * Pow10(digits) as real)
  {
    ScaledRound(x, Pow10(digits) as real)
  }

  /** The scaled result is a whole number of units `1/p` (so `round(x, 2)`
      has at most two decimals): the half-even rounding of `x * p`. */
  lemma ScaledRoundUnits(x: real, p: real)
    requires p >= 1.0
    ensures ScaledRound(x, p) * p == RoundHalfEven(x * p) as real
  {
    var m := RoundHalfEven(x * p);
    assert ScaledRound(x, p) == m as real / p;
  }

  lemma ShiftOver(n: real, x: real, p: real)
    requires p >= 1.0
    ensures n / p - x == (n - x * p) / p
  {
    assert (n / p - x) * p == n - x * p;
  }

  lemma HalfOver(e: real, p: real)
    requires p >= 1.0
    requires -1.0 / 2.0 <= e <= 1.0 / 2.0
    ensures -1.0 / (2.0 * p) <= e / p <= 1.0 / (2.0 * p)
  {
    var u := 1.0 / (2.0 * p);
    assert u * p == 1.0 / 2.0;
    var q := e / p;
    assert q * p == e;
    assert (u - q) * p == 1.0 / 2.0 - e;
    assert (u + q) * p == 1.0 / 2.0 + e;
  }

  lemma ScaledRoundOfMultiple(r: real, p: real, n: int)
    requires p >= 1.0
    requires r * p == n as real
    ensures ScaledRound(r, p) == r
  {
    var m := RoundHalfEven(r * p);
    assert ScaledRound(r, p) == m as real / p;
    RoundHalfEvenUnique(n as real, n);
    assert r == n as real / p;
  }

  lemma ScaledRoundIdempotent(x: real, p: real)
    requires p >= 1.0
    ensures ScaledRound(ScaledRound(x, p), p) == ScaledRound(x, p)
  {
    var n := RoundHalfEven(x * p);
    var r := ScaledRound(x, p);
    assert r == n as real / p;
    assert r * p == n as real;
    ScaledRoundOfMultiple(r, p, n);
  }

  /** Rounding an already rounded value changes nothing. */
  lemma RoundIdempotent(x: real, digits: nat)
    ensures Round(Round(x, digits), digits) == Round(x, digits)
  {
    ScaledRoundIdempotent(x, Pow10(digits) as real);
  }

  /** Python's `"routes" in data` for a truthy JSON value: a key test on an
      object, an element test on a list, a substring test on a string; a
      number or `True` is not a container. */
  function HasKey(data: Json, key: string): (r: Result<bool, Exception>)
    ensures r.Err? <==> data.JNull? || data.JBool? || data.JInt? || data.JFloat?
    ensures data.JObj? ==> r == Ok(key in data.fields)
  {
    match data
    case JObj(fields) => Ok(key in fields)
    case JArr(items) => Ok(JStr(key) in items)
    case JStr(s) => Ok(Contains(s, key))
    case _ => Err(TypeError)
  }

  /** `v[key]` with a string key: only an object can be indexed so. */
  function Item(v: Json, key: string): (r: Result<Json, Exception>)
    ensures r.Ok? <==> v.JObj? && key in v.fields
    ensures r.Ok? ==> r.value == v.fields[key]
    ensures r.Err? ==> (r.error == KeyError <==> v.JObj?)
  {
    match v
    case JObj(fields) => if key in fields then Ok(fields[key]) else Err(KeyError)
    case _ => Err(TypeError)
  }

  /** `len(v)`. */
  function Len(v: Json): (r: Result<nat, Exception>)
    ensures r.Err? <==> !(v.JArr? || v.JObj? || v.JStr?)
    ensures v.JArr? ==> r == Ok(|v.items|)
  {
    match v
    case JArr(items) => Ok(|items|)
    case JObj(fields) => Ok(|fields|)
    case JStr(s) => Ok(|s|)
    case _ => Err(TypeError)
  }

  /** `v[0]` once `len(v) > 0`: JSON object keys are strings, so the integer
      key 0 is never found. */
  function First(v: Json): (r: Result<Json, Exception>)
    requires Len(v).Ok? && Len(v).value > 0
    ensures r.Ok? <==> !v.JObj?
    ensures v.JArr? ==> r == Ok(v.items[0])
  {
    match v
    case JArr(items) => Ok(items[0])
    case JStr(s) => Ok(JStr(s[..1]))
    case JObj(_) => Err(KeyError)
  }

  /** `v / divisor` for a JSON number; anything else is a TypeError. */
  function Divide(v: Json, divisor: real): (r: Result<real, Exception>)
    requires divisor != 0.0
    ensures r.Ok? <==> Number(v).Some?
    ensures r.Ok? ==> r.value * divisor == Number(v).value
    ensures r.Err? ==> r.error == TypeError
  {
    match Number(v)
    case Some(x) => Ok(x / divisor)
    case None => Err(TypeError)
  }

  /** The three keyword arguments of `RouteInfo(...)`, evaluated left to
      right: distance, duration, geometry. */
  function BuildRoute(route: Json): (r: Result<RouteInfo, Exception>)
    ensures r.Ok? <==> (route.JObj? &&
      "distance" in route.fields && "duration" in route.fields && "geometry" in route.fields &&
      Number(route.fields["distance"]).Some? && Number(route.fields["duration"]).Some?)
    ensures r.Ok? ==> r.value == RouteInfo(Round(Number(route.fields["distance"]).value / 1000.0, 2),
      Round(Number(route.fields["duration"]).value / 60.0, 1), route.fields["geometry"])
    ensures r.Err? ==> (r.error == KeyError || r.error == TypeError)
    ensures r.Err? ==> (r.error == KeyError <==> (route.JObj? &&
      ("distance" !in route.fields ||
       (Number(route.fields["distance"]).Some? && "duration" !in route.fields) ||
       (Number(route.fields["distance"]).Some? && Number(route.fields["duration"]).Some? &&
        "geometry" !in route.fields))))
  {
    match Item(route, "distance")
    case Err(e) => Err(e)
    case Ok(distance) =>
      match Divide(distance, 1000.0)
      case Err(e) => Err(e)
      case Ok(meters) =>
        match Item(route, "duration")
        case Err(e) => Err(e)
        case Ok(duration) =>
          match Divide(duration, 60.0)
          case Err(e) => Err(e)
          case Ok(seconds) =>
            match Item(route, "geometry")
            case Err(e) => Err(e)
            case Ok(geometry) => Ok(RouteInfo(Round(meters, 2), Round(seconds, 1), geometry))
  }

  /** The body of the `try` block after `response.json()`. */
  function Envelope(data: Json): (r: Result<Option<RouteInfo>, Exception>)
    ensures !Truthy(data) ==> r == Ok(None)
    ensures r.Err? ==> (r.error == KeyError || r.error == TypeError)
    ensures r.Ok? && r.value.Some? ==>
      data.JObj? && "routes" in data.fields && data.fields["routes"].JArr? &&
      |data.fields["routes"].items| > 0 && BuildRoute(data.fields["routes"].items[0]) == Ok(r.value.value)
  {
    if !Truthy(data) then Ok(None)
    else
      match HasKey(data, "routes")
      case Err(e) => Err(e)
      case Ok(has) =>
        if !has then Ok(None)
        else
          match Item(data, "routes")
          case Err(e) => Err(e)
          case Ok(routes) =>
            match Len(routes)
            case Err(e) => Err(e)
            case Ok(count) =>
              if count == 0 then Ok(None)
              else
                match First(routes)
                case Err(e) => Err(e)
                case Ok(route) =>
                  match BuildRoute(route)
                  case Err(e) => Err(e)
                  case Ok(info) => Ok(Some(info))
  }

  /** The `except (RequestException, KeyError, ValueError)` clause turns a
      KeyError into None; a TypeError escapes. */
  function NormalizeRoute(data: Json): (r: Result<Option<RouteInfo>, Exception>)
    ensures r.Err? ==> r.error == TypeError
  {
    match Envelope(data)
    case Err(KeyError) => Ok(None)
    case other => other
  }

  /** The shape of a response that yields a route: an object whose `routes`
      is a non-empty list whose first element is an object with a numeric
      `distance`, a numeric `duration` and a `geometry`. */
  predicate WellFormed(data: Json)
  {
    data.JObj? && "routes" in data.fields &&
    var routes := data.fields["routes"];
    routes.JArr? && |routes.items| > 0 &&
    var route := routes.items[0];
    route.JObj? && "distance" in route.fields && "duration" in route.fields && "geometry" in route.fields &&
    Number(route.fields["distance"]).Some? && Number(route.fields["duration"]).Some?
  }

  /** A well-formed response yields the first route, metres to kilometres
      at two decimals and seconds to minutes at one, the geometry as is; no
      other response yields a route. */
  lemma RouteExactly(data: Json)
    ensures NormalizeRoute(data).Ok? && NormalizeRoute(data).value.Some? <==> WellFormed(data)
    ensures WellFormed(data) ==>
      var route := data.fields["routes"].items[0].fields;
      NormalizeRoute(data) == Ok(Some(RouteInfo(
        Round(Number(route["distance"]).value / 1000.0, 2),
        Round(Number(route["duration"]).value / 60.0, 1),
        route["geometry"])))
  {
    if WellFormed(data) {
      assert Truthy(data) by {
        assert "routes" in data.fields;
        assert |data.fields| > 0;
      }
    }
  }

  /** The ways to get no route without an exception: an empty response, no
      `routes` key, an empty `routes` list, or a missing key in the first
      route, reached in the order the source evaluates them. */
  lemma NoRoute(data: Json)
    ensures !Truthy(data) ==> NormalizeRoute(data) == Ok(None)
    ensures data.JObj? && "routes" !in data.fields ==> NormalizeRoute(data) == Ok(None)
    ensures data.JObj? && "routes" in data.fields && data.fields["routes"] == JArr([]) ==>
      NormalizeRoute(data) == Ok(None)
    ensures (data.JObj? && "routes" in data.fields && data.fields["routes"].JArr? &&
      |data.fields["routes"].items| > 0 && data.fields["routes"].items[0].JObj?) ==>
      var route := data.fields["routes"].items[0].fields;
      ("distance" !in route ||
       (Number(route["distance"]).Some? && "duration" !in route) ||
       (Number(route["distance"]).Some? && Number(route["duration"]).Some? && "geometry" !in route))
      ==> NormalizeRoute(data) == Ok(None)
  {
  }

  /** Responses whose shape Python cannot index the way the source does
      raise TypeError instead of giving None. */
  lemma TypeErrorEscapes(data: Json, x: int, y: int, route: map<string, Json>)
    requires x != 0
    requires "distance" in route && route["distance"] == JStr("1234.5")
    ensures NormalizeRoute(JInt(x)) == Err(TypeError)
    ensures NormalizeRoute(JBool(true)) == Err(TypeError)
    ensures NormalizeRoute(JArr([JStr("routes")])) == Err(TypeError)
    ensures NormalizeRoute(JObj(map["routes" := JInt(y)])) == Err(TypeError)
    ensures NormalizeRoute(JObj(map["routes" := JArr([JObj(route)])])) == Err(TypeError)
  {
  }

  /** A 1234.5 m, 615 s route is 1.23 km and 10.2 minutes: 10.25 is a tie
      and rounds to the even tenth. */
  lemma RouteExample(geometry: Json)
    ensures NormalizeRoute(JObj(map["routes" := JArr([JObj(map[
      "distance" := JFloat(1234.5), "duration" := JInt(615), "geometry" := geometry])])]))
      == Ok(Some(RouteInfo(1.23, 10.2, geometry)))
  {
    var data := JObj(map["routes" := JArr([JObj(map[
      "distance" := JFloat(1234.5), "duration" := JInt(615), "geometry" := geometry])])]);
    RouteExactly(data);
    assert RoundHalfEven(1234.5 / 1000.0 * 100.0) == 123;
    assert RoundHalfEven(615.0 / 60.0 * 10.0) == 102;
  }
}
