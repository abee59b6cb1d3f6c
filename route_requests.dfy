/** The route-request builder: the `LatLng` and `RouteRequest` shapes and what
    `extractCoordinatesFromKML` does once the KML text has been parsed.

    The XML parser itself is not modelled; its output is given as a `ParsedKml`
    value, the `kml.Document.Placemark` member of the parsed tree. Conversion of a
    coordinate field with `Number(...)` is kept abstract: a number is identified by
    the text it is converted from. */
module RouteRequests {
  import opened Wrappers
  import opened JsString

  /** A value read out of `text.split(",").map(Number)`: `Number(text)` for a field
      that exists, `undefined` when destructuring reads past the last field. */
  datatype NumberValue = NumberOf(text: string) | Undefined

  datatype LatLng = LatLng(latitude: NumberValue, longitude: NumberValue)

  /** `{ location: { latLng } }`, the shape of origin, destination and every intermediate. */
  datatype Location = Location(latLng: LatLng)
  datatype Waypoint = Waypoint(location: Location)

  datatype RouteModifiers = RouteModifiers(avoidTolls: bool, avoidHighways: bool, avoidFerries: bool)

  datatype RouteRequest = RouteRequest(
    origin: Waypoint,
    destination: Waypoint,
    intermediates: seq<Waypoint>,
    travelMode: string,
    polylineEncoding: string,
    computeAlternativeRoutes: bool,
    routeModifiers: RouteModifiers,
    languageCode: string,
    units: string)

  /** One parsed `<Placemark>`. `coordinates` is the text of `Point.coordinates`, or
      `None` when `Point` or its `coordinates` is missing or is not a string, so that
      calling `split` on it throws. */
  datatype Placemark = Placemark(coordinates: Option<string>)

  /** The value of `kml.Document.Placemark`: missing (or falsy), a value that is not
      an array (the parser gives a lone `<Placemark>` as an object), or an array. */
  datatype PlacemarkField = Absent | NotArray | Sequence(items: seq<Placemark>)

  /** The parser's result: it threw, or it produced a tree. */
  datatype ParsedKml = ParseFailed | Parsed(placemark: PlacemarkField)

  /** Field `i` of the split coordinate text, converted with `Number`. */
  function FieldValue(fields: seq<string>, i: nat): NumberValue {
    if i < |fields| then NumberOf(fields[i]) else Undefined
  }

  /** `const [longitude, latitude] = text.split(",").map(Number)`: the text up to the
      first comma is the longitude, the next field (if any) the latitude, and every
      further field (the altitude) is dropped. */
  function ParseCoordinates(text: string): (ll: LatLng)
    ensures ll.longitude.NumberOf? && ',' !in ll.longitude.text
    ensures ll.longitude.text <= text
    ensures |ll.longitude.text| < |text| ==> text[|ll.longitude.text|] == ','
    ensures ll.latitude.NumberOf? <==> ',' in text
  {
    var fields := Split(text, ',');
    LatLng(latitude := FieldValue(fields, 1), longitude := FieldValue(fields, 0))
  }

  /** `placemarks.map(...)`: every placemark's coordinates, in order, or `None`
      when some placemark has no coordinate text (the `map` throws). */
  function CoordinatesOf(ps: seq<Placemark>): (r: Option<seq<LatLng>>)
    ensures r.Some? <==> forall i :: 0 <= i < |ps| ==> ps[i].coordinates.Some?
    ensures r.Some? ==> |r.value| == |ps|
    ensures r.Some? ==> forall i :: 0 <= i < |ps| ==> r.value[i] == ParseCoordinates(ps[i].coordinates.value)
  {
    if ps == [] then Some([])
    else
      var rest := CoordinatesOf(ps[1..]);
      assert forall i :: 1 <= i < |ps| ==> ps[i] == ps[1..][i - 1];
      if ps[0].coordinates.None? || rest.None? then None
      else
        var r := [ParseCoordinates(ps[0].coordinates.value)] + rest.value;
        assert forall i :: 1 <= i < |ps| ==> r[i] == rest.value[i - 1];
        Some(r)
  }

  function AsWaypoint(ll: LatLng): Waypoint {
    Waypoint(Location(ll))
  }

  /** The fields of a request that never depend on the document. */
  predicate HasFixedOptions(req: RouteRequest) {
    && req.travelMode == "WALK"
    && req.polylineEncoding == "GEO_JSON_LINESTRING"
    && !req.computeAlternativeRoutes
    && req.routeModifiers == RouteModifiers(avoidTolls := false, avoidHighways := false, avoidFerries := false)
    && req.languageCode == "en-US"
    && req.units == "IMPERIAL"
  }

  /** The points a request asks the route to visit, in order: origin,
      intermediates, destination. */
  function Stops(req: RouteRequest): seq<LatLng> {
    [req.origin.location.latLng]
    + seq(|req.intermediates|, i requires 0 <= i < |req.intermediates| => req.intermediates[i].location.latLng)
    + [req.destination.location.latLng]
  }

  /** The request object built from two or more coordinates: first is the origin,
      last the destination, `coordinates.slice(1, -1)` the intermediates. */
  function BuildRequest(coords: seq<LatLng>): (req: RouteRequest)
    requires |coords| >= 2
    ensures Stops(req) == coords
    ensures HasFixedOptions(req)
  {
    var middle := coords[1..|coords| - 1];
    var req := RouteRequest(
      origin := AsWaypoint(coords[0]),
      destination := AsWaypoint(coords[|coords| - 1]),
      intermediates := seq(|middle|, i requires 0 <= i < |middle| => AsWaypoint(middle[i])),
      travelMode := "WALK",
      polylineEncoding := "GEO_JSON_LINESTRING",
      computeAlternativeRoutes := false,
      routeModifiers := RouteModifiers(avoidTolls := false, avoidHighways := false, avoidFerries := false),
      languageCode := "en-US",
      units := "IMPERIAL");
    assert coords == [coords[0]] + middle + [coords[|coords| - 1]];
    req
  }

  /** The parser produced an array of at least two placemarks, each with coordinate text. */
  predicate Routable(doc: ParsedKml) {
    && doc.Parsed?
    && doc.placemark.Sequence?
    && |doc.placemark.items| >= 2
    && forall i :: 0 <= i < |doc.placemark.items| ==> doc.placemark.items[i].coordinates.Some?
  }

  /** `extractCoordinatesFromKML` after parsing: `null` (here `None`) unless there
      are at least two placemarks in an array, each with coordinates; otherwise the
      request visits every placemark once, in document order. */
  function ExtractCoordinatesFromKml(doc: ParsedKml): (r: Option<RouteRequest>)
    ensures r.Some? <==> Routable(doc)
    ensures r.Some? ==> Stops(r.value) == CoordinatesOf(doc.placemark.items).value
    ensures r.Some? ==> HasFixedOptions(r.value)
  {
    match doc
    case ParseFailed => None
    case Parsed(Absent) => None
    case Parsed(NotArray) => None
    case Parsed(Sequence(items)) =>
      if |items| < 2 then None
      else
        match CoordinatesOf(items)
        case None => None
        case Some(coords) => Some(BuildRequest(coords))
  }

  // ---------------------------------------------------------------------------
  // properties of the builder

  /** Without an array of at least two placemarks there is no request. */
  lemma NotEnoughPlacemarks(doc: ParsedKml)
    requires doc.ParseFailed? || doc.placemark.Absent? || doc.placemark.NotArray?
             || (doc.placemark.Sequence? && |doc.placemark.items| < 2)
    ensures ExtractCoordinatesFromKml(doc) == None
  {
  }

  /** Origin is the first placemark, destination the last, and the n - 2 placemarks
      between them are the intermediates, in document order. */
  lemma {:induction false} RequestShape(doc: ParsedKml)
    requires Routable(doc)
    ensures var items := doc.placemark.items;
            var n := |items|;
            var req := ExtractCoordinatesFromKml(doc).value;
            && req.origin == AsWaypoint(ParseCoordinates(items[0].coordinates.value))
            && req.destination == AsWaypoint(ParseCoordinates(items[n - 1].coordinates.value))
            && |req.intermediates| == n - 2
            && forall i :: 0 <= i < n - 2 ==>
                 req.intermediates[i] == AsWaypoint(ParseCoordinates(items[i + 1].coordinates.value))
  {
    var items := doc.placemark.items;
    var n := |items|;
    var req := ExtractCoordinatesFromKml(doc).value;
    var stops := Stops(req);
    assert |stops| == n;
    assert stops[0] == req.origin.location.latLng;
    assert stops[n - 1] == req.destination.location.latLng;
    forall i | 0 <= i < n - 2
      ensures req.intermediates[i] == AsWaypoint(ParseCoordinates(items[i + 1].coordinates.value))
    {
      assert stops[i + 1] == req.intermediates[i].location.latLng;
    }
  }

  /** A document with exactly two placemarks gives a request without intermediates. */
  lemma TwoPlacemarksNoIntermediates(doc: ParsedKml)
    requires Routable(doc) && |doc.placemark.items| == 2
    ensures ExtractCoordinatesFromKml(doc).value.intermediates == []
  {
    RequestShape(doc);
  }

  /** Coordinates written `longitude,latitude,altitude` (KML's order) are read with
      the first field as longitude and the second as latitude; the altitude, however
      many commas it holds, is ignored. */
  lemma ParseTriple(lon: string, lat: string, alt: string)
    requires ',' !in lon && ',' !in lat
    ensures ParseCoordinates(lon + "," + lat + "," + alt)
            == LatLng(latitude := NumberOf(lat), longitude := NumberOf(lon))
  {
    var text := lon + "," + lat + "," + alt;
    assert text == lon + [','] + (lat + [','] + alt);
    SplitAfterField(lon, ',', lat + [','] + alt);
    SplitAfterField(lat, ',', alt);
  }

  /** Coordinates written `longitude,latitude`, the altitude left out as KML allows,
      are read with the first field as longitude and the second as latitude. */
  lemma ParsePair(lon: string, lat: string)
    requires ',' !in lon && ',' !in lat
    ensures ParseCoordinates(lon + "," + lat)
            == LatLng(latitude := NumberOf(lat), longitude := NumberOf(lon))
  {
    assert lon + "," + lat == lon + [','] + lat;
    SplitAfterField(lon, ',', lat);
  }

  /** Whatever follows, the latitude is the field right after the first comma: it is
      read from the text behind that comma the way the longitude is read from the
      whole text. */
  lemma LatitudeAfterFirstComma(text: string)
    requires ',' in text
    ensures var lon := ParseCoordinates(text).longitude.text;
            |lon| < |text| && ParseCoordinates(text).latitude == ParseCoordinates(text[|lon| + 1..]).longitude
  {
    var lon := ParseCoordinates(text).longitude.text;
    var rest := text[|lon| + 1..];
    assert text == lon + [','] + rest;
    SplitAfterField(lon, ',', rest);
  }

  /** Coordinate text without a comma yields a longitude and an undefined latitude. */
  lemma ParseSingleField(text: string)
    requires ',' !in text
    ensures ParseCoordinates(text) == LatLng(latitude := Undefined, longitude := NumberOf(text))
  {
  }
}
