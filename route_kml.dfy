/** The route renderer: what `generateKMLFromRoute` makes of a Routes API response.

    The response's path is a GeoJSON LineString (section 3.1.4 of RFC 7946): a
    list of positions, each longitude first and latitude second (section 3.1.1).
    Positions hold numbers of type `N`; the template literal's conversion of a
    number to text is the parameter `show`, left abstract. */
module RouteKml {
  import opened Wrappers
  import opened JsString
  import opened RouteRequests
  import opened KmlTags

  /** `routes[i]`, reduced to `polyline.geoJsonLinestring.coordinates`;
      `None` when that path is missing from the route. */
  datatype Route<N> = Route(lineString: Option<seq<seq<N>>>)

  /** The decoded response: missing, or an object whose `routes` may be missing. */
  datatype RoutesResponse<N> = NoResponse | Response(routes: Option<seq<Route<N>>>)

  /** Reading the path of `routes[0]` throws a `TypeError`, which the renderer
      does not catch. */
  datatype RenderError = MissingLineString

  /** What `join` puts between two coordinate entries: a line break and eight spaces. */
  const Indent: string := "        "
  const EntrySeparator: string := "\n" + Indent

  /** The deeper indents of the template's lines. */
  const Indent10: string := "          "
  const Indent12: string := "            "

  /** The template's lines around the coordinate entries, each without the line
      break that goes in front of it. */
  const PlacemarkOpenLine: string := Indent + "<Placemark>"
  const NameLine: string := Indent10 + "<name>" + "Walking Route Segment" + "</name>"
  const DescriptionLine: string :=
    Indent10 + "<description>" + "Generated walking route." + "</description>"
  const StyleLine: string := Indent10 + "<styleUrl>" + "#route" + "</styleUrl>"
  const LineStringOpenLine: string := Indent10 + "<LineString>"
  const TessellateLine: string := Indent12 + "<tessellate>" + "1" + "</tessellate>"
  const CoordinatesOpenLine: string := Indent12 + "<coordinates>"
  const CoordinatesCloseLine: string := Indent12 + "</coordinates>"
  const LineStringCloseLine: string := Indent10 + "</LineString>"
  const PlacemarkCloseLine: string := Indent + PlacemarkClose

  /** What stands in front of the first entry on its line. */
  const FirstEntryIndent: string := Indent10

  /** The template text up to the line of the first entry. */
  const TemplateHead: string :=
    "\n" + PlacemarkOpenLine + "\n" + NameLine + "\n" + DescriptionLine + "\n" + StyleLine
    + "\n" + LineStringOpenLine + "\n" + TessellateLine + "\n" + CoordinatesOpenLine

  /** The template text before and after the coordinate entries. */
  const RoutePrefix: string := TemplateHead + "\n" + FirstEntryIndent
  const RouteSuffix: string :=
    "\n" + CoordinatesCloseLine + "\n" + LineStringCloseLine + "\n" + PlacemarkCloseLine

  /** `${coord[i]}`: the number's text, or `"undefined"` past the end of the position. */
  function ShowAt<N>(position: seq<N>, i: nat, show: N -> string): string {
    if i < |position| then show(position[i]) else "undefined"
  }

  /** `${coord[0]},${coord[1]},0`: longitude, latitude and a zero altitude. Apart
      from the commas, the zero and `undefined`, its characters are those of the
      position's numbers. */
  function Entry<N>(position: seq<N>, show: N -> string): (r: string)
    ensures ShowAt(position, 0, show) + "," <= r
    ensures |r| >= 3 && r[|r| - 2..] == ",0"
    ensures forall ch :: ch in r && ch !in ",0undefined" ==>
              exists i | 0 <= i < |position| :: ch in show(position[i])
  {
    var r := ShowAt(position, 0, show) + "," + ShowAt(position, 1, show) + ",0";
    assert r == ShowAt(position, 0, show) + "," + (ShowAt(position, 1, show) + ",0");
    r
  }

  function Entries<N>(line: seq<seq<N>>, show: N -> string): seq<string> {
    seq(|line|, i requires 0 <= i < |line| => Entry(line[i], show))
  }

  /** The coordinate block: one entry per position, joined by `EntrySeparator`.
      Apart from the separators, the commas, the zeros and `undefined`, its
      characters are those of the path's numbers. */
  function CoordinateBlock<N>(line: seq<seq<N>>, show: N -> string): (r: string)
    ensures |line| == 0 ==> r == ""
    ensures |line| >= 1 ==> Entry(line[0], show) <= r
    ensures forall ch :: ch in r && ch !in "\n ,0undefined" ==>
              exists i, k | 0 <= i < |line| && 0 <= k < |line[i]| :: ch in show(line[i][k])
  {
    var es := Entries(line, show);
    assert forall ch :: ch in EntrySeparator ==> ch in "\n ";
    JoinWith(es, EntrySeparator)
  }

  /** `!response || !response.routes || response.routes.length === 0`. */
  predicate HasNoRoute<N>(response: RoutesResponse<N>) {
    response.NoResponse? || response.routes.None? || |response.routes.value| == 0
  }

  /** `generateKMLFromRoute`: `""` when there is no route, a `TypeError` when the
      first route has no path, and otherwise the fixed `<Placemark><LineString>`
      template around the first route's path. */
  function GenerateKmlFromRoute<N>(response: RoutesResponse<N>, show: N -> string): (r: Result<string, RenderError>)
    ensures r == Success("") <==> HasNoRoute(response)
    ensures r.Failure? <==> !HasNoRoute(response) && response.routes.value[0].lineString.None?
    ensures r.Success? && !HasNoRoute(response) ==>
              r.value == RoutePrefix + CoordinateBlock(response.routes.value[0].lineString.value, show) + RouteSuffix
  {
    if HasNoRoute(response) then Success("")
    else
      match response.routes.value[0].lineString
      case None => Failure(MissingLineString)
      case Some(line) => Success(RoutePrefix + CoordinateBlock(line, show) + RouteSuffix)
  }

  // ---------------------------------------------------------------------------
  // properties of the renderer

  /** An entry holds no line break as long as the numbers' texts hold none. */
  lemma EntryIsOneLine<N>(position: seq<N>, show: N -> string)
    requires forall n :: '\n' !in show(n)
    ensures '\n' !in Entry(position, show)
  {
    assert "undefined" == ['u', 'n', 'd', 'e', 'f', 'i', 'n', 'e', 'd'];
  }

  /** The coordinate block has exactly one line per position of the path, in the
      path's order: the first entry, then each further entry behind the indent. */
  lemma CoordinateLines<N>(line: seq<seq<N>>, show: N -> string)
    requires |line| >= 1
    requires forall n :: '\n' !in show(n)
    ensures var lines := Split(CoordinateBlock(line, show), '\n');
            && |lines| == |line|
            && lines[0] == Entry(line[0], show)
            && forall i :: 1 <= i < |line| ==> lines[i] == Indent + Entry(line[i], show)
  {
    var es := Entries(line, show);
    forall i | 0 <= i < |es| ensures '\n' !in es[i] {
      EntryIsOneLine(line[i], show);
    }
    assert '\n' !in Indent;
    assert CoordinateBlock(line, show) == JoinWith(es, ['\n'] + Indent);
    SplitPaddedJoin(es, '\n', Indent);
    var lines := [es[0]] + Indented(es[1..], Indent);
    forall i | 1 <= i < |line|
      ensures lines[i] == Indent + Entry(line[i], show)
    {
      assert lines[i] == Indented(es[1..], Indent)[i - 1];
    }
  }

  /** A coordinate block holds no `<` when the numbers' texts hold none. */
  lemma BlockWithoutTag<N>(line: seq<seq<N>>, show: N -> string)
    requires forall n :: '<' !in show(n)
    ensures '<' !in CoordinateBlock(line, show)
  {
    assert '<' !in "\n ,0undefined";
  }

  /** An empty path renders the template around an empty coordinate block. */
  lemma EmptyLineString<N>(response: RoutesResponse<N>, show: N -> string)
    requires !HasNoRoute(response) && response.routes.value[0].lineString == Some([])
    ensures GenerateKmlFromRoute(response, show) == Success(RoutePrefix + RouteSuffix)
  {
    assert RoutePrefix + "" == RoutePrefix;
  }

  /** An entry is exactly three fields: the longitude's text, the latitude's text
      (`undefined` past the end of the position) and the zero altitude. */
  lemma EntryFields<N>(position: seq<N>, show: N -> string)
    requires ',' !in ShowAt(position, 0, show) && ',' !in ShowAt(position, 1, show)
    ensures Split(Entry(position, show), ',')
            == [ShowAt(position, 0, show), ShowAt(position, 1, show), "0"]
  {
    var x, y := ShowAt(position, 0, show), ShowAt(position, 1, show);
    assert Entry(position, show) == x + [','] + y + [','] + "0";
    assert ',' !in "0";
    SplitThreeFields(x, y, "0", ',');
  }

  /** An entry read back the way the route-request builder reads a placemark's
      coordinates gives the position's first number as the longitude and its second
      as the latitude: the renderer keeps GeoJSON's longitude-latitude order. */
  lemma EntryReadsBack<N>(position: seq<N>, show: N -> string)
    requires |position| >= 2
    requires ',' !in show(position[0]) && ',' !in show(position[1])
    ensures ParseCoordinates(Entry(position, show))
            == LatLng(latitude := NumberOf(show(position[1])), longitude := NumberOf(show(position[0])))
  {
    assert Entry(position, show) == show(position[0]) + "," + show(position[1]) + "," + "0";
    ParseTriple(show(position[0]), show(position[1]), "0");
  }
}
