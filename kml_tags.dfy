/** The KML closing tag that both the route renderer writes and the splicer
    searches for. */
module KmlTags {
  const PlacemarkClose: string := "</Placemark>"
}
