# Walking-route KML helpers, modelled in Dafny

The service asks a language model for a KML document of points of interest, asks
the Google Routes API for a walking route through them, and splices that route
back into the document. Its only logic lives in three helpers at the top of
`server/api/generate-kml.post.ts`; this project models them as Dafny functions
and proves what they promise:

- **Route-request builder** (`extractCoordinatesFromKML`): from the parsed
  `kml.Document.Placemark` value, read each placemark's `Point.coordinates`
  text as `longitude,latitude[,altitude]` and build a `RouteRequest` whose
  origin is the first placemark, destination the last and intermediates the
  ones between, in order, with fixed walking options; `null` when there are
  fewer than two placemarks in an array or anything throws.
- **Route renderer** (`generateKMLFromRoute`): turn the first route's GeoJSON
  LineString (section 3.1.4 of RFC 7946, positions longitude first as in
  section 3.1.1) into a `<Placemark><LineString>` fragment with one
  `x,y,0` entry per position; `""` when there is no route.
- **Textual splicer** (`insertPlacemarkIntoKML`): insert the fragment, between
  two line breaks, after the last `</Placemark>` of the document text, keeping
  every other character.

Files and modules:

- `wrappers.dfy` — `Wrappers`: `Option` (for `null` results) and `Result` (for an
  exception that escapes).
- `kml_tags.dfy` — `KmlTags`: the `</Placemark>` tag that the renderer writes and
  the splicer searches for.
- `js_string.dfy` — `JsString`: the JavaScript `split`, `join` and `lastIndexOf`
  the helpers use, a count of pattern occurrences, and the lemmas relating them.
- `route_requests.dfy` — `RouteRequests`: the `LatLng`/`RouteRequest` shapes and
  the builder.
- `route_kml.dfy` — `RouteKml`: the renderer.
- `kml_splice.dfy` — `KmlSplice`: the splicer, and how it combines with the
  renderer.

Numbers are not interpreted. `Number(text)` is represented by the text it
converts (`NumberOf(text)`), and `undefined` stands for a field read past the
end of the split array. The renderer is generic in the number type `N` and takes
the template literal's number-to-text conversion as a parameter `show`.

Some behaviours one might expect of these helpers are not what the code does; the model follows the code:

- The splicer has no "no insertion point" outcome. With no `</Placemark>` it
  still splices, at index 11 (see Findings).
- The renderer can fail. A first route without `polyline.geoJsonLinestring.coordinates`
  makes it throw a `TypeError` that it does not catch.
- The builder computes no centroid.
- Two placemarks with the same coordinates give an origin equal to the
  destination. Nothing in the code prevents it, so no lemma claims otherwise.

## Model

| member | source | states |
|---|---|---|
| `JsString.Split` | server/api/generate-kml.post.ts:38-39 | `split(",")` gives at least one field; no field holds the separator; the first field is the text up to the first separator; there is exactly one field iff the text has no separator |
| `JsString.JoinSplit` | server/api/generate-kml.post.ts:38-39 | joining the split fields with the separator gives the original text back |
| `JsString.JoinWith` | server/api/generate-kml.post.ts:82 | `join` gives `""` for no elements and starts with the first element; every character of the result comes from an element or the separator; `SplitJoin` and `JoinSplit` pair it with `split` |
| `JsString.SplitJoin` | server/api/generate-kml.post.ts:80-82 | splitting what `join` built from separator-free elements gives those elements back |
| `JsString.SplitThreeFields` | server/api/generate-kml.post.ts:38-39 | three separator-free fields joined by the separator split back into exactly those three |
| `JsString.SplitPaddedJoin` | server/api/generate-kml.post.ts:80-82 | splitting on the line break what was joined with a line break plus indent gives the first element, then every further element behind the indent |
| `JsString.LastIndexOf` | server/api/generate-kml.post.ts:104-105 | `lastIndexOf` is -1 exactly when the pattern does not occur; otherwise the pattern occurs there and at no later index |
| `JsString.LastIndexOfMiddle` | server/api/generate-kml.post.ts:104-105 | between two copies of a character the pattern lacks, the last occurrence in the middle part is the last of the whole text when the tail has none |
| `JsString.OccurrencesSplit` | server/api/generate-kml.post.ts:113-118 | when no occurrence straddles the seam, the occurrences in a concatenation are those of its two parts |
| `JsString.OccurrencesAroundChar` | server/api/generate-kml.post.ts:113-118 | a character absent from the pattern is a seam no occurrence crosses |
| `JsString.OccursCounted` | server/api/generate-kml.post.ts:104-105 | a pattern that occurs is counted at least once |
| `JsString.LastIndexAtEnd` | server/api/generate-kml.post.ts:104-105 | a pattern that ends the text is what `lastIndexOf` finds, at the length of the text minus the pattern's |
| `JsString.NoOccurrencesWithout` | server/api/generate-kml.post.ts:104-105 | a text that lacks one of the pattern's characters holds no occurrence of it |
| `RouteRequests.ParseCoordinates` | server/api/generate-kml.post.ts:37-42 | the longitude is the text up to the first comma; the latitude is defined iff the text has a comma |
| `RouteRequests.ParseTriple` | server/api/generate-kml.post.ts:37-42 | `lon,lat,alt` is read as longitude `lon` and latitude `lat`; the altitude, whatever it holds, is ignored |
| `RouteRequests.ParsePair` | server/api/generate-kml.post.ts:38-41 | `lon,lat` without an altitude is read as longitude `lon` and latitude `lat` |
| `RouteRequests.LatitudeAfterFirstComma` | server/api/generate-kml.post.ts:38-41 | for any text with a comma, the latitude is the field right after the first comma, read from the rest of the text as the longitude is read from the whole |
| `RouteRequests.ParseSingleField` | server/api/generate-kml.post.ts:38-41 | coordinate text without a comma gives a longitude and an undefined latitude |
| `RouteRequests.CoordinatesOf` | server/api/generate-kml.post.ts:37-42 | the `map` succeeds iff every placemark has coordinate text, and then yields one parsed coordinate per placemark, in order |
| `RouteRequests.BuildRequest` | server/api/generate-kml.post.ts:44-63 | the request visits exactly the given coordinates in order (origin, intermediates, destination) and carries the fixed walking options |
| `RouteRequests.ExtractCoordinatesFromKml` | server/api/generate-kml.post.ts:25-70 | there is a request iff the parser gave an array of at least two placemarks that all have coordinates; it visits every placemark once, in document order, with the fixed options |
| `RouteRequests.NotEnoughPlacemarks` | server/api/generate-kml.post.ts:30-35 | a parse failure, a missing or non-array placemark value, or fewer than two placemarks gives `null` |
| `RouteRequests.RequestShape` | server/api/generate-kml.post.ts:45-52 | origin is the first placemark, destination the last, and the n - 2 intermediates are placemarks 1 to n - 2 in order, each wrapped as `{location: {latLng}}` |
| `RouteRequests.TwoPlacemarksNoIntermediates` | server/api/generate-kml.post.ts:50-52 | two placemarks give an empty intermediates list |
| `RouteKml.GenerateKmlFromRoute` | server/api/generate-kml.post.ts:72-98 | `""` exactly when the response or its routes are missing or the routes are empty; a failure exactly when the first route has no path; otherwise the fixed template around the coordinate block |
| `RouteKml.Entry` | server/api/generate-kml.post.ts:81 | an entry starts with the longitude's text and a comma and ends with the zero altitude `,0`; apart from commas, zeros and `undefined`, its characters are the position's numbers'; `EntryFields` and `EntryReadsBack` read it back |
| `RouteKml.EntryFields` | server/api/generate-kml.post.ts:81 | an entry is exactly the three fields `x`, `y` and `0`, with `undefined` for a number missing from the position, when those texts hold no comma |
| `RouteKml.CoordinateBlock` | server/api/generate-kml.post.ts:80-82 | an empty path gives `""`; otherwise the block starts with the first entry; apart from line breaks, spaces, commas, zeros and `undefined`, its characters are the path's numbers'; `CoordinateLines` splits it back into entries |
| `RouteKml.BlockWithoutTag` | server/api/generate-kml.post.ts:80-82 | a coordinate block holds no `<` when the numbers' texts hold none |
| `RouteKml.CoordinateLines` | server/api/generate-kml.post.ts:78-82 | the coordinate block has exactly one line per position, in the path's order, each line one `x,y,0` entry (after the first, behind the eight-space indent) |
| `RouteKml.EntryIsOneLine` | server/api/generate-kml.post.ts:81 | an entry holds no line break when the numbers' texts hold none |
| `RouteKml.EmptyLineString` | server/api/generate-kml.post.ts:80-95 | an empty path renders the template with an empty coordinate block, not an error |
| `RouteKml.EntryReadsBack` | server/api/generate-kml.post.ts:81 | an entry read back as the builder reads coordinates gives the position's first number as longitude and its second as latitude |
| `KmlSplice.InsertionPoint` | server/api/generate-kml.post.ts:104-105 | the insertion point follows every `</Placemark>` and is the end of the last one; with none it is min(11, length) |
| `KmlSplice.SliceTo` | server/api/generate-kml.post.ts:114 | `slice(0, end)` is the prefix of length min(end, length) |
| `KmlSplice.SliceFrom` | server/api/generate-kml.post.ts:118 | `slice(start)` has length minus min(start, length) characters and, after `slice(0, start)`, gives the text back |
| `KmlSplice.InsertPlacemarkIntoKml` | server/api/generate-kml.post.ts:100-121 | the result is never the input: it is the input with line break, fragment, line break inserted at the insertion point, every other character kept, length grown by the fragment plus 2 |
| `KmlSplice.SpliceKeepsPlacemarks` | server/api/generate-kml.post.ts:113-118 | the result has the `</Placemark>` tags of the document plus those of the fragment, no more and no fewer |
| `KmlSplice.SpliceWithoutPlacemark` | server/api/generate-kml.post.ts:104-110 | `<Document></Document>` with fragment `X` becomes `<Document><` + line break + `X` + line break + `/Document>`: the guard does not fire |
| `KmlSplice.InsertPlacemarkChecked` | server/api/generate-kml.post.ts:104-110 | corrected splice: the text unchanged when it holds no `</Placemark>`, otherwise the splice after the last one |
| `KmlSplice.SpliceLastPlacemark` | server/api/generate-kml.post.ts:104-118 | when the fragment holds a `</Placemark>`, the last one of the result is the fragment's last, one line break after the insertion point |
| `KmlSplice.SpliceTwice` | server/api/generate-kml.post.ts:104-118 | splicing twice grows the text by two fragments; the second copy lands right after the last `</Placemark>` of the first |
| `KmlSplice.RouteFragmentClosesPlacemark` | server/api/generate-kml.post.ts:84-95 | a rendered route, whatever its coordinates, ends with `</Placemark>` |
| `KmlSplice.TemplateHeadHasNoPlacemark` | server/api/generate-kml.post.ts:84-91 | the template up to the coordinates holds no `</Placemark>` |
| `KmlSplice.RouteFragmentHasOnePlacemark` | server/api/generate-kml.post.ts:84-95 | a rendered route whose coordinate block holds no `<` holds exactly one `</Placemark>` |
| `KmlSplice.SpliceClosedFragment` | server/api/generate-kml.post.ts:104-118 | a fragment that ends with `</Placemark>` adds its own tags to the document's, and its closing tag becomes the last of the result |
| `KmlSplice.SpliceRouteFragment` | server/api/generate-kml.post.ts:84-118 | splicing the template around any coordinate block adds at least one tag, exactly one when the block holds no `<`, and the route's closing tag becomes the last of the text |
| `KmlSplice.SpliceRenderedRoute` | server/api/generate-kml.post.ts:264-269 | splicing a rendered route adds at least one placemark to the document, exactly one when the numbers' texts hold no `<`; the route's closing tag becomes the last `</Placemark>` of the merged text |

## Left out

- The XML parser (`fast-xml-parser`, lines 27-28) is a foreign library. Its output is the input `ParsedKml`, and a parse exception is the `ParseFailed` case (lines 66-69).
- `Number(...)` (line 40) and the template literal's number formatting (line 81) are floating-point conversions. They are kept abstract, as described above.
- The event handler (lines 193-278) is network I/O: the inference and Routes API calls, API keys from the environment, JSON decoding and error wrapping. Only the handoff from the renderer to the splicer (lines 264-269) is stated, in `SpliceRenderedRoute`.
- The `exampleKml` template (lines 126-191) is prompt data with no logic.
- `server/api/kml/upload.ts` is multipart parsing, a blob upload and a database insert: I/O only.
- `nuxt.config.ts` is framework configuration with no logic.
- `console.error` logging is output only.
- GenerateKmlFromRoute: a `routes` value that is present but not an array is not modelled. The Routes API always sends an array.
- InsertionPoint: positions count characters (Unicode scalar values), while JavaScript's `lastIndexOf` and `slice` count UTF-16 code units. With a `</Placemark>` in the text both put the splice at the same character boundary. Without one, index 11 counts code units, so for text holding characters outside the Basic Multilingual Plane before that point the model's splice point differs (JavaScript can cut a surrogate pair in two). The model is exact for text within the Basic Multilingual Plane.
- SpliceRenderedRoute: exactly one added tag is stated only when the numbers' texts hold no `<`. JavaScript's number-to-text conversion never produces one, but `show` is abstract.
- SpliceTwice: the exact second insertion point is stated only for a fragment that holds a `</Placemark>`, as every rendered route does.

## Findings

| source | as written | input that shows it | evidently intended | confidence | as-written member | corrected member |
|---|---|---|---|---|---|---|
| server/api/generate-kml.post.ts:104-110 | the guard compares `lastIndexOf(...) + 12` with -1, so it never fires | `<Document></Document>` with fragment `X` gives `<Document><` + line break + `X` + line break + `/Document>`, cutting the closing tag in two | return the text unchanged when it has no `</Placemark>`, as the message on line 108 says | high; not executed | `KmlSplice.SpliceWithoutPlacemark` | `KmlSplice.InsertPlacemarkChecked` |

The source's own behaviour is modelled by `InsertPlacemarkIntoKml`, which keeps the dead guard. Every other lemma about the splice is about that as-written function. `InsertPlacemarkChecked` is the corrected definition. It agrees with the as-written splice whenever the document holds a `</Placemark>`.
