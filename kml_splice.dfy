/** The textual splicer: `insertPlacemarkIntoKML` puts a generated placemark into
    the KML text right after the last `</Placemark>`, without re-parsing the
    document, so that every other character of it is kept as it was. */
module KmlSplice {
  import opened JsString
  import opened KmlTags
  import opened RouteKml

  function Min(a: int, b: int): int {
    if a <= b then a else b
  }

  /** `s.slice(0, end)` and `s.slice(start)` for indices that are not negative:
      JavaScript clamps them to the length of `s`. */
  function SliceTo(s: string, end: nat): (r: string)
    ensures |r| == Min(end, |s|) && r <= s
  {
    if end <= |s| then s[..end] else s
  }

  /** What `slice(start)` leaves is what `slice(0, start)` took off. */
  function SliceFrom(s: string, start: nat): (r: string)
    ensures |r| == |s| - Min(start, |s|)
    ensures SliceTo(s, start) + r == s
  {
    if start <= |s| then s[start..] else ""
  }

  /** Where the fragment goes: right after the last `</Placemark>` when there is
      one; when there is none, at index 11 (`-1 + "</Placemark>".length`), or at
      the end of a text shorter than that. */
  function InsertionPoint(kml: string): (k: nat)
    ensures k <= |kml|
    ensures forall j :: OccursAt(kml, PlacemarkClose, j) ==> j + |PlacemarkClose| <= k
    ensures Occurs(kml, PlacemarkClose) ==>
              |PlacemarkClose| <= k && OccursAt(kml, PlacemarkClose, k - |PlacemarkClose|)
    ensures !Occurs(kml, PlacemarkClose) ==> k == Min(|PlacemarkClose| - 1, |kml|)
  {
    var last := LastIndexOf(kml, PlacemarkClose);
    if last >= 0 then last + |PlacemarkClose| else Min(|PlacemarkClose| - 1, |kml|)
  }

  /** `insertPlacemarkIntoKML` as written. The guard compares the index after adding
      the tag's length, so it never sees -1 and the text is always spliced. */
  function InsertPlacemarkIntoKml(kml: string, fragment: string): (r: string)
    ensures var k := InsertionPoint(kml);
            && |r| == |kml| + |fragment| + 2
            && r != kml
            && r[..k] == kml[..k]
            && r[k..k + |fragment| + 2] == "\n" + fragment + "\n"
            && r[k + |fragment| + 2..] == kml[k..]
  {
    var insertIndex := LastIndexOf(kml, PlacemarkClose) + |PlacemarkClose|;
    if insertIndex == -1 then kml
    else SliceTo(kml, insertIndex) + "\n" + fragment + "\n" + SliceFrom(kml, insertIndex)
  }

  /** The splice as its guard evidently meant it: the text unchanged when it holds
      no `</Placemark>`, the splice after the last one otherwise. */
  function InsertPlacemarkChecked(kml: string, fragment: string): (r: string)
    ensures !Occurs(kml, PlacemarkClose) ==> r == kml
    ensures Occurs(kml, PlacemarkClose) ==>
              var k := InsertionPoint(kml);
              r == kml[..k] + "\n" + fragment + "\n" + kml[k..]
    ensures Occurs(kml, PlacemarkClose) ==> r == InsertPlacemarkIntoKml(kml, fragment)
  {
    var lastIndex := LastIndexOf(kml, PlacemarkClose);
    if lastIndex == -1 then kml
    else
      var insertIndex := lastIndex + |PlacemarkClose|;
      kml[..insertIndex] + "\n" + fragment + "\n" + kml[insertIndex..]
  }

  // ---------------------------------------------------------------------------
  // properties of the splice

  /** The tag holds no line break, so the splice's line breaks are seams no tag crosses. */
  lemma NewlineNotInTag()
    ensures '\n' !in PlacemarkClose
  {
    assert PlacemarkClose == ['<', '/', 'P', 'l', 'a', 'c', 'e', 'm', 'a', 'r', 'k', '>'];
  }

  /** The splice as one concatenation around the insertion point. */
  lemma SpliceShape(kml: string, fragment: string)
    ensures var k := InsertionPoint(kml);
            InsertPlacemarkIntoKml(kml, fragment) == kml[..k] + ['\n'] + fragment + ['\n'] + kml[k..]
  {
    var k := InsertionPoint(kml);
    var r := InsertPlacemarkIntoKml(kml, fragment);
    assert r == r[..k] + r[k..k + |fragment| + 2] + r[k + |fragment| + 2..];
  }

  /** The splice removes no `</Placemark>` and makes no new one: the result has
      those of the document and those of the fragment. */
  lemma SpliceKeepsPlacemarks(kml: string, fragment: string)
    ensures Occurrences(InsertPlacemarkIntoKml(kml, fragment), PlacemarkClose)
            == Occurrences(kml, PlacemarkClose) + Occurrences(fragment, PlacemarkClose)
  {
    var k := InsertionPoint(kml);
    var a, b := kml[..k], kml[k..];
    assert kml == a + b;
    NewlineNotInTag();
    SpliceShape(kml, fragment);
    OccurrencesSplice(a, '\n', fragment, b, PlacemarkClose);
  }

  /** `<Document></Document>` holds no `</Placemark>`: wherever a tag could start,
      the character two places on is not `P`. */
  lemma EmptyDocumentHasNoPlacemark(kml: string)
    requires kml == "<Document></Document>"
    ensures !Occurs(kml, PlacemarkClose)
  {
    forall j | 0 <= j <= |kml| - |PlacemarkClose|
      ensures !OccursAt(kml, PlacemarkClose, j)
    {
      assert kml[j + 2] != PlacemarkClose[2];
    }
  }

  /** With no `</Placemark>` in the document the text is still spliced, eleven
      characters in: `<Document></Document>` has its closing tag cut in two,
      where the guard meant to return it unchanged. */
  lemma SpliceWithoutPlacemark(kml: string)
    requires kml == "<Document></Document>"
    ensures InsertPlacemarkIntoKml(kml, "X") == "<Document><\nX\n/Document>"
  {
    EmptyDocumentHasNoPlacemark(kml);
    assert InsertionPoint(kml) == 11;
    SpliceShape(kml, "X");
    SplicedDocumentText(kml[..11], kml[11..]);
  }

  /** The text of the counterexample, put together from its pieces. */
  lemma SplicedDocumentText(head: string, tail: string)
    requires head == "<Document><" && tail == "/Document>"
    ensures head + ['\n'] + "X" + ['\n'] + tail == "<Document><\nX\n/Document>"
  {
  }

  /** The document holds no `</Placemark>` after the insertion point. */
  lemma NoPlacemarkAfterInsertionPoint(kml: string)
    ensures !Occurs(kml[InsertionPoint(kml)..], PlacemarkClose)
  {
    var k := InsertionPoint(kml);
    var b := kml[k..];
    forall i | 0 <= i <= |b| - |PlacemarkClose|
      ensures !OccursAt(b, PlacemarkClose, i)
    {
      OccursWithin(kml, b, k, PlacemarkClose, k + i);
    }
  }

  /** When the fragment holds a `</Placemark>`, the last one of the result is the
      fragment's last, one line break after the insertion point. */
  lemma SpliceLastPlacemark(kml: string, fragment: string)
    requires Occurs(fragment, PlacemarkClose)
    ensures LastIndexOf(InsertPlacemarkIntoKml(kml, fragment), PlacemarkClose)
            == InsertionPoint(kml) + 1 + LastIndexOf(fragment, PlacemarkClose)
  {
    var k := InsertionPoint(kml);
    NewlineNotInTag();
    NoPlacemarkAfterInsertionPoint(kml);
    SpliceShape(kml, fragment);
    LastIndexOfMiddle(kml[..k], '\n', fragment, kml[k..], PlacemarkClose);
  }

  /** Splicing twice adds two fragments, each call growing the text by the
      fragment and its two line breaks; when the fragment holds a `</Placemark>`,
      the second copy goes right after the last one in the first copy. */
  lemma SpliceTwice(kml: string, fragment: string)
    requires Occurs(fragment, PlacemarkClose)
    ensures var once := InsertPlacemarkIntoKml(kml, fragment);
            var twice := InsertPlacemarkIntoKml(once, fragment);
            && |twice| == |kml| + 2 * (|fragment| + 2)
            && InsertionPoint(once)
               == InsertionPoint(kml) + 1 + LastIndexOf(fragment, PlacemarkClose) + |PlacemarkClose|
  {
    SpliceLastPlacemark(kml, fragment);
  }

  /** Whatever its coordinate block, a rendered route ends with `</Placemark>`. */
  lemma RouteFragmentClosesPlacemark(block: string)
    ensures var fragment := RoutePrefix + block + RouteSuffix;
            OccursAt(fragment, PlacemarkClose, |fragment| - |PlacemarkClose|)
  {
    var fragment := RoutePrefix + block + RouteSuffix;
    assert fragment[|fragment| - |PlacemarkClose|..] == PlacemarkClose;
  }

  // ---------------------------------------------------------------------------
  // The template head holds no `</Placemark>`. The proof goes line by line: each
  // line lacks the tag's `/` or its `P`, and a line break is a seam no tag crosses.
  // The lines are checked two or three per lemma to keep each proof small.

  /** A line without the tag's `/` holds no `</Placemark>`. */
  lemma LineWithoutSlash(line: string)
    requires '/' !in line
    ensures Occurrences(line, PlacemarkClose) == 0
  {
    assert PlacemarkClose[1] == '/';
    NoOccurrencesWithout(line, PlacemarkClose, '/');
  }

  /** A line without the tag's `P` holds no `</Placemark>`. */
  lemma LineWithoutCapitalP(line: string)
    requires 'P' !in line
    ensures Occurrences(line, PlacemarkClose) == 0
  {
    assert PlacemarkClose[2] == 'P';
    NoOccurrencesWithout(line, PlacemarkClose, 'P');
  }

  /** Lines without the pattern, joined by line breaks, hold none of it. */
  lemma NoOccurrencesInLines(head: string, line: string, p: string)
    requires |p| > 0 && '\n' !in p
    requires Occurrences(head, p) == 0 && Occurrences(line, p) == 0
    ensures Occurrences(head + "\n" + line, p) == 0
  {
    OccurrencesAroundChar(head, '\n', line, p);
  }

  /** Seven lines without the pattern, each behind a line break, hold none of it. */
  lemma NoOccurrencesInSevenLines(l1: string, l2: string, l3: string, l4: string,
                                  l5: string, l6: string, l7: string, p: string)
    requires |p| > 0 && '\n' !in p
    requires Occurrences(l1, p) == 0 && Occurrences(l2, p) == 0 && Occurrences(l3, p) == 0
    requires Occurrences(l4, p) == 0 && Occurrences(l5, p) == 0 && Occurrences(l6, p) == 0
    requires Occurrences(l7, p) == 0
    ensures Occurrences("\n" + l1 + "\n" + l2 + "\n" + l3 + "\n" + l4 + "\n" + l5 + "\n" + l6 + "\n" + l7, p) == 0
  {
    ShortTextNoOccurrences("", p);
    assert "" + "\n" + l1 == "\n" + l1;
    NoOccurrencesInLines("", l1, p);
    var h := "\n" + l1;
    NoOccurrencesInLines(h, l2, p);
    h := h + "\n" + l2;
    NoOccurrencesInLines(h, l3, p);
    h := h + "\n" + l3;
    NoOccurrencesInLines(h, l4, p);
    h := h + "\n" + l4;
    NoOccurrencesInLines(h, l5, p);
    h := h + "\n" + l5;
    NoOccurrencesInLines(h, l6, p);
    h := h + "\n" + l6;
    NoOccurrencesInLines(h, l7, p);
  }

  /** The `<Placemark>` and `<name>` lines hold no closing tag. */
  lemma OpeningLinesHoldNoPlacemark()
    ensures Occurrences(PlacemarkOpenLine, PlacemarkClose) == 0
    ensures Occurrences(NameLine, PlacemarkClose) == 0
  {
    LineWithoutSlash(PlacemarkOpenLine);
    LineWithoutCapitalP(NameLine);
  }

  /** The `<description>` line holds no closing tag. */
  lemma DescriptionLineHoldsNoPlacemark()
    ensures Occurrences(DescriptionLine, PlacemarkClose) == 0
  {
    LineWithoutCapitalP(DescriptionLine);
  }

  /** The `<styleUrl>`, `<LineString>` and `<tessellate>` lines hold no closing tag. */
  lemma MiddleLinesHoldNoPlacemark()
    ensures Occurrences(StyleLine, PlacemarkClose) == 0
    ensures Occurrences(LineStringOpenLine, PlacemarkClose) == 0
    ensures Occurrences(TessellateLine, PlacemarkClose) == 0
  {
    LineWithoutCapitalP(StyleLine);
    LineWithoutSlash(LineStringOpenLine);
    LineWithoutCapitalP(TessellateLine);
  }

  /** The `<coordinates>`, `</coordinates>` and `</LineString>` lines hold no
      `</Placemark>`. */
  lemma CoordinateTagLinesHoldNoPlacemark()
    ensures Occurrences(CoordinatesOpenLine, PlacemarkClose) == 0
    ensures Occurrences(CoordinatesCloseLine, PlacemarkClose) == 0
    ensures Occurrences(LineStringCloseLine, PlacemarkClose) == 0
  {
    LineWithoutSlash(CoordinatesOpenLine);
    LineWithoutCapitalP(CoordinatesCloseLine);
    LineWithoutCapitalP(LineStringCloseLine);
  }

  /** The template up to the coordinates holds no `</Placemark>`. */
  lemma TemplateHeadHasNoPlacemark()
    ensures Occurrences(TemplateHead, PlacemarkClose) == 0
  {
    NewlineNotInTag();
    OpeningLinesHoldNoPlacemark();
    DescriptionLineHoldsNoPlacemark();
    MiddleLinesHoldNoPlacemark();
    CoordinateTagLinesHoldNoPlacemark();
    NoOccurrencesInSevenLines(PlacemarkOpenLine, NameLine, DescriptionLine, StyleLine,
                              LineStringOpenLine, TessellateLine, CoordinatesOpenLine, PlacemarkClose);
  }

  /** The fragment as lines: the head, the entries' line, the three closing lines. */
  lemma FragmentLines(block: string)
    ensures RoutePrefix + block + RouteSuffix
            == TemplateHead + "\n" + (FirstEntryIndent + block) + "\n" + CoordinatesCloseLine
               + "\n" + LineStringCloseLine + "\n" + PlacemarkCloseLine
  {
    Regroup(TemplateHead, FirstEntryIndent, block, CoordinatesCloseLine, LineStringCloseLine, PlacemarkCloseLine);
  }

  /** Regrouping the fragment's concatenation around the entries' line. */
  lemma Regroup(h: string, i: string, b: string, x: string, y: string, z: string)
    ensures (h + "\n" + i) + b + ("\n" + x + "\n" + y + "\n" + z)
            == h + "\n" + (i + b) + "\n" + x + "\n" + y + "\n" + z
  {
  }

  /** The last line of a rendered route holds its one `</Placemark>`. */
  lemma CloseLineHasOnePlacemark()
    ensures Occurrences(PlacemarkCloseLine, PlacemarkClose) == 1
  {
    assert PlacemarkClose[0] == '<';
    OccurrencesSkipPrefix(Indent, PlacemarkClose, PlacemarkClose);
    OccurrencesOfPattern(PlacemarkClose);
  }

  /** Four lines with no pattern and a last line with one hold one in all. */
  lemma {:induction false} OneOccurrenceInLines(h: string, m: string, x: string, y: string, z: string, p: string)
    requires |p| > 0 && '\n' !in p
    requires Occurrences(h, p) == 0 && Occurrences(m, p) == 0
    requires Occurrences(x, p) == 0 && Occurrences(y, p) == 0 && Occurrences(z, p) == 1
    ensures Occurrences(h + "\n" + m + "\n" + x + "\n" + y + "\n" + z, p) == 1
  {
    NoOccurrencesInLines(h, m, p);
    NoOccurrencesInLines(h + "\n" + m, x, p);
    NoOccurrencesInLines(h + "\n" + m + "\n" + x, y, p);
    OccurrencesAroundChar(h + "\n" + m + "\n" + x + "\n" + y, '\n', z, p);
  }

  /** A rendered route whose coordinate block holds no `<` holds exactly one
      `</Placemark>`, the one that closes it. */
  lemma RouteFragmentHasOnePlacemark(block: string)
    requires '<' !in block
    ensures Occurrences(RoutePrefix + block + RouteSuffix, PlacemarkClose) == 1
  {
    var p := PlacemarkClose;
    assert p[0] == '<';
    NewlineNotInTag();
    TemplateHeadHasNoPlacemark();
    var mid := FirstEntryIndent + block;
    assert '<' !in FirstEntryIndent;
    NoOccurrencesWithout(mid, p, '<');
    CoordinateTagLinesHoldNoPlacemark();
    CloseLineHasOnePlacemark();
    FragmentLines(block);
    OneOccurrenceInLines(TemplateHead, mid, CoordinatesCloseLine, LineStringCloseLine, PlacemarkCloseLine, p);
  }

  /** Splicing the template around a coordinate block adds its closing tag to the
      document's, exactly one tag when the block holds no `<`, and that tag becomes
      the last `</Placemark>` of the text. */
  lemma SpliceRouteFragment(kml: string, block: string)
    ensures var fragment := RoutePrefix + block + RouteSuffix;
            var merged := InsertPlacemarkIntoKml(kml, fragment);
            && Occurrences(merged, PlacemarkClose) > Occurrences(kml, PlacemarkClose)
            && ('<' !in block ==>
                  Occurrences(merged, PlacemarkClose) == Occurrences(kml, PlacemarkClose) + 1)
            && LastIndexOf(merged, PlacemarkClose) + |PlacemarkClose|
               == InsertionPoint(kml) + 1 + |fragment|
  {
    var fragment := RoutePrefix + block + RouteSuffix;
    RouteFragmentClosesPlacemark(block);
    SpliceClosedFragment(kml, fragment);
    if '<' !in block {
      RouteFragmentHasOnePlacemark(block);
    }
  }

  /** A fragment that ends with `</Placemark>` adds its tags to the document's, and
      its closing tag becomes the last of the result. */
  lemma SpliceClosedFragment(kml: string, fragment: string)
    requires |PlacemarkClose| <= |fragment|
    requires OccursAt(fragment, PlacemarkClose, |fragment| - |PlacemarkClose|)
    ensures var merged := InsertPlacemarkIntoKml(kml, fragment);
            && Occurrences(fragment, PlacemarkClose) > 0
            && Occurrences(merged, PlacemarkClose)
               == Occurrences(kml, PlacemarkClose) + Occurrences(fragment, PlacemarkClose)
            && LastIndexOf(merged, PlacemarkClose) + |PlacemarkClose|
               == InsertionPoint(kml) + 1 + |fragment|
  {
    assert Occurs(fragment, PlacemarkClose);
    OccursCounted(fragment, PlacemarkClose);
    SpliceKeepsPlacemarks(kml, fragment);
    LastIndexAtEnd(fragment, PlacemarkClose);
    SpliceLastPlacemark(kml, fragment);
  }

  /** Splicing a rendered route into a document adds at least one placemark, and
      exactly one when the numbers' texts hold no `<`, as number formatting never
      gives; the route's closing tag becomes the last `</Placemark>` of the text. */
  lemma SpliceRenderedRoute<N>(kml: string, response: RoutesResponse<N>, show: N -> string)
    requires !HasNoRoute(response) && response.routes.value[0].lineString.Some?
    ensures var fragment := GenerateKmlFromRoute(response, show).value;
            var merged := InsertPlacemarkIntoKml(kml, fragment);
            && Occurrences(merged, PlacemarkClose) > Occurrences(kml, PlacemarkClose)
            && ((forall n :: '<' !in show(n)) ==>
                  Occurrences(merged, PlacemarkClose) == Occurrences(kml, PlacemarkClose) + 1)
            && LastIndexOf(merged, PlacemarkClose) + |PlacemarkClose|
               == InsertionPoint(kml) + 1 + |fragment|
  {
    var line := response.routes.value[0].lineString.value;
    var block := CoordinateBlock(line, show);
    assert GenerateKmlFromRoute(response, show).value == RoutePrefix + block + RouteSuffix;
    SpliceRouteFragment(kml, block);
    if forall n :: '<' !in show(n) {
      BlockWithoutTag(line, show);
    }
  }
}
