/**
 * The repository's pure logic: building the `pagina.jsp`
 * URLs, turning the `<area>` elements of the image map into click areas,
 * choosing between the image map and OCR, and OCR's de-duplication.
 */
module Repository {
  import opened Wrappers
  import opened Text
  import opened PageSyntax
  import opened Models
  import opened HrefScan
  import opened Distinct

  // ---------------------------------------------------------------------
  // URLs
  // ---------------------------------------------------------------------

  const PaginaJsp: string := "https://www.servizitelevideo.rai.it/televideo/pub/pagina.jsp"
  const SubQuerySuffix: string := "&r=Nazionale&pagetocall=pagina.jsp"

  /** `paginaJspUrl`: `?pagina=` for a page alone, `?p=..&s=..` with region and caller for a subpage. */
  function PaginaJspUrl(page: string, subInt: Option<int>): string {
    match subInt
    case None => "https://www.servizitelevideo.rai.it/televideo/pub/pagina.jsp?pagina=" + page
    case Some(sub) =>
      var s := IntToString(sub);
      "https://www.servizitelevideo.rai.it/televideo/pub/pagina.jsp?p=" + page + "&s=" + s
        + "&r=Nazionale&pagetocall=pagina.jsp"
  }

  /** `mapUrl`: the page that carries the image map. */
  function MapUrl(page: string): string {
    "https://www.servizitelevideo.rai.it/televideo/pub/pagina.jsp?pagina=" + page
  }

  /** Without a subpage, the image is resolved from the same page as the image map. */
  lemma PaginaJspUrlWithoutSub(page: string)
    ensures PaginaJspUrl(page, None) == MapUrl(page)
    ensures MapUrl(page) == PaginaJsp + "?pagina=" + page
  {
  }

  /** With a subpage, the URL carries `p=<page>&s=<sub>`, the subpage in plain decimal without padding. */
  lemma PaginaJspUrlWithSub(page: string, sub: nat)
    ensures var d := NatToString(sub);
      && PaginaJspUrl(page, Some(sub)) == PaginaJsp + "?p=" + page + "&s=" + d + SubQuerySuffix
      && AllDigits(d) && NatOf(d) == sub && (d[0] == '0' ==> sub == 0)
  {
    NatToStringRoundTrip(sub);
  }

  // ---------------------------------------------------------------------
  // Image-map areas
  // ---------------------------------------------------------------------

  /** One `<area coords href>` element: its trimmed `coords` attribute and its resolved `href`. */
  datatype AreaElement = AreaElement(coords: string, href: string)

  /** `split(",").mapNotNull { it.trim().toIntOrNull() }` */
  function IntTokens(pieces: seq<string>): seq<int> {
    if pieces == [] then []
    else
      (match ToIntOrNull(Trim(pieces[0])) case Some(v) => [v] case None => [])
      + IntTokens(pieces[1..])
  }

  function CoordTokens(coordsRaw: string): seq<int> {
    IntTokens(Split(Trim(coordsRaw), ','))
  }

  /** The page of an href: the last `pagina=`/`p=` value, or failing that the last standalone page number. */
  function PageFromHref(href: string): Option<string> {
    var fromParam := LastGroup(PageParam, href);
    if fromParam.Some? then fromParam else LastGroup(AnyPage, href)
  }

  /** The subpage of an href: the last `sottopagina=`/`s=` value, zero-padded to two characters. */
  function SubFromHref(href: string): Option<string> {
    match LastGroup(SubParam, href)
    case None => None
    case Some(g) => Some(PadStart(g, 2, '0'))
  }

  /** What one element of the loop in `fetchClickAreas(page)` contributes. */
  function AreaFromElement(e: AreaElement): Option<ClickArea> {
    var c := CoordTokens(e.coords);
    if |c| < 4 then None
    else
      var page := PageFromHref(e.href);
      if page.None? then None
      else Some(ClickArea(c[0], c[1], c[2], c[3], page.value, SubFromHref(e.href)).Normalised())
  }

  function OptionToSeq<T>(o: Option<T>): seq<T> {
    match o case None => [] case Some(v) => [v]
  }

  /** The areas of the image map, in element order. */
  function MapAreas(elements: seq<AreaElement>): seq<ClickArea> {
    if elements == [] then []
    else MapAreas(elements[..|elements| - 1]) + OptionToSeq(AreaFromElement(elements[|elements| - 1]))
  }

  /** The page found in an href is always a page string, and a `pagina=`/`p=` value wins over a bare page number. */
  lemma PageFromHrefShape(href: string)
    ensures PageFromHref(href).Some? ==> IsPageString(PageFromHref(href).value)
    ensures LastGroup(PageParam, href).Some? ==> PageFromHref(href) == LastGroup(PageParam, href)
  {
    LastGroupShape(PageParam, href);
    LastGroupShape(AnyPage, href);
  }

  /** An href has no page exactly when neither pattern matches at any position. */
  lemma PageFromHrefNone(href: string)
    ensures PageFromHref(href).None? <==>
      forall k :: 0 <= k <= |href| ==> MatchAt(PageParam, href, k).None? && MatchAt(AnyPage, href, k).None?
  {
    LastGroupNone(PageParam, href);
    LastGroupNone(AnyPage, href);
  }

  /** A subpage from an href is two digits with the value of the matched one or two digits. */
  lemma SubFromHrefSpec(href: string)
    ensures SubFromHref(href).Some? <==> LastGroup(SubParam, href).Some?
    ensures SubFromHref(href).Some? ==>
      var g := LastGroup(SubParam, href).value;
      var s := SubFromHref(href).value;
      |s| == 2 && AllDigits(s) && NatOf(s) == NatOf(g) && s[2 - |g|..] == g
  {
    LastGroupShape(SubParam, href);
    if LastGroup(SubParam, href).Some? {
      NatOfPadZeros(LastGroup(SubParam, href).value, 2);
    }
  }

  /**
   * An element yields an area exactly when its coords hold at least four
   * integers and its href names a page; the area is the rectangle spanned by
   * tokens 0..3 as (x1, y1, x2, y2), with its corners ordered.
   */
  lemma AreaFromElementSpec(e: AreaElement)
    ensures var c := CoordTokens(e.coords);
      var r := AreaFromElement(e);
      && (r.Some? <==> |c| >= 4 && PageFromHref(e.href).Some?)
      && (r.Some? ==>
            && r.value.x1 <= r.value.x2 && r.value.y1 <= r.value.y2
            && (forall x, y :: r.value.Contains(x, y) <==>
                  ClickArea(c[0], c[1], c[2], c[3], r.value.page, r.value.subpage).Contains(x, y))
            && r.value.page == PageFromHref(e.href).value && IsPageString(r.value.page)
            && r.value.subpage == SubFromHref(e.href))
  {
    PageFromHrefShape(e.href);
  }

  /** The shape of every area taken from the image map. */
  predicate WellFormedMapArea(a: ClickArea) {
    && a.x1 <= a.x2 && a.y1 <= a.y2 && IsPageString(a.page)
    && (a.subpage.Some? ==> |a.subpage.value| == 2 && AllDigits(a.subpage.value))
  }

  lemma AreaFromElementWellFormed(e: AreaElement)
    ensures AreaFromElement(e).Some? ==> WellFormedMapArea(AreaFromElement(e).value)
  {
    AreaFromElementSpec(e);
    SubFromHrefSpec(e.href);
  }

  /** Every area taken from the image map is normalised, names a valid page and has a two-digit subpage if any. */
  lemma {:induction false} MapAreasWellFormed(elements: seq<AreaElement>)
    ensures |MapAreas(elements)| <= |elements|
    ensures forall i :: 0 <= i < |MapAreas(elements)| ==> WellFormedMapArea(MapAreas(elements)[i])
  {
    if elements != [] {
      var init := elements[..|elements| - 1];
      var last := elements[|elements| - 1];
      MapAreasWellFormed(init);
      AreaFromElementWellFormed(last);
      assert MapAreas(elements) == MapAreas(init) + OptionToSeq(AreaFromElement(last));
    }
  }

  /** Each element contributes its own area, if any, after those of the elements before it. */
  lemma MapAreasAppend(elements: seq<AreaElement>, e: AreaElement)
    ensures MapAreas(elements + [e]) == MapAreas(elements) + OptionToSeq(AreaFromElement(e))
  {
    assert (elements + [e])[..|elements|] == elements;
  }

  lemma MapAreasPrefix(elements: seq<AreaElement>, i: nat)
    requires i < |elements|
    ensures MapAreas(elements[..i + 1]) == MapAreas(elements[..i]) + OptionToSeq(AreaFromElement(elements[i]))
  {
    assert elements[..i + 1][..i] == elements[..i];
  }

  /** An element whose coords hold fewer than four integers contributes nothing. */
  lemma MapAreasSkipsShortCoords(elements: seq<AreaElement>, e: AreaElement)
    requires |CoordTokens(e.coords)| < 4
    ensures MapAreas(elements + [e]) == MapAreas(elements)
  {
    MapAreasAppend(elements, e);
  }

  /**
   * The loop of `fetchClickAreas(page)` over the selected `<area>` elements:
   * elements with fewer than four integer coords are skipped, the page and
   * subpage are whatever the last match of each scan leaves behind, and an
   * element without a page is dropped.
   */
  method ExtractAreas(elements: seq<AreaElement>) returns (out: seq<ClickArea>)
    ensures out == MapAreas(elements)
  {
    out := [];
    for i := 0 to |elements|
      invariant out == MapAreas(elements[..i])
    {
      var a := elements[i];
      MapAreasPrefix(elements, i);
      var coords := CoordTokens(a.coords);
      if |coords| < 4 { continue; }

      var x1 := Min(coords[0], coords[2]);
      var y1 := Min(coords[1], coords[3]);
      var x2 := Max(coords[0], coords[2]);
      var y2 := Max(coords[1], coords[3]);

      var pageNum := ScanLastGroup(PageParam, a.href);
      if pageNum.None? {
        pageNum := ScanLastGroup(AnyPage, a.href);
      }
      var sub := ScanLastGroup(SubParam, a.href);
      ElementArea(a, coords, pageNum, sub);

      if pageNum.None? { continue; }
      var subpage := if sub.Some? then Some(PadStart(sub.value, 2, '0')) else None;
      out := out + [ClickArea(x1, y1, x2, y2, pageNum.value, subpage)];
    }
    assert elements[..|elements|] == elements;
  }

  /** One step of `ExtractAreas`: what the scans of an element with four or more coords amount to. */
  lemma ElementArea(e: AreaElement, coords: seq<int>, pageNum: Option<string>, sub: Option<string>)
    requires coords == CoordTokens(e.coords) && |coords| >= 4
    requires pageNum == (if LastGroup(PageParam, e.href).Some? then LastGroup(PageParam, e.href)
                         else LastGroup(AnyPage, e.href))
    requires sub == LastGroup(SubParam, e.href)
    ensures AreaFromElement(e) ==
      if pageNum.None? then None
      else Some(ClickArea(Min(coords[0], coords[2]), Min(coords[1], coords[3]),
                          Max(coords[0], coords[2]), Max(coords[1], coords[3]), pageNum.value,
                          if sub.Some? then Some(PadStart(sub.value, 2, '0')) else None))
  {
  }

  // ---------------------------------------------------------------------
  // Image map or OCR
  // ---------------------------------------------------------------------

  /** Minimum number of image-map areas for the image map to be trusted over OCR. */
  const MinMapAreas: nat := 5

  /**
   * `fetchClickAreas(page, bitmap)`: the image map when it has at least five
   * areas, otherwise OCR when OCR found something, otherwise the image map.
   * (A failed fetch or OCR run is an empty list.)
   */
  function SelectAreas(fromMap: seq<ClickArea>, fromOcr: seq<ClickArea>): (r: seq<ClickArea>)
    ensures r == fromMap || r == fromOcr
    ensures |fromMap| >= MinMapAreas ==> r == fromMap
    ensures |fromMap| < MinMapAreas && fromOcr != [] ==> r == fromOcr
    ensures r == [] <==> fromMap == [] && fromOcr == []
  {
    if |fromMap| >= MinMapAreas then fromMap
    else if fromOcr != [] then fromOcr
    else fromMap
  }

  // ---------------------------------------------------------------------
  // OCR de-duplication: distinctBy { "${page}:${x1}:${y1}:${x2}:${y2}" }
  // ---------------------------------------------------------------------

  /** The key OCR areas are de-duplicated by. */
  function OcrKey(a: ClickArea): string {
    a.page + ":" + IntToString(a.x1) + ":" + IntToString(a.y1) + ":" + IntToString(a.x2) + ":" + IntToString(a.y2)
  }

  /** OCR's `distinctBy`: the first area of each key, in input order. */
  function DistinctAreas(s: seq<ClickArea>): seq<ClickArea> {
    DistinctBy(s, OcrKey)
  }

  /**
   * No two OCR areas left share a page and corners, every key of the OCR
   * output survives, and each area kept is the first one with its key.
   */
  lemma DistinctAreasSpec(s: seq<ClickArea>)
    ensures var r := DistinctAreas(s);
      && (forall i, j :: 0 <= i < j < |r| ==> OcrKey(r[i]) != OcrKey(r[j]))
      && KeySet(r, OcrKey) == KeySet(s, OcrKey)
      && (forall k :: 0 <= k < |r| ==>
            exists i :: 0 <= i < |s| && s[i] == r[k] && forall j :: 0 <= j < i ==> OcrKey(s[j]) != OcrKey(s[i]))
  {
    if s != [] {
      DistinctBySpec(s, OcrKey, s[0]);
    }
  }
}
