/**
 * Turning the rendered table of contents into a chapter list (src/chapter.rs).
 * HTML parsing and selector matching are not modelled: the input is the
 * sequence of elements, in document order, that match the chapter-item selector.
 */
module ChapterList {
  import opened Results
  import opened Text
  import opened Model

  /**
   * A matched chapter-item element: its `href` attribute, if any, and the
   * text of the first descendant matching the title selector, if there is one.
   */
  datatype Element = Element(href: Option<string>, titleText: Option<string>)

  /** The name given to a chapter whose title is missing or blank. */
  const UnknownName: string := "Không rõ tên"

  /** The trimmed title text, unless it is missing or trims to nothing. */
  function ChapterName(titleText: Option<string>): (name: string)
    ensures name != []
    ensures titleText.Some? && Trim(titleText.value) != [] ==> name == Trim(titleText.value)
    ensures titleText.None? || Trim(titleText.value) == [] ==> name == UnknownName
  {
    match titleText
    case None => UnknownName
    case Some(t) => if Trim(t) == [] then UnknownName else Trim(t)
  }

  /** The record an element yields, or nothing when it has no `href`. */
  function ToChapter(e: Element): (c: Option<Chapter>)
    ensures c.Some? <==> e.href.Some?
    ensures c.Some? ==> c.value.link == e.href.value && !c.value.isDownload
  {
    match e.href
    case None => None
    case Some(link) => Some(Chapter(ChapterName(e.titleText), link, false))
  }

  /** `extract_chapters_from_html`: a `filter_map` of `ToChapter` over the matched elements. */
  function ExtractChapters(elements: seq<Element>): (cs: seq<Chapter>)
    ensures |cs| <= |elements|
    ensures forall k :: 0 <= k < |cs| ==> !cs[k].isDownload && cs[k].name != []
  {
    if elements == [] then [] else Yielded(elements[0]) + ExtractChapters(elements[1..])
  }

  function Yielded(e: Element): (cs: seq<Chapter>)
    ensures |cs| <= 1
    ensures forall k :: 0 <= k < |cs| ==> !cs[k].isDownload && cs[k].name != []
  {
    match ToChapter(e) case None => [] case Some(c) => [c]
  }

  /** The `href` values of the elements that have one, in document order. */
  function Hrefs(elements: seq<Element>): seq<string> {
    if elements == [] then []
    else if elements[0].href.None? then Hrefs(elements[1..])
    else [elements[0].href.value] + Hrefs(elements[1..])
  }

  function Links(cs: seq<Chapter>): seq<string> {
    if cs == [] then [] else [cs[0].link] + Links(cs[1..])
  }

  /**
   * Elements without `href` are dropped and the others are kept in document
   * order, each link copied verbatim: the links are exactly the `href` values.
   */
  lemma {:induction false} ExtractedLinksAreHrefs(elements: seq<Element>)
    ensures Links(ExtractChapters(elements)) == Hrefs(elements)
    ensures |ExtractChapters(elements)| == |Hrefs(elements)|
  {
    if elements != [] {
      var rest := elements[1..];
      ExtractedLinksAreHrefs(rest);
      LinksConcat(Yielded(elements[0]), ExtractChapters(rest));
    }
  }

  lemma {:induction false} LinksConcat(x: seq<Chapter>, y: seq<Chapter>)
    ensures Links(x + y) == Links(x) + Links(y)
  {
    if x != [] {
      assert (x + y)[1..] == x[1..] + y;
      LinksConcat(x[1..], y);
    } else {
      assert x + y == y;
    }
  }

  /** Extraction runs element by element: the list for two stretches of the page is the two lists one after the other. */
  lemma {:induction false} ExtractConcat(a: seq<Element>, b: seq<Element>)
    ensures ExtractChapters(a + b) == ExtractChapters(a) + ExtractChapters(b)
  {
    if a != [] {
      assert (a + b)[0] == a[0];
      assert (a + b)[1..] == a[1..] + b;
      ExtractConcat(a[1..], b);
      assert ExtractChapters(a + b) == Yielded(a[0]) + (ExtractChapters(a[1..]) + ExtractChapters(b));
    } else {
      assert a + b == b;
    }
  }

  /** A single element yields at most its own record, named from its title. */
  lemma ExtractOne(e: Element)
    ensures ExtractChapters([e]) == if e.href.None? then [] else [Chapter(ChapterName(e.titleText), e.href.value, false)]
  {
  }
}
