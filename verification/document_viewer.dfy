/** The document preview viewer (static/js/document_viewer.js, both variants): the page shown,
    the image source that follows it, and the arrow keys bound while the mouse is over a
    preview of more than one page.

    The viewer is a value; the DOM events are the steps it takes. The newer variant also
    hides the previous and next controls of a single-page preview. */
module DocumentViewer {
  import opened Wrappers
  import opened Text

  datatype Variant = Newer | Older

  /** The page shown (counted from 0), the number of pages, the original image source, the
      current one, whether the key handler is bound and whether the controls are hidden. */
  datatype Viewer = Viewer(page: int, pageNum: int, imgSrc: string, src: string,
                           keysBound: bool, controlsHidden: bool)

  /** The image source of a page: the original one with the page appended. */
  function PageSrc(imgSrc: string, page: int): (r: string)
    ensures |r| > |imgSrc| + 6 && r[..|imgSrc|] == imgSrc && r[|imgSrc|..|imgSrc| + 6] == "&page="
  {
    var r := imgSrc + "&page=" + IntToString(page);
    assert r[..|imgSrc|] == imgSrc && r[|imgSrc|..|imgSrc| + 6] == "&page=";
    r
  }

  /** The page number comes back out of the source. */
  lemma PageSrcParses(imgSrc: string, page: int)
    ensures PyInt(PageSrc(imgSrc, page)[|imgSrc| + 6..]) == Some(page)
  {
    assert PageSrc(imgSrc, page)[|imgSrc| + 6..] == IntToString(page);
    IntToStringParses(page);
  }

  /** `setupDocumentViewer`: the page stored on the image, its source, and (newer variant)
      the controls hidden unless there is more than one page. No key handler is bound yet. */
  function Setup(variant: Variant, pageNum: int, imgSrc: string, page: int): (v: Viewer)
    ensures v.page == page && v.pageNum == pageNum && v.imgSrc == imgSrc && v.src == imgSrc
    ensures !v.keysBound
    ensures v.controlsHidden <==> variant == Newer && pageNum <= 1
    ensures 0 <= page < pageNum ==> Valid(v)
  {
    Viewer(page, pageNum, imgSrc, imgSrc, false, variant == Newer && !(pageNum > 1))
  }

  /** The page after a step, and the source that shows it. */
  function Show(v: Viewer, page: int): (r: Viewer)
    ensures r.page == page && r.src == PageSrc(v.imgSrc, page)
    ensures r.(page := v.page, src := v.src) == v
  {
    v.(page := page, src := v.imgSrc + "&page=" + IntToString(page))
  }

  /** `loadNext`: one page on, unless that reaches the page count. */
  function LoadNext(v: Viewer): (r: Viewer)
    ensures v.page + 1 < v.pageNum ==> r.page == v.page + 1
    ensures v.page + 1 >= v.pageNum ==> r.page == v.page
    ensures r.src == PageSrc(v.imgSrc, r.page)
  {
    var page := v.page + 1;
    Show(v, if page >= v.pageNum then page - 1 else page)
  }

  /** `loadPrev`: one page back, but not before the first page. */
  function LoadPrev(v: Viewer): (r: Viewer)
    ensures v.page >= 1 ==> r.page == v.page - 1
    ensures v.page < 1 ==> r.page == 0
    ensures r.src == PageSrc(v.imgSrc, r.page)
  {
    var page := v.page - 1;
    Show(v, if page < 0 then 0 else page)
  }

  const RightArrow: int := 39
  const LeftArrow: int := 37

  datatype Event = MouseEnter | MouseLeave | ClickNext | ClickPrev | KeyDown(code: int)

  /** One event: the viewer after it, and whether the browser's default action goes ahead.
      The hover handlers exist only for a preview of more than one page; entering binds the
      key handler and leaving unbinds it. The arrows load the next and previous pages and
      stop the default action; any other key, or any key while nothing is bound, passes. */
  function Step(v: Viewer, e: Event): (r: (Viewer, bool))
    ensures e.MouseEnter? || e.MouseLeave? ==> r.0.page == v.page && r.0.src == v.src
    ensures e.MouseEnter? ==> (r.0.keysBound <==> v.keysBound || v.pageNum > 1)
    ensures e.MouseLeave? ==> (r.0.keysBound <==> v.keysBound && !(v.pageNum > 1))
    ensures e.KeyDown? ==> (!r.1 <==> v.keysBound && (e.code == RightArrow || e.code == LeftArrow))
    ensures r.0.pageNum == v.pageNum && r.0.imgSrc == v.imgSrc && r.0.controlsHidden == v.controlsHidden
  {
    match e
    case MouseEnter => (if v.pageNum > 1 then v.(keysBound := true) else v, true)
    case MouseLeave => (if v.pageNum > 1 then v.(keysBound := false) else v, true)
    case ClickNext => (LoadNext(v), true)
    case ClickPrev => (LoadPrev(v), true)
    case KeyDown(code) =>
      if !v.keysBound then (v, true)
      else if code == RightArrow then (LoadNext(v), false)
      else if code == LeftArrow then (LoadPrev(v), false)
      else (v, true)
  }

  function Run(v: Viewer, es: seq<Event>): Viewer
    decreases |es|
  {
    if |es| == 0 then v else Run(Step(v, es[0]).0, es[1..])
  }

  /** The viewer's invariant: the page is one of the document's, the source is the original
      one (before the first page load) or the page's, and a single-page preview never binds
      the keys. */
  predicate Valid(v: Viewer) {
    0 <= v.page < v.pageNum
    && (v.src == v.imgSrc || v.src == PageSrc(v.imgSrc, v.page))
    && (v.keysBound ==> v.pageNum > 1)
  }

  /** Each event keeps the invariant. */
  lemma StepValid(v: Viewer, e: Event)
    requires Valid(v)
    ensures Valid(Step(v, e).0)
  {
  }

  /** From a valid state, any sequence of events keeps the page within the document. */
  lemma {:induction false} RunValid(v: Viewer, es: seq<Event>)
    requires Valid(v)
    ensures Valid(Run(v, es))
    decreases |es|
  {
    if |es| > 0 {
      StepValid(v, es[0]);
      RunValid(Step(v, es[0]).0, es[1..]);
    }
  }

  /** A single-page preview ignores the keyboard: whatever the events, no key handler is
      bound and every key goes to the browser. */
  lemma {:induction false} SinglePageIgnoresKeys(v: Viewer, es: seq<Event>)
    requires v.pageNum <= 1 && !v.keysBound
    ensures !Run(v, es).keysBound
    ensures forall code :: Step(Run(v, es), KeyDown(code)).1
    decreases |es|
  {
    if |es| > 0 {
      SinglePageIgnoresKeys(Step(v, es[0]).0, es[1..]);
    }
  }

  /** Next then previous comes back, except from the last page, and previous then next
      comes back, except from the first page. */
  lemma NextPrev(v: Viewer)
    requires Valid(v)
    ensures v.page + 1 < v.pageNum ==> LoadPrev(LoadNext(v)).page == v.page
    ensures v.page + 1 == v.pageNum ==> LoadPrev(LoadNext(v)).page == if v.page > 0 then v.page - 1 else 0
    ensures v.page > 0 ==> LoadNext(LoadPrev(v)).page == v.page
  {
  }
}
