/** The document views (documents/views/documents.py): the preview size clamp, the
    download disposition rule, check-in/check-out, and the two preview dispatchers.

    Image resizing and the document converter are parameters; a converter that raises is
    a converter returning None. */
module DocumentsViews {
  import opened Wrappers
  import opened Text
  import opened DocContent
  import DocViews

  /** `MAX_PREVIEW_SIZE`. */
  const MaxPreviewSize: int := 1000

  datatype RequestError = ValueError | BadRequest | Locked(e: LockError)

  /** `int(request.args.get(name, 0))`: a missing argument is 0, an argument `int()` rejects
      raises ValueError. */
  function IntArg(arg: Option<string>): (r: Result<int, RequestError>)
    ensures arg.None? ==> r == Success(0)
    ensures arg.Some? ==> (r.Success? <==> PyInt(arg.value).Some?)
    ensures arg.Some? && r.Success? ==> r.value == PyInt(arg.value).value
  {
    match arg
    case None => Success(0)
    case Some(s) =>
      match PyInt(s)
      case None => Failure(RequestError.ValueError)
      case Some(n) => Success(n)
  }

  /** The requested preview size, cut down to `MAX_PREVIEW_SIZE` (there is no lower bound). */
  function ClampPreviewSize(size: int): (s: int)
    ensures s <= MaxPreviewSize
    ensures size <= MaxPreviewSize ==> s == size
    ensures size > MaxPreviewSize ==> s == MaxPreviewSize
  {
    if size > MaxPreviewSize then MaxPreviewSize else size
  }

  /** Clamping twice is clamping once. */
  lemma ClampIdempotent(size: int)
    ensures ClampPreviewSize(ClampPreviewSize(size)) == ClampPreviewSize(size)
  {
  }

  // ---------------------------------------------------------------------------
  // document_download
  // ---------------------------------------------------------------------------

  /** The types served inline; the image pattern is "image/" followed by a star. */
  const InlineTypes: seq<string> := ["text/plain", "application/pdf", "image/*"]

  /** Whether a download gets `content-disposition: attachment`: when `attach` was
      requested (a non-empty query argument, or the check-out path) or the type is none of
      the inline types. */
  predicate Attachment(attach: bool, contentType: string) {
    attach || !DocViews.MimeMatch(contentType, InlineTypes)
  }

  /** The `attach` query argument is truthy when present and non-empty. */
  predicate AttachArg(arg: Option<string>) {
    arg.Some? && arg.value != ""
  }

  /** Without `attach`, a download is inline exactly when its type starts with "text/plain",
      "application/pdf" or "image/"; an empty type is downloaded as an attachment. */
  lemma InlineIff(contentType: string)
    ensures !Attachment(false, contentType) <==>
              contentType != ""
              && ("text/plain" <= contentType || "application/pdf" <= contentType || "image/" <= contentType)
  {
    var m := if contentType == "" then "application/binary" else contentType;
    DocViews.LiteralMatch("text/plain", m);
    DocViews.LiteralMatch("application/pdf", m);
    assert InlineTypes[2] == "image/" + "*";
    DocViews.TrailingStarMatch("image/", m);
    if DocViews.PrefixMatch(InlineTypes[0], m) || DocViews.PrefixMatch(InlineTypes[1], m)
       || DocViews.PrefixMatch(InlineTypes[2], m) {
      assert DocViews.MimeMatch(contentType, InlineTypes);
    }
    if contentType == "" {
      assert m[0] == 'a' && m[12] == 'b';
    }
  }

  // ---------------------------------------------------------------------------
  // checkin_checkout
  // ---------------------------------------------------------------------------

  /** The two document columns check-in/check-out touch. */
  datatype LockedDoc = LockedDoc(lock: LockMeta, updatedAt: int, contentType: string)

  /** What the view answers: a redirect to the document, or the download (as attachment). */
  datatype Reply = ToDocument | Download(attachment: bool)

  predicate KnownAction(action: Option<string>) {
    action == Some("checkout") || action == Some("lock") || action == Some("unlock")
  }

  /** `checkin_checkout`: an unknown action is a BadRequest; "lock" and "checkout" set the
      lock to the current user (which fails if someone else holds a live lock), "unlock"
      removes it; `updated_at` is put back to its value before the change. "checkout" then
      serves the download as an attachment. */
  function CheckinCheckout(d: LockedDoc, action: Option<string>, userId: int, userName: string, now: int,
                           lifetime: int, parse: string -> Option<int>, format: int -> string)
    : (r: Result<(LockedDoc, Reply), RequestError>)
    ensures !KnownAction(action) ==> r == Failure(BadRequest)
    ensures action == Some("unlock") ==> r == Success((d.(lock := None), ToDocument))
    ensures action == Some("lock") || action == Some("checkout") ==>
              var sl := SetLock(d.lock, userId, userId, userName, now, lifetime, parse, format);
              (r.Failure? <==> sl.Failure?)
              && (sl.Failure? ==> r.error == Locked(sl.error))
              && (r.Success? ==> r.value.0 == d.(lock := sl.value))
    ensures r.Success? ==> r.value.0.updatedAt == d.updatedAt && r.value.0.contentType == d.contentType
    ensures r.Success? ==> (r.value.1 == Download(true) <==> action == Some("checkout"))
  {
    if !KnownAction(action) then Failure(BadRequest)
    else if action == Some("unlock") then Success((d.(lock := DeleteLock(d.lock)), ToDocument))
    else
      match AssignLock(d.lock, Some(userId), userId, userName, now, lifetime, parse, format)
      case Failure(e) => Failure(Locked(e))
      case Success(m) =>
        Success((d.(lock := m), if action == Some("checkout") then Download(true) else ToDocument))
  }

  /** A check-out that succeeds leaves the document locked by the user who checked it out,
      and the download it serves is an attachment whatever the type; unlocking afterwards
      leaves no lock to read. */
  lemma CheckoutThenUnlock(d: LockedDoc, userId: int, userName: string, now: int, lifetime: int,
                           parse: string -> Option<int>, format: int -> string)
    requires lifetime >= 0 && forall t :: parse(format(t)) == Some(t)
    ensures var r := CheckinCheckout(d, Some("checkout"), userId, userName, now, lifetime, parse, format);
            r.Success? ==>
              GetLock(r.value.0.lock, now, lifetime, parse) == Success(Some(Lock(userId, userName, now)))
              && Attachment(r.value.1.attachment, d.contentType)
              && var u := CheckinCheckout(r.value.0, Some("unlock"), userId, userName, now, lifetime, parse, format);
                 u.Success? && GetLock(u.value.0.lock, now, lifetime, parse) == Success(None)
                 && u.value.0.updatedAt == d.updatedAt
  {
    SetLockThenGet(d.lock, userId, userId, userName, now, lifetime, parse, format);
  }

  // ---------------------------------------------------------------------------
  // document_preview_image, document_preview
  // ---------------------------------------------------------------------------

  /** The answer of the preview-image view: the "preview missing" redirect, or image bytes
      with their content type. */
  datatype PreviewImage = MissingImage | Image(data: seq<Byte>, contentType: string)

  /** The converter: given (page, size) it returns the image or None when it raises;
      `getImage` serves the cached standard size, `toImage` renders afresh. */
  type Converter = (int, int) -> Option<seq<Byte>>

  /** `document_preview_image`: a document the antivirus has not cleared gets the "missing"
      image; otherwise the size argument is read and clamped, SVG is served unchanged with its
      own type, other images are resized to the size (unless it is 0), and anything else is
      converted page by page, as JPEG. An empty image is the "missing" redirect as well. */
  function PreviewImageOf(avOk: bool, sizeArg: Option<string>, pageArg: Option<string>, contentType: string,
                          content: seq<Byte>, previewSize: int, resize: (seq<Byte>, int) -> seq<Byte>,
                          getImage: Converter, toImage: Converter): (r: Result<PreviewImage, RequestError>)
    ensures !avOk ==> r == Success(MissingImage)
    ensures avOk ==> (r.Failure? <==> IntArg(sizeArg).Failure?
                                      || (!("image/" <= contentType) && IntArg(pageArg).Failure?))
    ensures r.Failure? ==> r.error == RequestError.ValueError
    ensures r.Success? && r.value.Image? ==>
              avOk && |r.value.data| > 0
              && var size := ClampPreviewSize(IntArg(sizeArg).value);
                 if "image/svg" <= contentType then
                   r.value == Image(content, contentType)
                 else if "image/" <= contentType then
                   r.value == Image(if size != 0 then resize(content, size) else content, "image/jpeg")
                 else
                   var convert := if size == previewSize then getImage else toImage;
                   convert(IntArg(pageArg).value, size) == Some(r.value.data) && r.value.contentType == "image/jpeg"
  {
    if !avOk then Success(MissingImage)
    else
      var requested :- IntArg(sizeArg);
      var size := ClampPreviewSize(requested);
      var convert := if size == previewSize then getImage else toImage;
      var image :-
        if "image/svg" <= contentType then Success(Image(content, contentType))
        else if "image/" <= contentType then
          Success(Image(if size != 0 then resize(content, size) else content, "image/jpeg"))
        else
          var page :- IntArg(pageArg);
          Success(Image(convert(page, size).GetOr([]), "image/jpeg"));
      if |image.data| == 0 then Success(MissingImage) else Success(image)
  }

  /** The answer of the preview page. */
  datatype PreviewPage = WaitingForAntivirus | PdfViewer | DownloadRedirect

  /** `document_preview`: antivirus first, then PDF documents go to the viewer and all
      others to the download. */
  function DocumentPreview(avOk: bool, contentType: string): (r: PreviewPage)
    ensures r == WaitingForAntivirus <==> !avOk
    ensures r == PdfViewer <==> avOk && contentType == "application/pdf"
  {
    if !avOk then WaitingForAntivirus
    else if contentType == "application/pdf" then PdfViewer
    else DownloadRedirect
  }

  /** The PDF viewer embeds the download of the document, which is then served inline. */
  lemma PdfViewerDownloadInline(avOk: bool, contentType: string)
    ensures DocumentPreview(avOk, contentType) == PdfViewer ==> !Attachment(false, contentType)
  {
    InlineIff(contentType);
  }
}
